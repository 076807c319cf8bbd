/** Positional number systems: the value of a digit string, its shortest digit string,
    and why a buffer with enough digits never overflows. */
module Positional {

  function Pow(b: nat, e: nat): (p: nat)
    ensures b > 0 ==> p > 0
  {
    if e == 0 then 1 else b * Pow(b, e - 1)
  }

  /** Most significant digit first. */
  function Value(base: nat, digits: seq<nat>): nat {
    if digits == [] then 0 else Value(base, digits[..|digits| - 1]) * base + digits[|digits| - 1]
  }

  predicate InRange(base: nat, digits: seq<nat>) { forall i :: 0 <= i < |digits| ==> digits[i] < base }

  predicate Shortest(digits: seq<nat>) { digits == [] || digits[0] != 0 }

  /** The shortest digit string of a number. */
  function Digits(base: nat, v: nat): seq<nat>
    requires 2 <= base
  {
    if v == 0 then [] else Digits(base, v / base) + [v % base]
  }

  lemma {:induction false} PowAdd(b: nat, m: nat, n: nat)
    ensures Pow(b, m + n) == Pow(b, m) * Pow(b, n)
  {
    if m != 0 {
      PowAdd(b, m - 1, n);
      assert b * (Pow(b, m - 1) * Pow(b, n)) == b * Pow(b, m - 1) * Pow(b, n);
    }
  }

  lemma {:induction false} PowGrows(b: nat, m: nat, n: nat)
    requires 1 <= b && m <= n
    ensures Pow(b, m) <= Pow(b, n)
  {
    PowAdd(b, m, n - m);
    assert Pow(b, m) * 1 <= Pow(b, m) * Pow(b, n - m);
  }

  lemma OneMore(v: nat, p: nat, base: nat, w: nat, low: nat)
    ensures (v * p + w) * base + low == v * (base * p) + (w * base + low)
  {
  }

  lemma {:induction false} ValueAppend(base: nat, a: seq<nat>, b: seq<nat>)
    ensures Value(base, a + b) == Value(base, a) * Pow(base, |b|) + Value(base, b)
  {
    if b == [] { assert a + b == a; }
    else {
      var n := |b| - 1;
      assert (a + b)[..|a + b| - 1] == a + b[..n];
      ValueAppend(base, a, b[..n]);
      OneMore(Value(base, a), Pow(base, n), base, Value(base, b[..n]), b[n]);
    }
  }

  lemma BelowNext(high: nat, low: nat, p: nat, base: nat)
    requires high < p && low < base
    ensures high * base + low < base * p
  {
    assert (high + 1) * base <= p * base;
  }

  lemma {:induction false} ValueBelow(base: nat, digits: seq<nat>)
    requires InRange(base, digits)
    ensures Value(base, digits) < Pow(base, |digits|)
  {
    if digits != [] {
      var n := |digits| - 1;
      ValueBelow(base, digits[..n]);
      var high, p := Value(base, digits[..n]), Pow(base, n);
      BelowNext(high, digits[n], p, base);
    }
  }

  lemma {:induction false} ValueZeros(base: nat, digits: seq<nat>)
    requires forall i :: 0 <= i < |digits| ==> digits[i] == 0
    ensures Value(base, digits) == 0
  {
    if digits != [] { ValueZeros(base, digits[..|digits| - 1]); }
  }

  /** Leading zeros do not count. */
  lemma ValueTrim(base: nat, digits: seq<nat>, z: nat)
    requires z <= |digits| && forall i :: 0 <= i < z ==> digits[i] == 0
    ensures Value(base, digits) == Value(base, digits[z..])
  {
    assert digits == digits[..z] + digits[z..];
    ValueAppend(base, digits[..z], digits[z..]);
    ValueZeros(base, digits[..z]);
  }

  lemma MulMonotone(a: int, b: int, c: nat)
    ensures a <= b ==> a * c <= b * c
  {
  }

  lemma DivMod(base: nat, q: nat, r: nat)
    requires r < base
    ensures (q * base + r) / base == q && (q * base + r) % base == r
  {
    var v := q * base + r;
    var d := v / base;
    MulMonotone(d + 1, q, base);
    MulMonotone(q + 1, d, base);
  }

  /** A digit string without leading zeros is the shortest string of its value. */
  lemma {:induction false} ShortestIsDigits(base: nat, digits: seq<nat>)
    requires 2 <= base && InRange(base, digits) && Shortest(digits)
    ensures Digits(base, Value(base, digits)) == digits
    ensures digits != [] ==> Value(base, digits) != 0
  {
    if digits != [] {
      var high, low := digits[..|digits| - 1], digits[|digits| - 1];
      ShortestIsDigits(base, high);
      DivMod(base, Value(base, high), low);
      assert digits == high + [low];
      ValueOfLast(base, high, low);
      if high == [] { assert Value(base, digits) == low; }
      else { MulMonotone(1, Value(base, high), base); }
      DigitsOfLast(base, Value(base, high), low);
    }
  }

  lemma DigitsOfLast(base: nat, high: nat, low: nat)
    requires 2 <= base && low < base && high * base + low != 0
    ensures Digits(base, high * base + low) == Digits(base, high) + [low]
  {
    DivMod(base, high, low);
  }

  lemma ValueOfLast(base: nat, high: seq<nat>, low: nat)
    ensures Value(base, high + [low]) == Value(base, high) * base + low
  {
    assert (high + [low])[..|high|] == high;
  }

  lemma DivModBack(v: nat, base: nat)
    requires 2 <= base
    ensures v / base * base + v % base == v && v % base < base
    ensures v != 0 ==> v / base < v
  {
  }

  lemma {:induction false} DigitsIsShortest(base: nat, v: nat)
    requires 2 <= base
    ensures InRange(base, Digits(base, v)) && Shortest(Digits(base, v)) && Value(base, Digits(base, v)) == v
    ensures v != 0 ==> Digits(base, v) != []
  {
    if v != 0 {
      DivModBack(v, base);
      DigitsIsShortest(base, v / base);
      ValueOfLast(base, Digits(base, v / base), v % base);
      assert Digits(base, v) == Digits(base, v / base) + [v % base];
      hide Value, Digits;
    }
  }

  lemma OneDigit(base: nat, d: nat)
    ensures Value(base, [d]) == d
  {
    assert [d][..0] == [];
  }

  /** What a digit string stands for: each digit counts for the power of the base of the digits behind it. */
  lemma ValueIs(base: nat, d: nat, digits: seq<nat>)
    ensures Value(base, []) == 0 && Value(base, [d] + digits) == d * Pow(base, |digits|) + Value(base, digits)
    ensures Pow(base, 0) == 1 && Pow(base, |digits| + 1) == base * Pow(base, |digits|)
  {
    assert Value(base, []) == 0;
    ValueAppend(base, [d], digits);
    OneDigit(base, d);
    hide Value;
  }
}
