/** base58 text of ypc: conversion between big-endian byte strings and base-58 digits,
    in place, in buffers sized by a rational bound on a ratio of logarithms. */
module Base58 {
  import opened OctetStrings
  import opened Options
  import opened Positional

  /** psz_base58 */
  function Alphabet(d: nat): char {
    match d
    case 0 => '1' case 1 => '2' case 2 => '3' case 3 => '4' case 4 => '5' case 5 => '6'
    case 6 => '7' case 7 => '8' case 8 => '9' case 9 => 'A' case 10 => 'B' case 11 => 'C'
    case 12 => 'D' case 13 => 'E' case 14 => 'F' case 15 => 'G' case 16 => 'H' case 17 => 'J'
    case 18 => 'K' case 19 => 'L' case 20 => 'M' case 21 => 'N' case 22 => 'P' case 23 => 'Q'
    case 24 => 'R' case 25 => 'S' case 26 => 'T' case 27 => 'U' case 28 => 'V' case 29 => 'W'
    case 30 => 'X' case 31 => 'Y' case 32 => 'Z' case 33 => 'a' case 34 => 'b' case 35 => 'c'
    case 36 => 'd' case 37 => 'e' case 38 => 'f' case 39 => 'g' case 40 => 'h' case 41 => 'i'
    case 42 => 'j' case 43 => 'k' case 44 => 'm' case 45 => 'n' case 46 => 'o' case 47 => 'p'
    case 48 => 'q' case 49 => 'r' case 50 => 's' case 51 => 't' case 52 => 'u' case 53 => 'v'
    case 54 => 'w' case 55 => 'x' case 56 => 'y' case 57 => 'z'
    case _ => '0'
  }

  /** map_base58: the digit of a character, -1 for all others. */
  function MapBase58(c: char): int {
    match c
    case '1' => 0 case '2' => 1 case '3' => 2 case '4' => 3 case '5' => 4 case '6' => 5
    case '7' => 6 case '8' => 7 case '9' => 8 case 'A' => 9 case 'B' => 10 case 'C' => 11
    case 'D' => 12 case 'E' => 13 case 'F' => 14 case 'G' => 15 case 'H' => 16 case 'J' => 17
    case 'K' => 18 case 'L' => 19 case 'M' => 20 case 'N' => 21 case 'P' => 22 case 'Q' => 23
    case 'R' => 24 case 'S' => 25 case 'T' => 26 case 'U' => 27 case 'V' => 28 case 'W' => 29
    case 'X' => 30 case 'Y' => 31 case 'Z' => 32 case 'a' => 33 case 'b' => 34 case 'c' => 35
    case 'd' => 36 case 'e' => 37 case 'f' => 38 case 'g' => 39 case 'h' => 40 case 'i' => 41
    case 'j' => 42 case 'k' => 43 case 'm' => 44 case 'n' => 45 case 'o' => 46 case 'p' => 47
    case 'q' => 48 case 'r' => 49 case 's' => 50 case 't' => 51 case 'u' => 52 case 'v' => 53
    case 'w' => 54 case 'x' => 55 case 'y' => 56 case 'z' => 57
    case _ => -1
  }

  lemma AlphabetInverse(d: nat, c: char)
    ensures d < 58 ==> MapBase58(Alphabet(d)) == d && !IsSpace(Alphabet(d)) && (Alphabet(d) == '1' <==> d == 0)
    ensures MapBase58(c) != -1 ==> 0 <= MapBase58(c) < 58 && Alphabet(MapBase58(c)) == c && !IsSpace(c)
  {
  }

  /** isspace in the C locale. */
  predicate IsSpace(c: char) { c == ' ' || '\t' <= c <= '\r' }

  // ----- buffer sizes -----

  lemma ProductBound(a: nat, b: nat, c: nat, d: nat)
    requires a <= b && c <= d
    ensures a * c <= b * d
  {
    assert a * c <= a * d <= b * d;
  }

  lemma {:induction false} PowerBound(a: nat, b: nat, m: nat, n: nat, q: nat)
    requires Pow(a, m) <= Pow(b, n)
    ensures Pow(a, m * q) <= Pow(b, n * q)
  {
    if q != 0 {
      PowerBound(a, b, m, n, q - 1);
      assert m * q == m * (q - 1) + m && n * q == n * (q - 1) + n;
      PowAdd(a, m * (q - 1), m);
      PowAdd(b, n * (q - 1), n);
      ProductBound(Pow(a, m * (q - 1)), Pow(b, n * (q - 1)), Pow(a, m), Pow(b, n));
    }
  }

  /** Bounds for a full period and for the rest combine. */
  lemma PeriodBound(a: nat, b: nat, m: nat, n: nat, q: nat, r: nat, s: nat, size: nat)
    requires 1 <= b && Pow(a, m) <= Pow(b, n) && Pow(a, r) <= Pow(b, s) && n * q + s <= size
    ensures Pow(a, m * q + r) <= Pow(b, size)
  {
    PowerBound(a, b, m, n, q);
    PowAdd(a, m * q, r);
    PowAdd(b, n * q, s);
    ProductBound(Pow(a, m * q), Pow(b, n * q), Pow(a, r), Pow(b, s));
    PowGrows(b, n * q + s, size);
  }

  predicate EncoderFitsUpTo(n: nat) {
    n == 0 || (Pow(256, n - 1) <= Pow(58, (n - 1) * 138 / 100 + 1) && EncoderFitsUpTo(n - 1))
  }

  predicate DecoderFitsUpTo(n: nat) {
    n == 0 || (Pow(58, n - 1) <= Pow(256, (n - 1) * 733 / 1000 + 1) && DecoderFitsUpTo(n - 1))
  }

  lemma {:induction false} EncoderFits(n: nat, r: nat)
    requires EncoderFitsUpTo(n) && r < n
    ensures Pow(256, r) <= Pow(58, r * 138 / 100 + 1)
  {
    if r < n - 1 { EncoderFits(n - 1, r); }
  }

  lemma {:induction false} DecoderFits(n: nat, r: nat)
    requires DecoderFitsUpTo(n) && r < n
    ensures Pow(58, r) <= Pow(256, r * 733 / 1000 + 1)
  {
    if r < n - 1 { DecoderFits(n - 1, r); }
  }

  lemma SmallPowersOf58()
    ensures Pow(58, 1) == 58 && Pow(58, 2) == 3364 && Pow(58, 3) == 195112 && Pow(58, 5) == 656356768
    ensures Pow(58, 6) == 38068692544 && Pow(58, 7) == 2207984167552
  {
    assert Pow(58, 3) == 58 * Pow(58, 2);
    assert Pow(58, 6) == 58 * Pow(58, 5);
  }

  lemma MorePowersOf58()
    ensures Pow(58, 9) == 7427658739644928 && Pow(58, 10) == 430804206899405824
    ensures Pow(58, 11) == 24986644000165537792
  {
    hide Pow;
    SmallPowersOf58();
    PowAdd(58, 7, 2);
    PowAdd(58, 9, 1);
    PowAdd(58, 10, 1);
  }

  lemma PowersOf256()
    ensures Pow(256, 0) == 1 && Pow(256, 1) == 256 && Pow(256, 2) == 65536 && Pow(256, 3) == 16777216
    ensures Pow(256, 4) == 4294967296 && Pow(256, 5) == 1099511627776 && Pow(256, 6) == 281474976710656
    ensures Pow(256, 7) == 72057594037927936 && Pow(256, 8) == 18446744073709551616
  {
    assert Pow(256, 4) == 256 * Pow(256, 3);
    assert Pow(256, 7) == 256 * Pow(256, 6);
  }

  lemma EightBytes()
    ensures Pow(256, 8) <= Pow(58, 11) && EncoderFitsUpTo(8)
  {
    hide Pow;
    SmallPowersOf58();
    MorePowersOf58();
    PowersOf256();
  }

  lemma FourDigits()
    ensures Pow(58, 4) <= Pow(256, 3) && DecoderFitsUpTo(4)
    ensures Pow(58, 1) == 58 && Pow(58, 5) == 656356768 && Pow(256, 4) == 4294967296
    ensures Pow(256, 3) == 16777216 && Pow(256, 1) == 256
  {
  }

  lemma FifteenDigits()
    ensures Pow(58, 15) <= Pow(256, 11)
    ensures Pow(58, 15) == 282761256881297307761016832
    ensures Pow(256, 8) == 18446744073709551616
  {
    hide Pow;
    FourDigits();
    PowAdd(58, 5, 5);
    PowAdd(58, 10, 5);
    PowAdd(256, 4, 4);
    PowAdd(256, 8, 3);
  }

  lemma SeventyOneDigits()
    ensures Pow(58, 71) <= Pow(256, 52)
  {
    hide Pow;
    FourDigits();
    FifteenDigits();
    PowAdd(58, 15, 15);
    PowAdd(58, 30, 30);
    PowAdd(58, 60, 5);
    PowAdd(58, 65, 5);
    PowAdd(58, 70, 1);
    PowAdd(256, 8, 4);
    PowAdd(256, 12, 1);
    PowAdd(256, 13, 13);
    PowAdd(256, 26, 26);
  }

  /** 138/100 base-58 digits per byte and one more are enough. */
  lemma EncoderBufferSuffices(n: nat)
    ensures Pow(256, n) <= Pow(58, n * 138 / 100 + 1)
  {
    hide Pow, EncoderFitsUpTo;
    var q, r := n / 8, n % 8;
    EightBytes();
    EncoderFits(8, r);
    PeriodBound(256, 58, 8, 11, q, r, r * 138 / 100 + 1, n * 138 / 100 + 1);
  }

  /** 733/1000 bytes per base-58 digit and one more are enough. */
  lemma DecoderBufferSuffices(n: nat)
    ensures Pow(58, n) <= Pow(256, n * 733 / 1000 + 1)
  {
    hide Pow;
    var q, r := n / 71, n % 71;
    SeventyOneDigits();
    SmallDecoderBuffer(r);
    PeriodBound(58, 256, 71, 52, q, r, r * 733 / 1000 + 1, n * 733 / 1000 + 1);
  }

  lemma SmallDecoderBuffer(r: nat)
    requires r < 71
    ensures Pow(58, r) <= Pow(256, r * 733 / 1000 + 1)
  {
    hide Pow;
    var a, b := r / 15, r % 15;
    FifteenDigits();
    TinyDecoderBuffer(b);
    SizesAdd(a, b);
    PeriodBound(58, 256, 15, 11, a, b, if b == 0 then 0 else b * 733 / 1000 + 1, r * 733 / 1000 + 1);
  }

  lemma SizesAdd(a: nat, b: nat)
    requires a < 5 && b < 15
    ensures 11 * a + (if b == 0 then 0 else b * 733 / 1000 + 1) <= (15 * a + b) * 733 / 1000 + 1
  {
  }

  lemma TinyDecoderBuffer(b: nat)
    requires b < 15
    ensures Pow(58, b) <= Pow(256, if b == 0 then 0 else b * 733 / 1000 + 1)
  {
    hide Pow, DecoderFitsUpTo;
    var c, d := b / 4, b % 4;
    FourDigits();
    DecoderFits(4, d);
    PowZero(58);
    PowZero(256);
    PeriodBound(58, 256, 4, 3, c, d, if d == 0 then 0 else d * 733 / 1000 + 1,
      if b == 0 then 0 else b * 733 / 1000 + 1);
  }

  lemma PowZero(b: nat)
    ensures Pow(b, 0) == 1
  {
  }

  // ----- multiply-and-add in place -----

  /** The i low digits of buf are done, the others are still those of old, and carry is due next. */
  ghost predicate PartlyDone(base: nat, mul: nat, ch: nat, was: seq<nat>, now: seq<nat>, i: nat, carry: nat) {
    && |now| == |was| && i <= |was|
    && InRange(base, was) && InRange(base, now)
    && now[..|was| - i] == was[..|was| - i]
    && Value(base, was[|was| - i..]) * mul + ch == Value(base, now[|was| - i..]) + carry * Pow(base, i)
  }

  lemma NothingDone(base: nat, mul: nat, ch: nat, was: seq<nat>)
    requires InRange(base, was)
    ensures PartlyDone(base, mul, ch, was, was, 0, ch)
  {
    assert was[|was|..] == [];
  }

  lemma NextDigit(base: nat, mul: nat, ch: nat, was: seq<nat>, now: seq<nat>, i: nat, carry: nat)
    requires 2 <= base && PartlyDone(base, mul, ch, was, now, i, carry) && i < |was|
    ensures var sum := carry + mul * now[|was| - 1 - i];
      PartlyDone(base, mul, ch, was, now[|was| - 1 - i := sum % base], i + 1, sum / base)
  {
    var j := |was| - 1 - i;
    var d, sum := now[j], carry + mul * now[j];
    var next := now[j := sum % base];
    assert d == was[j] by { assert now[..j + 1][j] == was[..j + 1][j]; }
    assert next[..j] == was[..j] by { assert now[..j] == now[..j + 1][..j] && was[..j] == was[..j + 1][..j]; }
    assert was[j..] == [d] + was[j + 1..] && next[j..] == [sum % base] + now[j + 1..];
    ValueAppend(base, [d], was[j + 1..]);
    ValueAppend(base, [sum % base], now[j + 1..]);
    assert Value(base, [d]) == d by { assert [d][..0] == []; }
    assert Value(base, [sum % base]) == sum % base by { assert [sum % base][..0] == []; }
    DigitCarries(d, mul, Pow(base, i), Value(base, was[j + 1..]), ch, Value(base, now[j + 1..]), carry, base);
  }

  lemma DigitCarries(d: nat, mul: nat, p: nat, v: nat, ch: nat, w: nat, carry: nat, base: nat)
    requires 2 <= base && v * mul + ch == w + carry * p
    ensures var sum := carry + mul * d;
      (d * p + v) * mul + ch == (sum % base * p + w) + sum / base * (base * p)
  {
    var sum := carry + mul * d;
    calc {
      (d * p + v) * mul + ch;
      mul * d * p + (v * mul + ch);
      sum * p + w;
      { assert sum == sum / base * base + sum % base; }
      (sum / base * base + sum % base) * p + w;
      sum / base * base * p + sum % base * p + w;
      { assert sum / base * base * p == sum / base * (base * p); }
      (sum % base * p + w) + sum / base * (base * p);
    }
  }

  /** Apply "buf = buf * mul + ch" to the big-endian digits in buf, of which the low `length`
      are in use. No carry is left when the result fits into the buffer. */
  method MulAdd(buf: array<nat>, length: nat, mul: nat, base: nat, ch: nat) returns (length': nat)
    requires 2 <= base && length <= buf.Length && InRange(base, buf[..])
    requires forall i :: 0 <= i < buf.Length - length ==> buf[i] == 0
    requires Value(base, buf[..]) * mul + ch < Pow(base, buf.Length)
    modifies buf
    ensures Value(base, buf[..]) == Value(base, old(buf[..])) * mul + ch && InRange(base, buf[..])
    ensures length <= length' <= buf.Length && forall i :: 0 <= i < buf.Length - length' ==> buf[i] == 0
  {
    hide Pow, Value, PartlyDone;
    var n := buf.Length;
    ghost var was := buf[..];
    NothingDone(base, mul, ch, was);
    var carry: nat, i: nat := ch, 0;
    while (carry != 0 || i < length) && i < n
      invariant i <= n && PartlyDone(base, mul, ch, was, buf[..], i, carry)
      decreases n - i
    {
      NextDigit(base, mul, ch, was, buf[..], i, carry);
      carry := carry + mul * buf[n - 1 - i];
      ghost var before := buf[..];
      buf[n - 1 - i] := carry % base;
      assert buf[..] == before[n - 1 - i := buf[n - 1 - i]];
      carry := carry / base;
      i := i + 1;
    }
    NoCarryLeft(base, mul, ch, was, buf[..], i, length, carry);
    assert carry == 0;
    length' := i;
  }

  lemma NoCarryLeft(base: nat, mul: nat, ch: nat, was: seq<nat>, now: seq<nat>, i: nat, length: nat, carry: nat)
    requires 2 <= base && PartlyDone(base, mul, ch, was, now, i, carry)
    requires length <= |was| && forall k :: 0 <= k < |was| - length ==> was[k] == 0
    requires i == |was| || (carry == 0 && length <= i)
    requires Value(base, was) * mul + ch < Pow(base, |was|)
    ensures carry == 0 && length <= i && |now| == |was| && Value(base, now) == Value(base, was) * mul + ch
    ensures InRange(base, now) && forall k :: 0 <= k < |was| - i ==> now[k] == 0
  {
    hide Pow, Value;
    var n := |was|;
    MulMonotone(1, carry, Pow(base, n));
    if i == n {
      assert was[0..] == was && now[0..] == now;
    } else {
      forall k | 0 <= k < n - i ensures now[k] == 0 { assert now[..n - i][k] == was[..n - i][k]; }
      ValueTrim(base, was, n - i);
      ValueTrim(base, now, n - i);
    }
  }

  // ----- what encoding and decoding mean -----

  function Text(digits: seq<nat>): (t: string)
    ensures |t| == |digits| && forall i :: 0 <= i < |t| ==> t[i] == Alphabet(digits[i])
  {
    seq(|digits|, i requires 0 <= i < |digits| => Alphabet(digits[i]))
  }

  function Repeat<T>(x: T, n: nat): (r: seq<T>)
    ensures |r| == n && forall i :: 0 <= i < n ==> r[i] == x
  {
    seq(n, _ => x)
  }

  /** How many elements equal to x stand in front. */
  function Leading<T(==)>(x: T, s: seq<T>): (n: nat)
    ensures n <= |s| && (forall i :: 0 <= i < n ==> s[i] == x) && (n < |s| ==> s[n] != x)
  {
    if s == [] || s[0] != x then 0 else 1 + Leading(x, s[1..])
  }

  /** One '1' per leading zero byte, then the shortest base-58 digits of the rest. */
  function Encoded(v: seq<octet>): string {
    var z := Leading(0, v);
    Repeat('1', z) + Text(Digits(58, Value(256, v[z..])))
  }

  /** The characters before the terminating NUL. */
  function CString(s: string): (r: string)
    ensures r <= s && '\0' !in r
  {
    if s == [] || s[0] == '\0' then [] else [s[0]] + CString(s[1..])
  }

  function TrimLeft(s: string): string {
    if s != [] && IsSpace(s[0]) then TrimLeft(s[1..]) else s
  }

  function TrimRight(s: string): string {
    if s != [] && IsSpace(s[|s| - 1]) then TrimRight(s[..|s| - 1]) else s
  }

  /** The text without the spaces around it. */
  function Trimmed(s: string): string { TrimRight(TrimLeft(CString(s))) }

  predicate AllDigits(t: string) { forall i :: 0 <= i < |t| ==> MapBase58(t[i]) != -1 }

  function DigitsOf(t: string): (d: seq<nat>)
    requires AllDigits(t)
    ensures |d| == |t| && InRange(58, d) && forall i :: 0 <= i < |t| ==> d[i] == MapBase58(t[i])
  {
    if t == [] then []
    else
      AlphabetInverse(0, t[|t| - 1]);
      DigitsOf(t[..|t| - 1]) + [MapBase58(t[|t| - 1]) as nat]
  }

  /** A text is accepted when only base-58 digits are left between the spaces around it. */
  function Decoded(s: string): Option<seq<nat>> {
    var t := Trimmed(s);
    if !AllDigits(t) then None
    else
      var z := Leading('1', t);
      Some(Repeat(0, z) + Digits(256, Value(58, DigitsOf(t[z..]))))
  }

  // ----- round trips -----

  lemma LeadingIs<T>(x: T, s: seq<T>, n: nat)
    requires n <= |s| && (forall i :: 0 <= i < n ==> s[i] == x) && (n < |s| ==> s[n] != x)
    ensures Leading(x, s) == n
  {
    var m := Leading(x, s);
    assert !(m < n) && !(n < m);
  }

  lemma TextOfDigits(t: string)
    requires AllDigits(t)
    ensures Text(DigitsOf(t)) == t
  {
    forall i | 0 <= i < |t| ensures Text(DigitsOf(t))[i] == t[i] { AlphabetInverse(0, t[i]); }
  }

  lemma DigitsOfText(d: seq<nat>)
    requires InRange(58, d)
    ensures AllDigits(Text(d)) && DigitsOf(Text(d)) == d
    ensures forall i :: 0 <= i < |d| ==> !IsSpace(Text(d)[i]) && Text(d)[i] != '\0'
  {
    forall i | 0 <= i < |d|
      ensures MapBase58(Text(d)[i]) == d[i] && !IsSpace(Text(d)[i]) && Text(d)[i] != '\0'
    {
      AlphabetInverse(d[i], '\0');
    }
  }

  lemma {:induction false} NothingToCut(s: string)
    requires '\0' !in s
    ensures CString(s) == s
  {
    if s != [] {
      assert s[0] in s;
      assert forall c :: c in s[1..] ==> c in s;
      NothingToCut(s[1..]);
    }
  }

  lemma CleanText(t: string)
    requires forall i :: 0 <= i < |t| ==> !IsSpace(t[i]) && t[i] != '\0'
    ensures Trimmed(t) == t
  {
    NothingToCut(t);
  }

  lemma OnesAndDigits(z: nat, d: seq<nat>)
    requires InRange(58, d) && Shortest(d)
    ensures var t := Repeat('1', z) + Text(d);
      && Trimmed(t) == t && AllDigits(t) && Leading('1', t) == z && t[z..] == Text(d) && DigitsOf(t[z..]) == d
  {
    hide Alphabet, MapBase58, Text, DigitsOf, Trimmed;
    var t := Repeat('1', z) + Text(d);
    DigitsOfText(d);
    AlphabetInverse(0, '1');
    forall i | 0 <= i < |t| ensures !IsSpace(t[i]) && t[i] != '\0' && MapBase58(t[i]) != -1 {
      if i < z { assert t[i] == '1'; } else { assert t[i] == Text(d)[i - z]; }
    }
    CleanText(t);
    if d != [] { AlphabetInverse(d[0], '1'); assert t[z] == Text(d)[0]; }
    LeadingIs('1', t, z);
    assert t[z..] == Text(d);
  }

  /** decode_base58(encode_base58(v)) succeeds and returns v, leading zero bytes included. */
  lemma EncodeThenDecode(v: seq<octet>)
    ensures Decoded(Encoded(v)).Some? && Decoded(Encoded(v)).value == v
  {
    hide Value, Digits, Text, DigitsOf, Trimmed;
    var z := Leading(0, v);
    DigitsIsShortest(58, Value(256, v[z..]));
    OnesAndDigits(z, Digits(58, Value(256, v[z..])));
    ShortestIsDigits(256, v[z..]);
    var t := Encoded(v);
    assert Decoded(t) == Some(Repeat(0, z) + Digits(256, Value(58, DigitsOf(t[z..]))));
    var back: seq<nat> := Repeat(0, z) + v[z..];
    assert Digits(256, Value(256, v[z..])) == v[z..];
    assert v == back;
  }

  /** An accepted text, encoded again, is the text without the spaces around it. */
  lemma DecodeThenEncode(s: string)
    requires Decoded(s).Some?
    ensures InRange(256, Decoded(s).value)
    ensures forall v: seq<octet> :: v == Decoded(s).value ==> Encoded(v) == Trimmed(s)
  {
    hide Alphabet, MapBase58, Value, Digits, Pow, Text, DigitsOf, Trimmed;
    var t := Trimmed(s);
    var z := Leading('1', t);
    var d := DigitsOf(t[z..]);
    var n := Value(58, d);
    var w := Decoded(s).value;
    DigitsIsShortest(256, n);
    forall v: seq<octet> | v == w ensures Encoded(v) == t {
      assert w[z..] == Digits(256, n);
      LeadingIs(0, v, z);
      if d != [] { AlphabetInverse(0, t[z]); AlphabetInverse(0, '1'); }
      ShortestIsDigits(58, d);
      TextOfDigits(t[z..]);
      assert t == Repeat('1', z) + t[z..];
    }
  }

  // ----- the two functions -----

  /** Skip the leading zeros of the result: the digits from there on are the shortest ones. */
  method SkipZeros(buf: array<nat>, length: nat, base: nat) returns (it: nat)
    requires 2 <= base && length <= buf.Length && InRange(base, buf[..])
    requires forall i :: 0 <= i < buf.Length - length ==> buf[i] == 0
    ensures it <= buf.Length && buf[it..] == Digits(base, Value(base, buf[..]))
  {
    hide Value, Digits;
    it := buf.Length - length;
    while it != buf.Length && buf[it] == 0
      invariant it <= buf.Length && forall i :: 0 <= i < it ==> buf[i] == 0
    {
      it := it + 1;
    }
    ValueTrim(base, buf[..], it);
    ShortestIsDigits(base, buf[it..]);
  }

  method EncodeBase58(v: seq<octet>) returns (str: string)
    ensures str == Encoded(v)
  {
    hide Alphabet, Value, Digits, Pow, Text;
    var zeroes := 0;
    while zeroes != |v| && v[zeroes] == 0
      invariant zeroes <= |v| && forall i :: 0 <= i < zeroes ==> v[i] == 0
    {
      zeroes := zeroes + 1;
    }
    LeadingIs(0, v, zeroes);
    var rest := v[zeroes..];
    var size := |rest| * 138 / 100 + 1;
    var b58 := new nat[size](_ => 0);
    var length := 0;
    EncoderBufferSuffices(|rest|);
    ValueZeros(58, b58[..]);
    ValueZeros(256, rest[..0]);
    for k := 0 to |rest|
      invariant length <= size && InRange(58, b58[..]) && Value(58, b58[..]) == Value(256, rest[..k])
      invariant forall i :: 0 <= i < size - length ==> b58[i] == 0
    {
      PrefixFits(256, 58, rest, k, size);
      length := MulAdd(b58, length, 256, 58, rest[k]);
    }
    assert rest[..|rest|] == rest;
    var it := SkipZeros(b58, length, 58);
    str := Repeat('1', zeroes);
    ghost var digits := b58[it..];
    for i := it to size
      invariant str == Repeat('1', zeroes) + Text(digits)[..i - it]
    {
      str := str + [Alphabet(b58[i])];
    }
  }

  /** One more digit keeps the value below what the buffer holds. */
  lemma PrefixFits(from: nat, to: nat, digits: seq<nat>, k: nat, size: nat)
    requires 1 <= from && InRange(from, digits) && k < |digits| && Pow(from, |digits|) <= Pow(to, size)
    ensures Value(from, digits[..k + 1]) == Value(from, digits[..k]) * from + digits[k]
    ensures Value(from, digits[..k + 1]) < Pow(to, size)
  {
    assert digits[..k + 1][..k] == digits[..k];
    ValueBelow(from, digits[..k + 1]);
    PowGrows(from, k + 1, |digits|);
  }

  lemma {:induction false} TrimLeftIs(s: string, p: nat)
    requires p <= |s| && (forall i :: 0 <= i < p ==> IsSpace(s[i])) && (p < |s| ==> !IsSpace(s[p]))
    ensures TrimLeft(s) == s[p..]
  {
    if p != 0 { TrimLeftIs(s[1..], p - 1); }
  }

  lemma {:induction false} TrimRightIs(s: string, n: nat)
    requires n <= |s| && (forall i :: n <= i < |s| ==> IsSpace(s[i])) && (0 < n ==> !IsSpace(s[n - 1]))
    ensures TrimRight(s) == s[..n]
  {
    if n < |s| { TrimRightIs(s[..|s| - 1], n); }
  }

  lemma {:induction false} TrimRightKeeps(s: string, i: nat)
    requires i < |s| && !IsSpace(s[i])
    ensures i < |TrimRight(s)| && TrimRight(s) <= s
  {
    if IsSpace(s[|s| - 1]) { TrimRightKeeps(s[..|s| - 1], i); }
  }

  /** A character that is no digit, with a character that is no space at or after it, is never accepted. */
  lemma Rejected(psz: string, p: nat, bad: nat, i: nat)
    requires var s := CString(psz); p <= bad <= i < |s| && TrimLeft(s) == s[p..]
    requires var s := CString(psz); MapBase58(s[bad]) == -1 && !IsSpace(s[i])
    ensures Decoded(psz) == None
  {
    hide MapBase58, TrimLeft, TrimRight, CString, IsSpace;
    var s := CString(psz);
    TrimRightKeeps(s[p..], i - p);
    assert Trimmed(psz)[bad - p] == s[bad];
  }

  /** The text is accepted with the z ones and n further digits that follow the spaces. */
  lemma Accepted(psz: string, p: nat, z: nat, n: nat)
    requires var s := CString(psz); p + z + n <= |s| && TrimLeft(s) == s[p..]
    requires var s := CString(psz); forall i :: p <= i < p + z ==> s[i] == '1'
    requires var s := CString(psz); AllDigits(s[p + z..][..n]) && (n != 0 ==> s[p + z] != '1')
    requires var s := CString(psz); forall i :: p + z + n <= i < |s| ==> IsSpace(s[i])
    ensures var s := CString(psz);
      Decoded(psz) == Some(Repeat(0, z) + Digits(256, Value(58, DigitsOf(s[p + z..][..n]))))
  {
    hide Alphabet, MapBase58, Value, Digits, TrimLeft, TrimRight, CString, IsSpace;
    var s := CString(psz);
    var u, rest := s[p..], s[p + z..];
    forall i | 0 <= i < z + n ensures MapBase58(u[i]) != -1 && !IsSpace(u[i]) {
      if z <= i { assert u[i] == rest[..n][i - z]; }
      AlphabetInverse(0, u[i]);
    }
    TrimRightIs(u, z + n);
    LeadingIs('1', u[..z + n], z);
    assert u[..z + n][z..] == rest[..n];
  }

  /** Read digits up to a space or the end, and give their value in bytes. */
  method ReadDigits(rest: string) returns (ok: bool, k: nat, bytes: seq<nat>)
    ensures k <= |rest| && AllDigits(rest[..k])
    ensures ok ==> (k == |rest| || IsSpace(rest[k])) && bytes == Digits(256, Value(58, DigitsOf(rest[..k])))
    ensures !ok ==> k < |rest| && !IsSpace(rest[k]) && MapBase58(rest[k]) == -1
  {
    hide Alphabet, MapBase58, Value, Digits, Pow, IsSpace;
    var size := |rest| * 733 / 1000 + 1;
    var b256 := new nat[size](_ => 0);
    var length;
    length, k := 0, 0;
    DecoderBufferSuffices(|rest|);
    ValueZeros(256, b256[..]);
    ValueZeros(58, DigitsOf(rest[..0]));
    while k < |rest| && !IsSpace(rest[k])
      invariant k <= |rest| && AllDigits(rest[..k]) && length <= size && InRange(256, b256[..])
      invariant Value(256, b256[..]) == Value(58, DigitsOf(rest[..k]))
      invariant forall i :: 0 <= i < size - length ==> b256[i] == 0
    {
      var digit := MapBase58(rest[k]);
      if digit == -1 { return false, k, []; }
      AlphabetInverse(0, rest[k]);
      OneMoreDigit(rest, k, size);
      length := MulAdd(b256, length, 58, 256, digit);
      k := k + 1;
    }
    var it := SkipZeros(b256, length, 256);
    return true, k, b256[it..];
  }

  method DecodeBase58(psz: string) returns (r: Option<seq<nat>>)
    ensures r == Decoded(psz)
  {
    hide Alphabet, MapBase58, Value, Digits, TrimLeft, TrimRight, Decoded, CString;
    var s := CString(psz);
    var p := 0;
    while p < |s| && IsSpace(s[p])
      invariant p <= |s| && forall i :: 0 <= i < p ==> IsSpace(s[i])
    {
      p := p + 1;
    }
    TrimLeftIs(s, p);
    var zeroes := 0;
    while p + zeroes < |s| && s[p + zeroes] == '1'
      invariant p + zeroes <= |s| && forall i :: p <= i < p + zeroes ==> s[i] == '1'
    {
      zeroes := zeroes + 1;
    }
    var rest := s[p + zeroes..];
    var ok, k, bytes := ReadDigits(rest);
    assert forall i :: 0 <= i < |rest| ==> rest[i] == s[p + zeroes + i];
    if !ok {
      Rejected(psz, p, p + zeroes + k, p + zeroes + k);
      return None;
    }
    var e := k;
    while e < |rest| && IsSpace(rest[e])
      invariant k <= e <= |rest| && forall i :: k <= i < e ==> IsSpace(rest[i])
    {
      e := e + 1;
    }
    if e < |rest| {
      AlphabetInverse(0, rest[k]);
      Rejected(psz, p, p + zeroes + k, p + zeroes + e);
      return None;
    }
    forall i | p + zeroes + k <= i < |s| ensures IsSpace(s[i]) { assert s[i] == rest[i - p - zeroes]; }
    Accepted(psz, p, zeroes, k);
    r := Some(Repeat(0, zeroes) + bytes);
  }

  lemma OneMoreDigit(rest: string, k: nat, size: nat)
    requires k < |rest| && AllDigits(rest[..k]) && MapBase58(rest[k]) != -1
    requires Pow(58, |rest|) <= Pow(256, size)
    ensures AllDigits(rest[..k + 1])
    ensures Value(58, DigitsOf(rest[..k + 1])) == Value(58, DigitsOf(rest[..k])) * 58 + MapBase58(rest[k])
    ensures Value(58, DigitsOf(rest[..k + 1])) < Pow(256, size)
  {
    hide Pow, Value, MapBase58;
    assert AllDigits(rest[..k + 1]) by {
      forall i | 0 <= i < k + 1 ensures MapBase58(rest[i]) != -1 { if i < k { assert rest[..k][i] == rest[i]; } }
    }
    var d := DigitsOf(rest[..k + 1]);
    assert d[..k] == DigitsOf(rest[..k]);
    PowGrows(58, k + 1, |rest|);
    PrefixFits(58, 256, d, k, size);
    assert d[..k + 1] == d;
  }
}
