/** GF(2^128) as gf128.c computes it: two 64-bit words modulo x^128 + x^7 + x^2 + x + 1. */
module Gf2Polynomials {

  /** A polynomial over GF(2), highest coefficient first. */
  type Bits = seq<bool>

  function Zeros(n: nat): (z: Bits)
    ensures |z| == n && forall k :: 0 <= k < n ==> !z[k]
  {
    seq(n, _ => false)
  }

  function Xor(a: Bits, b: Bits): (c: Bits)
    requires |a| == |b|
    ensures |c| == |a| && forall k :: 0 <= k < |c| ==> c[k] == (a[k] != b[k])
  {
    seq(|a|, k requires 0 <= k < |a| => a[k] != b[k])
  }

  function Times(bit: bool, a: Bits): (c: Bits)
    ensures |c| == |a| && forall k :: 0 <= k < |c| ==> c[k] == (bit && a[k])
  {
    if bit then a else Zeros(|a|)
  }

  /** The product of two polynomials, without reduction. */
  function Carryless(a: Bits, b: Bits): (c: Bits)
    requires a != []
    ensures |c| == |a| - 1 + |b|
  {
    if b == [] then Zeros(|a| - 1)
    else Xor(Carryless(a, b[..|b| - 1]) + [false], Zeros(|b| - 1) + Times(b[|b| - 1], a))
  }

  // ----- the field -----

  /** An element of the field: a polynomial of degree below 128. */
  type Element = a: Bits | |a| == 128 witness Zeros(128)

  /** x^7 + x^2 + x + 1, what x^128 reduces to. */
  predicate Low(k: int) { k == 120 || 125 <= k <= 127 }

  /** The modulus. */
  function Modulus(): (f: Bits)
    ensures |f| == 129 && f[0] && forall k :: 0 <= k < 128 ==> f[k + 1] == Low(k)
  {
    [true] + seq(128, k => Low(k))
  }

  lemma ModulusIs(k: nat)
    requires k <= 128
    ensures Modulus()[128 - k] == (k in {128, 7, 2, 1, 0})
  {
  }

  /** Multiply by x. */
  function X(a: Element): (r: Element)
    ensures forall k :: 0 <= k < 128 ==> r[k] == ((k < 127 && a[k + 1]) != (a[0] && Low(k)))
  {
    seq(128, k requires 0 <= k < 128 => (k < 127 && a[k + 1]) != (a[0] && Low(k)))
  }

  function Last(bit: bool): (r: Element)
    ensures forall k :: 0 <= k < 128 ==> r[k] == (k == 127 && bit)
  {
    seq(128, k => k == 127 && bit)
  }

  /** The product in the field of a and a polynomial of any degree. */
  function Product(a: Element, b: Bits): Element {
    if b == [] then Zeros(128) else Xor(X(Product(a, b[..|b| - 1])), Times(b[|b| - 1], a))
  }

  /** The remainder modulo the modulus. */
  function Remainder(s: Bits): Element {
    if s == [] then Zeros(128) else Xor(X(Remainder(s[..|s| - 1])), Last(s[|s| - 1]))
  }

  // ----- reduction -----

  /** The quotient of s * 1 by the modulus, with one coefficient per coefficient of s. */
  function Quotient(s: Bits): (q: Bits)
    ensures |q| == |s|
  {
    if s == [] then [] else Quotient(s[..|s| - 1]) + [Remainder(s[..|s| - 1])[0]]
  }

  lemma Unfold(a: Bits, p: Bits, bit: bool)
    ensures a != [] ==> Carryless(a, p + [bit]) == Xor(Carryless(a, p) + [false], Zeros(|p|) + Times(bit, a))
    ensures Remainder(p + [bit]) == Xor(X(Remainder(p)), Last(bit))
    ensures Quotient(p + [bit]) == Quotient(p) + [Remainder(p)[0]]
    ensures |a| == 128 ==> Product(a, p + [bit]) == Xor(X(Product(a, p)), Times(bit, a))
  {
    assert (p + [bit])[..|p|] == p;
  }

  /** Division with remainder. */
  lemma {:induction false} Division(s: Bits)
    ensures Zeros(128) + s == Xor(Carryless(Modulus(), Quotient(s)), Zeros(|s|) + Remainder(s))
  {
    hide Xor, X, Last, Times, Modulus;
    if s == [] { NothingToDivide(); }
    else {
      hide Carryless, Remainder, Quotient;
      var n := |s| - 1;
      var t := s[..n];
      assert s == t + [s[n]];
      Division(t);
      Unfold([true], t, s[n]);
      Unfold(Modulus(), Quotient(t), Remainder(t)[0]);
      DivisionStep(Carryless(Modulus(), Quotient(t)), n, t, Remainder(t), s[n]);
      assert Zeros(128) + t + [s[n]] == Zeros(128) + s;
    }
  }

  lemma NothingToDivide()
    ensures Zeros(128) + [] == Xor(Carryless(Modulus(), []), Zeros(0) + Remainder([]))
  {
  }

  lemma DivisionStep(c: Bits, n: nat, t: Bits, r: Element, bit: bool)
    requires |t| == n && |c| == 128 + n && Zeros(128) + t == Xor(c, Zeros(n) + r)
    ensures Zeros(128) + t + [bit]
      == Xor(Xor(c + [false], Zeros(n) + Times(r[0], Modulus())), Zeros(n + 1) + Xor(X(r), Last(bit)))
  {
    var f, m := Modulus(), Xor(X(r), Last(bit));
    var rhs := Xor(Xor(c + [false], Zeros(n) + Times(r[0], f)), Zeros(n + 1) + m);
    forall k | 0 <= k < 128 + n + 1 ensures (Zeros(128) + t + [bit])[k] == rhs[k] {
      if k < 128 + n {
        assert (Zeros(128) + t)[k] == (c[k] != (Zeros(n) + r)[k]);
      }
      if n < k {
        assert Times(r[0], f)[k - n] == (r[0] && Low(k - n - 1));
        assert m[k - n - 1]
          == (((k - n - 1 < 127 && r[k - n]) != (r[0] && Low(k - n - 1))) != (k - n - 1 == 127 && bit));
      }
    }
  }

  /** Where the quotient starts, the multiple of the modulus starts too. */
  lemma {:induction false} MultipleStarts(q: Bits, i: nat)
    requires i < |q| && q[i] && forall k :: 0 <= k < i ==> !q[k]
    ensures Carryless(Modulus(), q)[i]
    decreases |q|
  {
    var n := |q| - 1;
    if i < n { MultipleStarts(q[..n], i); }
    else { NoMultiple(q[..n]); }
  }

  lemma {:induction false} NoMultiple(q: Bits)
    requires forall k :: 0 <= k < |q| ==> !q[k]
    ensures Carryless(Modulus(), q) == Zeros(128 + |q|)
  {
    if q != [] { NoMultiple(q[..|q| - 1]); }
  }

  /** A multiple of the modulus of degree below 128 is zero. */
  lemma {:induction false} SmallMultiple(q: Bits, j: nat)
    requires j <= |q| && (forall k :: 0 <= k < j ==> !q[k]) && forall k :: 0 <= k < |q| ==> !Carryless(Modulus(), q)[k]
    ensures forall k :: 0 <= k < |q| ==> !q[k]
    decreases |q| - j
  {
    if j < |q| {
      if q[j] { MultipleStarts(q, j); }
      SmallMultiple(q, j + 1);
    }
  }

  lemma {:induction false} CarrylessAdd(a: Bits, p: Bits, q: Bits)
    requires a != [] && |p| == |q|
    ensures Carryless(a, Xor(p, q)) == Xor(Carryless(a, p), Carryless(a, q))
  {
    hide Xor, Times, Zeros;
    if p == [] { assert Xor(p, q) == []; XorSelf(Zeros(|a| - 1)); }
    else {
      hide Carryless, Remainder, Quotient, Product, X, Last;
      var n := |p| - 1;
      CarrylessAdd(a, p[..n], q[..n]);
      assert p == p[..n] + [p[n]] && q == q[..n] + [q[n]];
      assert Xor(p, q) == Xor(p[..n], q[..n]) + [p[n] != q[n]];
      Unfold(a, p[..n], p[n]);
      Unfold(a, q[..n], q[n]);
      Unfold(a, Xor(p[..n], q[..n]), p[n] != q[n]);
      CarrylessAddStep(Carryless(a, p[..n]), Carryless(a, q[..n]), n, a, p[n], q[n]);
    }
  }

  lemma XorSelf(a: Bits)
    ensures Xor(a, a) == Zeros(|a|) && Xor(a, Zeros(|a|)) == a && Xor(Zeros(|a|), a) == a
  {
  }

  lemma CarrylessAddStep(c: Bits, d: Bits, n: nat, a: Bits, s: bool, t: bool)
    requires |c| == |d| && |c| + 1 == n + |a|
    ensures Xor(Xor(c, d) + [false], Zeros(n) + Times(s != t, a))
      == Xor(Xor(c + [false], Zeros(n) + Times(s, a)), Xor(d + [false], Zeros(n) + Times(t, a)))
  {
  }

  /** There is only one remainder. */
  lemma RemainderIsUnique(s: Bits, q: Bits, r: Element)
    requires |q| == |s| && Zeros(128) + s == Xor(Carryless(Modulus(), q), Zeros(|s|) + r)
    ensures r == Remainder(s) && q == Quotient(s)
  {
    hide Xor, Carryless, Remainder, Quotient;
    var p, f := Quotient(s), Modulus();
    Division(s);
    CarrylessAdd(f, p, q);
    SameHighPart(Carryless(f, p), Carryless(f, q), |s|, Remainder(s), r);
    SmallMultiple(Xor(p, q), 0);
    assert p == q by {
      forall k | 0 <= k < |p| ensures p[k] == q[k] { assert !Xor(p, q)[k]; }
    }
    SameLowPart(Carryless(f, p), |s|, Remainder(s), r);
  }

  lemma SameHighPart(c: Bits, d: Bits, n: nat, r: Element, m: Element)
    requires |c| == |d| == 128 + n && Xor(c, Zeros(n) + r) == Xor(d, Zeros(n) + m)
    ensures forall k :: 0 <= k < n ==> !Xor(c, d)[k]
  {
    forall k | 0 <= k < n ensures !Xor(c, d)[k] {
      assert Xor(c, Zeros(n) + r)[k] == c[k] && Xor(d, Zeros(n) + m)[k] == d[k];
    }
  }

  lemma SameLowPart(c: Bits, n: nat, r: Element, m: Element)
    requires |c| == 128 + n && Xor(c, Zeros(n) + r) == Xor(c, Zeros(n) + m)
    ensures r == m
  {
    forall k | 0 <= k < 128 ensures r[k] == m[k] {
      assert Xor(c, Zeros(n) + r)[n + k] == (c[n + k] != r[k]) && Xor(c, Zeros(n) + m)[n + k] == (c[n + k] != m[k]);
    }
  }

  // ----- the field laws -----

  lemma XorLaws(a: Bits, b: Bits, c: Bits)
    requires |a| == |b| == |c|
    ensures Xor(a, b) == Xor(b, a) && Xor(Xor(a, b), c) == Xor(a, Xor(b, c))
  {
  }

  lemma XorSwap(a: Bits, b: Bits, c: Bits, d: Bits)
    requires |a| == |b| == |c| == |d|
    ensures Xor(Xor(a, b), Xor(c, d)) == Xor(Xor(a, c), Xor(b, d))
  {
  }

  lemma XAdd(a: Element, b: Element, bit: bool)
    ensures X(Xor(a, b)) == Xor(X(a), X(b)) && X(Zeros(128)) == Zeros(128) && X(Times(bit, a)) == Times(bit, X(a))
  {
  }

  lemma TimesAdd(s: bool, t: bool, a: Bits, b: Bits)
    requires |a| == |b|
    ensures Times(s, Xor(a, b)) == Xor(Times(s, a), Times(s, b)) && Times(s != t, a) == Xor(Times(s, a), Times(t, a))
  {
  }

  lemma {:induction false} AddLeft(a: Element, b: Element, c: Bits)
    ensures Product(Xor(a, b), c) == Xor(Product(a, c), Product(b, c))
  {
    hide Xor, X, Times, Zeros;
    if c == [] { XorSelf(Zeros(128)); }
    else {
      var p, t := c[..|c| - 1], c[|c| - 1];
      AddLeft(a, b, p);
      XAdd(Product(a, p), Product(b, p), t);
      TimesAdd(t, t, a, b);
      XorSwap(X(Product(a, p)), X(Product(b, p)), Times(t, a), Times(t, b));
    }
  }

  lemma {:induction false} XLeft(a: Element, c: Bits)
    ensures Product(X(a), c) == X(Product(a, c))
  {
    hide Xor, X, Times, Zeros;
    XAdd(a, a, false);
    if c != [] {
      var p, t := c[..|c| - 1], c[|c| - 1];
      XLeft(a, p);
      XAdd(X(Product(a, p)), Times(t, a), t);
      XAdd(a, a, t);
    }
  }

  /** A polynomial of low degree as an element. */
  function Pad(p: Bits): Element
    requires |p| <= 128
  {
    Zeros(128 - |p|) + p
  }

  lemma PadNext(p: Bits, bit: bool)
    requires |p| < 128
    ensures Pad(p + [bit]) == Xor(X(Pad(p)), Last(bit))
  {
  }

  lemma {:induction false} ZerosReduce(n: nat)
    ensures Remainder(Zeros(n)) == Zeros(128)
  {
    hide Xor, X;
    if n != 0 {
      ZerosReduce(n - 1);
      assert Zeros(n)[..n - 1] == Zeros(n - 1);
      XAdd(Zeros(128), Zeros(128), false);
      assert Last(false) == Zeros(128);
      XorSelf(Zeros(128));
    }
  }

  /** A polynomial of low degree is its own remainder, and one is neutral. */
  lemma {:induction false} NothingToReduce(n: nat, p: Bits)
    requires |p| <= 128
    ensures Remainder(Zeros(n) + p) == Pad(p) && Product(Last(true), p) == Pad(p)
  {
    hide Xor, X, Last, Times, Remainder;
    if p == [] {
      assert Zeros(n) + p == Zeros(n) && Pad(p) == Zeros(128);
      ZerosReduce(n);
    } else {
      hide Product, Pad, Zeros;
      var q, t := p[..|p| - 1], p[|p| - 1];
      NothingToReduce(n, q);
      assert p == q + [t] && Zeros(n) + p == Zeros(n) + q + [t];
      PadNext(q, t);
      Unfold(Last(true), Zeros(n) + q, t);
      Unfold(Last(true), q, t);
      assert Times(t, Last(true)) == Last(t);
    }
  }

  lemma {:induction false} BitLeft(bit: bool, a: Element, c: Bits)
    ensures Product(Times(bit, a), c) == Times(bit, Product(a, c))
  {
    hide X, Xor;
    if !bit {
      assert Times(bit, a) == Zeros(128);
      XorSelf(Zeros(128));
      if c != [] {
        BitLeft(bit, a, c[..|c| - 1]);
        XAdd(a, a, false);
        assert Times(c[|c| - 1], Zeros(128)) == Zeros(128);
      }
    }
  }

  /** Swapping the factors; the right one may still be incomplete. */
  lemma {:induction false} PrefixCommutes(p: Bits, c: Element)
    requires |p| <= 128
    ensures Product(Pad(p), c) == Product(c, p)
  {
    hide Xor, X, Times, Product, Last, Pad;
    if p == [] { NoFactor(c); }
    else {
      var k := |p| - 1;
      assert p == p[..k] + [p[k]];
      PrefixCommutes(p[..k], c);
      PadNext(p[..k], p[k]);
      AddLeft(X(Pad(p[..k])), Last(p[k]), c);
      XLeft(Pad(p[..k]), c);
      OneBit(p[k], c);
      Unfold(c, p[..k], p[k]);
    }
  }

  lemma NoFactor(c: Element)
    ensures Product(Pad([]), c) == Product(c, [])
  {
    BitLeft(false, Zeros(128), c);
    assert Pad([]) == Times(false, Zeros(128)) && Times(false, Product(Zeros(128), c)) == Zeros(128);
  }

  lemma OneBit(bit: bool, c: Element)
    ensures Product(Last(bit), c) == Times(bit, c)
  {
    hide Product;
    assert Last(bit) == Times(bit, Last(true));
    BitLeft(bit, Last(true), c);
    NothingToReduce(0, c);
    assert Pad(c) == c;
  }

  lemma Commutative(a: Element, b: Element)
    ensures Product(a, b) == Product(b, a)
  {
    PrefixCommutes(a, b);
    assert Pad(a) == a;
  }

  lemma RightLinear(a: Element, b: Element, c: Element, bit: bool)
    ensures Product(a, Xor(b, c)) == Xor(Product(a, b), Product(a, c))
    ensures Product(a, X(b)) == X(Product(a, b)) && Product(a, Times(bit, b)) == Times(bit, Product(a, b))
    ensures Product(a, Last(true)) == a == Product(Last(true), a)
  {
    hide Xor, X, Times, Product;
    Commutative(a, Xor(b, c));
    Commutative(a, b);
    Commutative(a, c);
    Commutative(a, X(b));
    Commutative(a, Times(bit, b));
    Commutative(a, Last(true));
    AddLeft(b, c, a);
    XLeft(b, a);
    BitLeft(bit, b, a);
    NothingToReduce(0, a);
    assert Pad(a) == a;
  }

  lemma {:induction false} Associative(a: Element, b: Element, c: Bits)
    ensures Product(Product(a, b), c) == Product(a, Product(b, c))
  {
    hide Xor, X, Times, Zeros;
    if c == [] { RightLinear(a, a, a, false); assert Times(false, a) == Zeros(128); }
    else {
      var p, t := c[..|c| - 1], c[|c| - 1];
      Associative(a, b, p);
      RightLinear(a, X(Product(b, p)), Times(t, b), false);
      RightLinear(a, Product(b, p), b, false);
      RightLinear(a, b, b, t);
    }
  }

  // ----- the product is the product of polynomials, reduced -----

  lemma {:induction false} RemainderAdd(s: Bits, t: Bits)
    requires |s| == |t|
    ensures Remainder(Xor(s, t)) == Xor(Remainder(s), Remainder(t))
  {
    hide Xor, X, Last, Zeros;
    if s == [] { XorSelf(Zeros(128)); assert Xor(s, t) == []; }
    else {
      var n := |s| - 1;
      RemainderAdd(s[..n], t[..n]);
      assert Xor(s, t)[..n] == Xor(s[..n], t[..n]);
      XAdd(Remainder(s[..n]), Remainder(t[..n]), false);
      assert Last(s[n] != t[n]) == Xor(Last(s[n]), Last(t[n]));
      XorSwap(X(Remainder(s[..n])), X(Remainder(t[..n])), Last(s[n]), Last(t[n]));
    }
  }

  /** Horner's rule in the field computes the remainder of the product of the two polynomials. */
  lemma {:induction false} ProductIsRemainder(a: Element, b: Bits)
    ensures Product(a, b) == Remainder(Carryless(a, b))
  {
    hide Xor, X, Last, Times, Remainder;
    if b == [] { NothingToReduce(127, []); assert Zeros(127) + [] == Zeros(127); assert Pad([]) == Zeros(128); }
    else {
      hide Product, Carryless;
      var n := |b| - 1;
      var p := b[..n];
      assert b == p + [b[n]];
      ProductIsRemainder(a, p);
      Unfold(a, p, b[n]);
      var c := Carryless(a, p);
      RemainderAdd(c + [false], Zeros(n) + Times(b[n], a));
      Unfold([true], c, false);
      assert Last(false) == Zeros(128);
      XorSelf(X(Remainder(c)));
      NothingToReduce(n, Times(b[n], a));
      assert Pad(Times(b[n], a)) == Times(b[n], a);
    }
  }
}
