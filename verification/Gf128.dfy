module Gf128 {
  import opened Gf2Polynomials

  /** uint64_t as a row of bits, the most significant one first. */
  type word = w: Bits | |w| == 64 witness Zeros(64)

  /** gf128_t */
  datatype gf128 = Gf128(hi: word, lo: word)

  function ShiftLeft(w: word): word { w[1..] + [false] }

  /** w >> 63 */
  function TopDown(w: word): word { Zeros(63) + [w[0]] }

  function Or(v: word, w: word): word { seq(64, k requires 0 <= k < 64 => v[k] || w[k]) }

  /** 0x87 */
  function Reduction(): word { Zeros(56) + [true, false, false, false, false, true, true, true] }

  /** The polynomial whose coefficients are the bits of the two words. */
  function Poly(g: gf128): (p: Element) { g.hi + g.lo }

  /** gf128_add */
  function GfAdd(a: gf128, b: gf128): (r: gf128)
    ensures Poly(r) == Xor(Poly(a), Poly(b))
  {
    Gf128(Xor(a.hi, b.hi), Xor(a.lo, b.lo))
  }

  /** gf128_mul2 */
  function GfMul2(a: gf128): (r: gf128)
    ensures Poly(r) == X(Poly(a))
  {
    var r := Gf128(Or(ShiftLeft(a.hi), TopDown(a.lo)), ShiftLeft(a.lo));
    if a.hi[0] then r.(lo := Xor(r.lo, Reduction())) else r
  }

  /** The bits of b that i rounds have left in place. */
  ghost predicate Consumed(b: word, was: word, i: nat) {
    i <= 64 && forall k :: 0 <= k < 64 - i ==> b[k] == was[k + i]
  }

  lemma EmptyProduct(a: Element, b: Bits)
    ensures Product(a, b[..0]) == Zeros(64) + Zeros(64)
  {
  }

  lemma NextBit(a: Element, p: Bits, bit: bool)
    ensures Product(a, p + [bit]) == if bit then Xor(X(Product(a, p)), a) else X(Product(a, p))
  {
    hide X, Xor, Product;
    Unfold(a, p, bit);
    XorSelf(X(Product(a, p)));
    assert Times(false, a) == Zeros(128);
  }

  lemma StartConsuming(b: word)
    ensures Consumed(b, b, 0)
  {
  }

  lemma Consume(b: word, was: word, i: nat)
    requires Consumed(b, was, i) && i < 64
    ensures b[0] == was[i] && Consumed(ShiftLeft(b), was, i + 1)
  {
  }

  /** gf128_mul: Horner's rule over the bits of b, first those of the high word. */
  method GfMul(a: gf128, b: gf128) returns (r: gf128)
    ensures Poly(r) == Product(Poly(a), Poly(b))
  {
    hide X, Product, Xor, Consumed, GfMul2, GfAdd, ShiftLeft, Zeros, Low;
    StartConsuming(b.hi);
    StartConsuming(b.lo);
    r := Gf128(Zeros(64), Zeros(64));
    var hi, lo := b.hi, b.lo;
    EmptyProduct(Poly(a), b.hi);
    for i := 0 to 64
      invariant Consumed(hi, b.hi, i) && Poly(r) == Product(Poly(a), b.hi[..i])
    {
      Consume(hi, b.hi, i);
      NextBit(Poly(a), b.hi[..i], b.hi[i]);
      assert b.hi[..i + 1] == b.hi[..i] + [b.hi[i]];
      r := GfMul2(r);
      if hi[0] {
        r := GfAdd(r, a);
      }
      hi := ShiftLeft(hi);
    }
    assert b.hi[..64] == b.hi + b.lo[..0];
    for i := 0 to 64
      invariant Consumed(lo, b.lo, i) && Poly(r) == Product(Poly(a), b.hi + b.lo[..i])
    {
      Consume(lo, b.lo, i);
      NextBit(Poly(a), b.hi + b.lo[..i], b.lo[i]);
      assert b.hi + b.lo[..i + 1] == b.hi + b.lo[..i] + [b.lo[i]];
      r := GfMul2(r);
      if lo[0] {
        r := GfAdd(r, a);
      }
      lo := ShiftLeft(lo);
    }
    assert b.hi + b.lo[..64] == Poly(b);
  }
}
