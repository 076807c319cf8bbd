/** uint8_t and other unsigned integers as rows of bits. */
module Bytes {
  import opened Gf2Polynomials
  import Positional

  /** uint8_t, the most significant bit first. */
  type byte = b: Bits | |b| == 8 witness Zeros(8)

  /** The number a row of bits stands for. */
  function Num(b: Bits): nat {
    if b == [] then 0 else 2 * Num(b[..|b| - 1]) + if b[|b| - 1] then 1 else 0
  }

  /** Conversion to an unsigned integer of the given width: modulo 2 to the width. */
  function OfNum(n: nat, width: nat): (b: Bits)
    ensures |b| == width
  {
    if width == 0 then [] else OfNum(n / 2, width - 1) + [n % 2 == 1]
  }

  lemma {:induction false} NumOfBits(b: Bits)
    ensures OfNum(Num(b), |b|) == b && Num(b) < Positional.Pow(2, |b|)
  {
    if b != [] {
      NumOfBits(b[..|b| - 1]);
      var bit := if b[|b| - 1] then 1 else 0;
      assert Num(b) / 2 == Num(b[..|b| - 1]) && Num(b) % 2 == bit;
    }
  }

  lemma LowBit(n: nat, m: nat)
    requires 1 <= m
    ensures n % (2 * m) == 2 * (n / 2 % m) + n % 2
  {
    var h := n / 2;
    var q, r := h / m, h % m;
    assert h == q * m + r;
    assert n == q * (2 * m) + (2 * r + n % 2);
    Positional.DivMod(2 * m, q, 2 * r + n % 2);
  }

  lemma {:induction false} BitsOfNum(n: nat, width: nat)
    ensures Num(OfNum(n, width)) == n % Positional.Pow(2, width)
  {
    if width != 0 {
      BitsOfNum(n / 2, width - 1);
      assert OfNum(n, width)[..width - 1] == OfNum(n / 2, width - 1);
      LowBit(n, Positional.Pow(2, width - 1));
    }
  }

  lemma XorCancels(a: Bits, b: Bits)
    requires |a| == |b|
    ensures Xor(Xor(a, b), b) == a && Xor(b, Xor(b, a)) == a
  {
  }

  // ----- rows of bytes -----

  /** Big-endian: the first byte holds the most significant bits. */
  function ToBits(p: seq<byte>): (r: Bits)
    ensures |r| == 8 * |p|
  {
    if p == [] then [] else p[0] + ToBits(p[1..])
  }

  function ToBytes(r: Bits): (p: seq<byte>)
    requires |r| % 8 == 0
    ensures 8 * |p| == |r|
  {
    if r == [] then [] else [r[..8]] + ToBytes(r[8..])
  }

  lemma {:induction false} BitsOfBytes(r: Bits)
    requires |r| % 8 == 0
    ensures ToBits(ToBytes(r)) == r
  {
    if r != [] {
      BitsOfBytes(r[8..]);
      assert ToBytes(r)[1..] == ToBytes(r[8..]);
    }
  }

  lemma {:induction false} BytesOfBits(p: seq<byte>)
    ensures ToBytes(ToBits(p)) == p
  {
    if p != [] {
      BytesOfBits(p[1..]);
      assert ToBits(p)[..8] == p[0] && ToBits(p)[8..] == ToBits(p[1..]);
    }
  }

  lemma {:induction false} BitsAppend(p: seq<byte>, q: seq<byte>)
    ensures ToBits(p + q) == ToBits(p) + ToBits(q)
  {
    if p == [] { assert p + q == q; }
    else {
      hide ToBits;
      BitsAppend(p[1..], q);
      ConsBits(p[0], p[1..]);
      ConsBits(p[0], p[1..] + q);
      assert p == [p[0]] + p[1..] && p + q == [p[0]] + (p[1..] + q);
      assert p[0] + (ToBits(p[1..]) + ToBits(q)) == p[0] + ToBits(p[1..]) + ToBits(q);
    }
  }

  lemma ConsBits(b: byte, p: seq<byte>)
    ensures ToBits([b] + p) == b + ToBits(p)
  {
    assert ([b] + p)[1..] == p;
  }

  /** The eight bytes of a number converted to uint64_t, most significant first. */
  function PutU64(n: nat): (p: seq<byte>)
    ensures |p| == 8
  {
    ToBytes(OfNum(n, 64))
  }

  /** The high bits and the low bits of a number. */
  lemma {:induction false} OfNumSplit(n: nat, q: nat, high: nat, low: nat)
    requires n / Positional.Pow(2, low) == q
    ensures OfNum(n, high + low) == OfNum(q, high) + OfNum(n, low)
    decreases low
  {
    if low == 0 { assert n / 1 == n; }
    else {
      DivTwice(n, Positional.Pow(2, low - 1));
      OfNumSplit(n / 2, q, high, low - 1);
    }
  }

  lemma DivTwice(n: nat, m: nat)
    requires 1 <= m
    ensures n / 2 / m == n / (2 * m)
  {
    var q, r := n / 2 / m, n / 2 % m;
    assert n / 2 == q * m + r;
    assert n == q * (2 * m) + (2 * r + n % 2);
    Positional.DivMod(2 * m, q, 2 * r + n % 2);
  }

  lemma {:induction false} BytesAppend(r: Bits, s: Bits)
    requires |r| % 8 == 0 && |s| % 8 == 0
    ensures ToBytes(r + s) == ToBytes(r) + ToBytes(s)
  {
    if r == [] { assert r + s == s; }
    else {
      BytesAppend(r[8..], s);
      assert (r + s)[..8] == r[..8] && (r + s)[8..] == r[8..] + s;
      assert [r[..8]] + (ToBytes(r[8..]) + ToBytes(s)) == [r[..8]] + ToBytes(r[8..]) + ToBytes(s);
    }
  }

  /** The bits of a number by its binary digits. */
  lemma {:induction false} OfNumBit(n: nat, width: nat, k: nat)
    requires k < width
    ensures OfNum(n, width)[k] == (n / Positional.Pow(2, width - 1 - k) % 2 == 1)
  {
    if k == width - 1 {
      assert n / 1 == n;
    } else {
      OfNumBit(n / 2, width - 1, k);
      DivTwice(n, Positional.Pow(2, width - 2 - k));
    }
  }

  lemma OneIs()
    ensures OfNum(1, 8) == [false, false, false, false, false, false, false, true]
  {
  }

  lemma TwoTo64()
    ensures Positional.Pow(2, 64) == 0x1_0000_0000_0000_0000 && Positional.Pow(2, 32) == 0x1_0000_0000
  {
    assert Positional.Pow(2, 8) == 0x100;
    hide Positional.Pow;
    Positional.PowAdd(2, 8, 8);
    Positional.PowAdd(2, 16, 16);
    Positional.PowAdd(2, 32, 32);
  }

  lemma PutU64Is(n: nat)
    requires n < 0x1_0000_0000_0000_0000
    ensures Num(ToBits(PutU64(n))) == n
  {
    hide OfNum, Num, Positional.Pow;
    BitsOfBytes(OfNum(n, 64));
    BitsOfNum(n, 64);
    TwoTo64();
  }

  /** The bits of a row of bytes are those of the bytes in order. */
  lemma {:induction false} ToBitsAt(p: seq<byte>, i: nat, j: nat)
    requires i < |p| && j < 8
    ensures ToBits(p)[8 * i + j] == p[i][j]
  {
    if i != 0 { ToBitsAt(p[1..], i - 1, j); }
  }

  /** What a number is: its highest bit counts for the power of two of the bits behind it. */
  lemma {:induction false} NumIs(b: Bits)
    ensures Num(b) == if b == [] then 0 else Num(b[1..]) + if b[0] then Positional.Pow(2, |b| - 1) else 0
  {
    if |b| > 1 {
      NumIs(b[..|b| - 1]);
      assert b[..|b| - 1][1..] == b[1..][..|b| - 2];
    }
  }
}
