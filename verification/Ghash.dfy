/** gcm.c's ghash and the closed form of section 6.4 of NIST SP 800-38D. */
module Ghash {
  import opened Gf2Polynomials
  import opened Gf128
  import opened Bytes

  /** gf128_from_bytes: no bits are reflected. */
  function FromBytes(p: seq<byte>): (g: gf128)
    requires |p| == 16
    ensures Poly(g) == ToBits(p)
  {
    BitsAppend(p[..8], p[8..]);
    assert p[..8] + p[8..] == p;
    Gf128(ToBits(p[..8]), ToBits(p[8..]))
  }

  // ----- the sum -----

  function ZeroBytes(n: nat): (z: seq<byte>)
    ensures |z| == n && forall k :: 0 <= k < n ==> z[k] == Zeros(8)
  {
    seq(n, _ => Zeros(8))
  }

  /** The 16-byte blocks of s, the last one filled up with zeros. */
  function Blocks(s: seq<byte>): (r: seq<Element>) {
    if s == [] then []
    else if |s| < 16 then [ToBits(s + ZeroBytes(16 - |s|))]
    else [ToBits(s[..16])] + Blocks(s[16..])
  }

  /** The last block: the two lengths in bits, as uint64_t. */
  function LengthBlock(aadlen: nat, clen: nat): Element {
    ToBits(PutU64(8 * aadlen) + PutU64(8 * clen))
  }

  function Power(h: Element, n: nat): Element {
    if n == 0 then Last(true) else Product(Power(h, n - 1), h)
  }

  /** The sum over all blocks of block i times H to the number of blocks from i on. */
  function Sum(blocks: seq<Element>, h: Element): Element {
    if blocks == [] then Zeros(128)
    else Xor(Product(blocks[0], Power(h, |blocks|)), Sum(blocks[1..], h))
  }

  function AllBlocks(aad: seq<byte>, c: seq<byte>): seq<Element> {
    Blocks(aad) + Blocks(c) + [LengthBlock(|aad|, |c|)]
  }

  function GhashOf(h: seq<byte>, aad: seq<byte>, c: seq<byte>): (r: seq<byte>)
    requires |h| == 16
    ensures |r| == 16
  {
    ToBytes(Sum(AllBlocks(aad, c), ToBits(h)))
  }

  /** X after the blocks have been absorbed, starting from x. */
  function Absorb(x: Element, blocks: seq<Element>, h: Element): Element {
    if blocks == [] then x else Product(Xor(Absorb(x, blocks[..|blocks| - 1], h), blocks[|blocks| - 1]), h)
  }

  lemma {:induction false} SumAppend(blocks: seq<Element>, b: Element, h: Element)
    ensures Sum(blocks + [b], h) == Product(Xor(Sum(blocks, h), b), h)
  {
    hide Product, Xor;
    if blocks == [] {
      assert blocks + [b] == [b] && [b][1..] == [];
      SumOne(b, h);
    } else {
      hide Zeros;
      assert (blocks + [b])[1..] == blocks[1..] + [b];
      SumAppend(blocks[1..], b, h);
      var first, rest := Product(blocks[0], Power(h, |blocks|)), Sum(blocks[1..], h);
      AddLeft(first, Xor(rest, b), h);
      Associative(blocks[0], Power(h, |blocks|), h);
      XorLaws(first, rest, b);
    }
  }

  lemma SumOne(b: Element, h: Element)
    ensures Sum([b], h) == Product(Xor(Zeros(128), b), h)
  {
    hide Product;
    assert [b][1..] == [];
    RightLinear(h, h, h, false);
    assert Power(h, 1) == Product(Power(h, 0), h) == h;
    XorSelf(Product(b, h));
    XorSelf(b);
  }

  lemma SumNone(h: Element)
    ensures Sum([], h) == Zeros(128)
  {
  }

  /** Block by block, the recursion of the standard gives the closed form. */
  lemma {:induction false} AbsorbIsSum(blocks: seq<Element>, h: Element)
    ensures Absorb(Zeros(128), blocks, h) == Sum(blocks, h)
  {
    hide Product, Xor, Zeros, Sum;
    if blocks == [] { SumNone(h); }
    else {
      var n := |blocks| - 1;
      AbsorbIsSum(blocks[..n], h);
      SumAppend(blocks[..n], blocks[n], h);
      assert blocks[..n] + [blocks[n]] == blocks;
    }
  }

  /** Zero padding: block i holds the bytes of s from 16 * i on, and zeros behind the end. */
  lemma {:induction false} BlocksAre(s: seq<byte>, i: nat, j: nat)
    requires 16 * i < |s| && j < 16
    ensures |Blocks(s)| == (|s| + 15) / 16 && i < |Blocks(s)|
    ensures ToBytes(Blocks(s)[i])[j] == if 16 * i + j < |s| then s[16 * i + j] else Zeros(8)
  {
    hide ToBits, ToBytes;
    if |s| < 16 { BytesOfBits(s + ZeroBytes(16 - |s|)); }
    else {
      BytesOfBits(s[..16]);
      if i != 0 { BlocksAre(s[16..], i - 1, j); }
      else if |s| > 16 { BlocksAre(s[16..], 0, 0); }
      else { assert s[16..] == []; }
    }
  }

  /** What is absorbed: the blocks of aad, those of c, and the numbers of their bits. */
  lemma AllBlocksAre(aad: seq<byte>, c: seq<byte>, i: nat, last: Element)
    requires last == AllBlocks(aad, c)[|Blocks(aad)| + |Blocks(c)|]
    ensures |AllBlocks(aad, c)| == |Blocks(aad)| + |Blocks(c)| + 1
    ensures i < |Blocks(aad)| + |Blocks(c)| ==>
      AllBlocks(aad, c)[i] == if i < |Blocks(aad)| then Blocks(aad)[i] else Blocks(c)[i - |Blocks(aad)|]
    ensures |aad| < 0x2000_0000_0000_0000 ==> Num(last[..64]) == 8 * |aad|
    ensures |c| < 0x2000_0000_0000_0000 ==> Num(last[64..]) == 8 * |c|
  {
    hide Num, Blocks, LengthBlock;
    LengthsAre(|aad|, |c|);
  }

  lemma LengthsAre(aadlen: nat, clen: nat)
    ensures aadlen < 0x2000_0000_0000_0000 ==> Num(LengthBlock(aadlen, clen)[..64]) == 8 * aadlen
    ensures clen < 0x2000_0000_0000_0000 ==> Num(LengthBlock(aadlen, clen)[64..]) == 8 * clen
  {
    hide Num, PutU64, ToBits;
    var p, q := PutU64(8 * aadlen), PutU64(8 * clen);
    BitsAppend(p, q);
    assert LengthBlock(aadlen, clen)[..64] == ToBits(p) && LengthBlock(aadlen, clen)[64..] == ToBits(q);
    if aadlen < 0x2000_0000_0000_0000 { PutU64Is(8 * aadlen); }
    if clen < 0x2000_0000_0000_0000 { PutU64Is(8 * clen); }
  }

  /** The recursion of the standard, from zero. */
  lemma GhashSteps(h: seq<byte>, aad: seq<byte>, c: seq<byte>, n: nat)
    requires |h| == 16 && n < |AllBlocks(aad, c)|
    ensures ToBits(GhashOf(h, aad, c)) == Absorb(Zeros(128), AllBlocks(aad, c), ToBits(h))
    ensures Absorb(Zeros(128), [], ToBits(h)) == Zeros(128)
    ensures Absorb(Zeros(128), AllBlocks(aad, c)[..n + 1], ToBits(h))
      == Product(Xor(Absorb(Zeros(128), AllBlocks(aad, c)[..n], ToBits(h)), AllBlocks(aad, c)[n]), ToBits(h))
  {
    hide Product, Xor, ToBits, ToBytes, Sum, AllBlocks;
    var b := AllBlocks(aad, c);
    AbsorbIsSum(b, ToBits(h));
    BitsOfBytes(Sum(b, ToBits(h)));
    assert b[..n + 1][..n] == b[..n];
  }

  // ----- the function -----

  /** The zero-padding branch uses `out` as scratch, which may be the array of the key h. */
  method AbsorbData(x: gf128, key: gf128, data: seq<byte>, out: array<byte>, ghost before: seq<Element>)
    returns (r: gf128)
    requires out.Length == 16 && Poly(x) == Sum(before, Poly(key))
    modifies out
    ensures Poly(r) == Sum(before + Blocks(data), Poly(key))
  {
    hide Sum, Product, Xor, ToBits;
    r := x;
    var pos := 0;
    ghost var done := before;
    while pos < |data|
      invariant pos <= |data| && done + Blocks(data[pos..]) == before + Blocks(data)
      invariant Poly(r) == Sum(done, Poly(key))
    {
      var block: gf128;
      if |data| - pos >= 16 {
        block := FromBytes(data[pos..pos + 16]);
        assert data[pos..][..16] == data[pos..pos + 16] && data[pos..][16..] == data[pos + 16..];
        pos := pos + 16;
      } else {
        forall k | 0 <= k < 16 { out[k] := if pos + k < |data| then data[pos + k] else Zeros(8); }
        assert out[..] == data[pos..] + ZeroBytes(16 - |data[pos..]|);
        block := FromBytes(out[..]);
        pos := |data|;
      }
      SumAppend(done, Poly(block), Poly(key));
      done := done + [Poly(block)];
      r := GfAdd(r, block);
      r := GfMul(r, key);
    }
    assert done + [] == done;
  }

  /** ghash; h and out may be one array. */
  method GhashInto(h: array<byte>, aad: seq<byte>, c: seq<byte>, out: array<byte>)
    requires h.Length == 16 && out.Length == 16
    modifies out
    ensures out[..] == GhashOf(old(h[..]), aad, c)
  {
    hide Product, Xor, ToBits, Blocks, ToBytes;
    var key := FromBytes(h[..]);
    var x := Gf128(Zeros(64), Zeros(64));
    var lengths := PutU64(8 * |aad|) + PutU64(8 * |c|);
    forall k | 0 <= k < 16 { out[k] := lengths[k]; }
    assert out[..] == lengths;
    var l := FromBytes(out[..]);
    x := AbsorbData(x, key, aad, out, []);
    assert [] + Blocks(aad) == Blocks(aad);
    x := AbsorbData(x, key, c, out, Blocks(aad));
    SumAppend(Blocks(aad) + Blocks(c), Poly(l), Poly(key));
    x := GfAdd(x, l);
    x := GfMul(x, key);
    var bytes := ToBytes(Poly(x));
    forall k | 0 <= k < 16 { out[k] := bytes[k]; }
    assert out[..] == bytes;
  }
}
