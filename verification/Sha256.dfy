/** The streaming interface of sha256.c and the digest of section 6.2 of FIPS 180-4. */
module Sha256 {
  import opened Bytes
  import opened Gf2Polynomials
  import opened Sha256Compression

  function PutU32(n: nat): (p: seq<byte>)
    ensures |p| == 4
  {
    ToBytes(OfNum(n, 32))
  }

  /** The number of zero bytes between the byte 0x80 and the length. */
  function Gap(len: nat): nat { (119 - len % 64) % 64 }

  /** The number of blocks of the padded message. */
  function PaddedBlocks(len: nat): nat { (len + 9 + Gap(len)) / 64 }

  /** The padded message: the bit 1, the fewest zero bits that work, and the length in bits. */
  function Padding(m: seq<byte>): (r: seq<byte>)
    ensures |r| == 64 * PaddedBlocks(|m|)
  {
    GapIsSmallest(|m|, Gap(|m|));
    m + [OfNum(0x80, 8)] + seq(Gap(|m|), _ => Zeros(8)) + PutU64(8 * |m|)
  }

  function Serialize(s: seq<word32>): (d: seq<byte>)
    ensures |d| == 4 * |s|
  {
    if s == [] then [] else Serialize(s[..|s| - 1]) + ToBytes(s[|s| - 1])
  }

  function Digest(init: State, m: seq<byte>): (d: seq<byte>)
    ensures |d| == 32
  {
    Serialize(Fold(init, Padding(m), PaddedBlocks(|m|)))
  }

  function Initial256Table(i: nat): nat {
    match i
    case 0 => 0x6a09e667 case 1 => 0xbb67ae85 case 2 => 0x3c6ef372 case 3 => 0xa54ff53a
    case 4 => 0x510e527f case 5 => 0x9b05688c case 6 => 0x1f83d9ab case _ => 0x5be0cd19
  }

  function Initial256(): State { seq(8, i requires 0 <= i => OfNum(Initial256Table(i), 32)) }

  function Initial224Table(i: nat): nat {
    match i
    case 0 => 0xc1059ed8 case 1 => 0x367cd507 case 2 => 0x3070dd17 case 3 => 0xf70e5939
    case 4 => 0xffc00b31 case 5 => 0x68581511 case 6 => 0x64f98fa7 case _ => 0xbefa4fa4
  }

  function Initial224(): State { seq(8, i requires 0 <= i => OfNum(Initial224Table(i), 32)) }

  /** Section 5.1.1 of FIPS 180-4: no smaller number of zeros gives whole blocks. */
  lemma GapIsSmallest(len: nat, zeros: nat)
    requires (len + 1 + zeros + 8) % 64 == 0 || zeros == Gap(len)
    ensures Gap(len) <= zeros && (len + 1 + Gap(len) + 8) % 64 == 0
  {
  }

  /** Different messages are padded differently, up to the greatest length the standard allows. */
  lemma PadIsInjective(m: seq<byte>, n: seq<byte>)
    requires Padding(m) == Padding(n) && 8 * |m| < 0x1_0000_0000_0000_0000 && 8 * |n| < 0x1_0000_0000_0000_0000
    ensures m == n
  {
    hide OfNum, PutU64, Gap, PaddedBlocks;
    var r := Padding(m);
    assert r[|r| - 8..] == PutU64(8 * |m|) && r[|r| - 8..] == PutU64(8 * |n|);
    PutU64Is(8 * |m|);
    PutU64Is(8 * |n|);
    assert r[..|m|] == m && r[..|n|] == n;
  }

  /** A number of 64 bits is two numbers of 32 bits, the high one first. */
  lemma PutHalves(n: nat)
    ensures PutU64(n) == PutU32(n / 0x1_0000_0000) + PutU32(n)
  {
    hide OfNum;
    TwoTo64();
    OfNumSplit(n, n / 0x1_0000_0000, 32, 32);
    BytesAppend(OfNum(n / 0x1_0000_0000, 32), OfNum(n, 32));
  }

  /** The two words that sha256_finish stores are the length in bits as long as nblocks has not wrapped around. */
  lemma LengthWords(len: nat)
    requires len < 0x2000_0000_0000_0000
    ensures var nblocks, num := len / 64, len % 64;
      && nblocks < 0x1_0000_0000_0000_0000
      && PutU64(8 * len) == PutU32(nblocks / 0x80_0000) + PutU32(nblocks * 512 + 8 * num)
  {
    PutHalves(8 * len);
    assert 8 * len / 0x1_0000_0000 == len / 64 / 0x80_0000;
  }

  /** The bytes behind the whole blocks of m, and the bit 1. */
  function Marked(m: seq<byte>): (r: seq<byte>)
    ensures |r| == |m| % 64 + 1
  {
    m[|m| - |m| % 64..] + [OfNum(0x80, 8)]
  }

  /** The last block or the last two blocks of the padded message. */
  lemma PaddedTail(m: seq<byte>)
    ensures Padding(m)[..|m|] == m
    ensures var r, n, num := Padding(m), |m| / 64, |m| % 64;
      if num <= 55 then
        && PaddedBlocks(|m|) == n + 1
        && r[64 * n..64 * (n + 1)] == Marked(m) + seq(55 - num, _ => Zeros(8)) + PutU64(8 * |m|)
      else
        && PaddedBlocks(|m|) == n + 2
        && r[64 * n..64 * (n + 1)] == Marked(m) + seq(63 - num, _ => Zeros(8))
        && r[64 * (n + 1)..64 * (n + 2)] == seq(56, _ => Zeros(8)) + PutU64(8 * |m|)
  {
    hide OfNum, PutU64;
    var r, n, num := Padding(m), |m| / 64, |m| % 64;
    assert r[64 * n..] == Marked(m) + seq(Gap(|m|), _ => Zeros(8)) + PutU64(8 * |m|);
    if num <= 55 {
      assert Gap(|m|) == 55 - num && r[64 * n..64 * (n + 1)] == r[64 * n..];
    } else {
      assert Gap(|m|) == 119 - num;
      assert r[64 * n..64 * (n + 1)] == r[64 * n..][..64] && r[64 * (n + 1)..64 * (n + 2)] == r[64 * n..][64..];
    }
  }

  lemma NoWrap(len: nat)
    requires len < 0x2000_0000_0000_0000
    ensures len / 64 % 0x1_0000_0000_0000_0000 == len / 64
  {
    assert len / 64 < 0x1_0000_0000_0000_0000;
  }

  /** The state once the last block, ending with the two words of the length, is compressed. */
  lemma LastBlockIs(init: State, m: seq<byte>, n: nat, front: seq<byte>, high: nat, low: nat)
    requires var nblocks := |m| / 64 % 0x1_0000_0000_0000_0000;
      high == nblocks / 0x80_0000 && low == nblocks * 512 + 8 * (|m| % 64)
    requires n + 1 == PaddedBlocks(|m|) && Padding(m)[64 * n..64 * (n + 1)] == front + PutU64(8 * |m|) && |front| == 56
    ensures |m| < 0x2000_0000_0000_0000 ==>
      Fold(Fold(init, Padding(m), n), front + (PutU32(high) + PutU32(low)), 1) == Fold(init, Padding(m),
        PaddedBlocks(|m|))
  {
    hide Fold, Padding, PaddedBlocks, PutU32, PutU64, Gap;
    if |m| < 0x2000_0000_0000_0000 {
      NoWrap(|m|);
      LengthWords(|m|);
      FoldMore(init, Padding(m), n, 1);
    }
  }

  lemma Recount(n: nat, blocks: nat, len: nat, rest: nat)
    requires len == 64 * n + 64 * blocks + rest && rest < 64
    ensures len / 64 == n + blocks && len % 64 == rest
  {
  }

  lemma Counting(len: nat, more: nat)
    ensures len % 64 + more < 64 ==> (len + more) / 64 == len / 64 && (len + more) % 64 == len % 64 + more
    ensures (len % 0x1_0000_0000_0000_0000 + more) % 0x1_0000_0000_0000_0000 == (len + more) % 0x1_0000_0000_0000_0000
  {
  }

  /** memcpy */
  method MemCpy(target: array<byte>, to: nat, source: array<byte>, at: nat, len: nat)
    requires to + len <= target.Length && at + len <= source.Length && target != source
    modifies target
    ensures target[..] == old(target[..to]) + source[at..at + len] + old(target[to + len..])
  {
    forall k | 0 <= k < len { target[to + k] := source[at + k]; }
  }

  /** memset to zero */
  method MemZero(target: array<byte>, to: nat, len: nat)
    requires to + len <= target.Length
    modifies target
    ensures target[..] == old(target[..to]) + seq(len, _ => Zeros(8)) + old(target[to + len..])
  {
    forall k | 0 <= k < len { target[to + k] := Zeros(8); }
  }

  /** PUTU32 */
  method Put(target: array<byte>, to: nat, n: nat)
    requires to + 4 <= target.Length
    modifies target
    ensures target[..] == old(target[..to]) + PutU32(n) + old(target[to + 4..])
  {
    var p := PutU32(n);
    forall k | 0 <= k < 4 { target[to + k] := p[k]; }
  }

  /** SHA256_CTX */
  class Sha256Ctx {
    var state: array<word32>
    var nblocks: nat
    var block: array<byte>
    var num: nat

    constructor ()
      ensures fresh(state) && fresh(block) && Valid()
    {
      state := new word32[8](_ => Zeros(32));
      block := new byte[64](_ => Zeros(8));
      nblocks, num := 0, 0;
    }

    ghost predicate Valid()
      reads this
    {
      state.Length == 8 && block.Length == 64
    }

    /** The context after init and updates that brought the bytes m. */
    ghost predicate Holds(init: State, m: seq<byte>)
      reads this, state, block
    {
      && Valid()
      && num == |m| % 64
      && nblocks == |m| / 64 % 0x1_0000_0000_0000_0000
      && block[..num] == m[|m| - num..]
      && state[..] == Fold(init, m, |m| / 64)
    }

    /** sha256_init; sha224_init differs only in the initial state. */
    method Init(init: State)
      requires Valid()
      modifies this`nblocks, this`num, state, block
      ensures Holds(init, [])
    {
      forall k | 0 <= k < 64 { block[k] := Zeros(8); }
      nblocks, num := 0, 0;
      forall i | 0 <= i < 8 { state[i] := init[i]; }
      assert state[..] == init;
    }

    /** The block that is being filled is compressed once the data completes it. */
    method FillBlock(data: array<byte>, left: nat, ghost init: State, ghost m: seq<byte>)
      requires Holds(init, m) && data != block && num + left == 64 && left <= data.Length
      modifies this`nblocks, state, block
      ensures Valid() && nblocks == (|m| / 64 + 1) % 0x1_0000_0000_0000_0000
      ensures state[..] == Fold(init, m + data[..], |m| / 64 + 1)
    {
      hide Compress, Fold;
      ghost var all, n := m + data[..], |m| / 64;
      FoldPrefix(init, m, all, n);
      MemCpy(block, num, data, 0, left);
      assert block[0..0 + 64 * 1] == all[64 * n..64 * (n + 1)];
      CompressBlocks(state, block, 0, 1);
      FoldMore(init, all, n, 1);
      nblocks := (nblocks + 1) % 0x1_0000_0000_0000_0000;
    }

    /** The whole blocks of data from `at` on are compressed, and the rest is kept. */
    method WholeBlocks(data: array<byte>, at: nat, ghost init: State, ghost all: seq<byte>, ghost n: nat)
      requires Valid() && data != block && at <= data.Length
      requires nblocks == n % 0x1_0000_0000_0000_0000 && 64 * n <= |all| && all[64 * n..] == data[at..]
      requires state[..] == Fold(init, all, n)
      modifies this`nblocks, this`num, state, block
      ensures Holds(init, all)
    {
      hide Compress, Fold;
      var datalen := data.Length - at;
      var blocks := datalen / 64;
      Counting(n, blocks);
      SameTail(data[..], at, all, 64 * n, 64 * blocks);
      assert 64 * n + 64 * blocks == 64 * (n + blocks);
      CompressBlocks(state, data, at, blocks);
      FoldMore(init, all, n, blocks);
      nblocks := (nblocks + blocks) % 0x1_0000_0000_0000_0000;
      var rest := at + 64 * blocks;
      datalen := datalen - 64 * blocks;
      assert datalen < 64;
      num := datalen;
      if datalen != 0 {
        MemCpy(block, 0, data, rest, datalen);
      }
      assert data[rest..rest + datalen] == data[..][rest..];
      Recount(n, blocks, |all|, datalen);
    }

    static lemma SameTail(data: seq<byte>, at: nat, all: seq<byte>, from: nat, k: nat)
      requires at + k <= |data| && from <= |all| && all[from..] == data[at..]
      ensures from + k <= |all| && |all| - from == |data| - at
      ensures data[at..at + k] == all[from..from + k] && data[at + k..] == all[from + k..]
    {
      assert data[at..][..k] == all[from..][..k] && data[at..][k..] == all[from..][k..];
    }

    /** Data that does not complete the block is only copied. */
    method KeepAll(data: array<byte>, ghost init: State, ghost m: seq<byte>)
      requires Holds(init, m) && data != block && num + data.Length < 64
      modifies this`num, block
      ensures Holds(init, m + data[..])
    {
      hide Compress, Fold;
      Counting(|m|, data.Length);
      FoldPrefix(init, m, m + data[..], |m| / 64);
      MemCpy(block, num, data, 0, data.Length);
      num := num + data.Length;
      assert block[..num] == (m + data[..])[|m + data[..]| - num..];
    }

    /** sha256_update */
    method Update(data: array<byte>, ghost init: State, ghost m: seq<byte>)
      requires Holds(init, m) && data != block
      modifies this`nblocks, this`num, state, block
      ensures Holds(init, m + data[..])
    {
      hide Compress, Fold;
      num := num % 64;
      ghost var all, n := m + data[..], |m| / 64;
      FoldPrefix(init, m, all, n);
      if num != 0 {
        var left := 64 - num;
        if data.Length < left {
          KeepAll(data, init, m);
        } else {
          FillBlock(data, left, init, m);
          WholeBlocks(data, left, init, all, n + 1);
        }
      } else {
        WholeBlocks(data, 0, init, all, n);
      }
    }

    /** sha256_finish up to the length: bit 1 and zeros, which may take the rest of a block. */
    method FinishBits(ghost init: State, ghost m: seq<byte>) returns (ghost n: nat)
      requires Holds(init, m)
      modifies this`num, state, block
      ensures Valid() && num == |m| % 64
      ensures n + 1 == PaddedBlocks(|m|) && state[..] == Fold(init, Padding(m), n)
      ensures Padding(m)[64 * n..64 * (n + 1)] == block[..56] + PutU64(8 * |m|)
    {
      hide Compress, Fold, OfNum, PutU64, Gap, PaddedBlocks, Padding;
      num := num % 64;
      n := |m| / 64;
      ghost var r := Padding(m);
      PaddedTail(m);
      FoldPrefix(init, m, r, n);
      block[num] := OfNum(0x80, 8);
      assert block[..num + 1] == Marked(m);
      if num <= 64 - 9 {
        MemZero(block, num + 1, 64 - num - 9);
        assert block[..56] == Marked(m) + seq(55 - num, _ => Zeros(8));
      } else {
        FinishBlock(m);
        FoldMore(init, r, n, 1);
        n := n + 1;
      }
    }

    /** The block has no room for the length: it is filled with zeros and compressed, and the next one started. */
    method FinishBlock(ghost m: seq<byte>)
      requires Valid() && num < 64 && block[..num + 1] == Marked(m)
      modifies state, block
      ensures Valid() && block[..56] == seq(56, _ => Zeros(8))
      ensures state[..] == Fold(old(state[..]), Marked(m) + seq(63 - num, _ => Zeros(8)), 1)
    {
      hide Compress, Fold, OfNum, Marked;
      MemZero(block, num + 1, 64 - num - 1);
      assert block[0..0 + 64 * 1] == Marked(m) + seq(63 - num, _ => Zeros(8));
      CompressBlocks(state, block, 0, 1);
      MemZero(block, 0, 56);
      assert block[..56] == seq(56, _ => Zeros(8));
    }

    /** The length in bits, as two words at the end of the block. */
    method StoreLength(high: nat, low: nat)
      requires Valid()
      modifies block
      ensures block[0..0 + 64 * 1] == old(block[..56]) + (PutU32(high) + PutU32(low))
    {
      hide PutU32;
      ghost var front := block[..56];
      Put(block, 56, high);
      assert block[..60] == front + PutU32(high);
      Put(block, 60, low);
    }

    /** sha256_finish up to the last block. */
    method FinishBlocks(ghost init: State, ghost m: seq<byte>)
      requires Holds(init, m)
      modifies this`num, state, block
      ensures |m| < 0x2000_0000_0000_0000 ==> state[..] == Fold(init, Padding(m), PaddedBlocks(|m|))
    {
      hide Compress, Fold, PutU32, PutU64, PaddedBlocks, Padding, Gap;
      ghost var n := FinishBits(init, m);
      ghost var front, high, low := block[..56], nblocks / 0x80_0000, nblocks * 512 + 8 * num;
      StoreLength(nblocks / 0x80_0000, nblocks * 512 + 8 * num);
      assert block[0..0 + 64 * 1] == front + (PutU32(high) + PutU32(low));
      CompressBlocks(state, block, 0, 1);
      LastBlockIs(init, m, n, front, high, low);
    }

    /** sha256_finish; the context is cleared afterwards. */
    method Finish(ghost init: State, ghost m: seq<byte>) returns (dgst: seq<byte>)
      requires Holds(init, m)
      modifies this`nblocks, this`num, state, block
      ensures |dgst| == 32 && (|m| < 0x2000_0000_0000_0000 ==> dgst == Digest(init, m))
      ensures Valid()
    {
      hide Fold, PaddedBlocks, Padding;
      FinishBlocks(init, m);
      dgst := [];
      ghost var s: State := state[..];
      for i := 0 to 8
        invariant state[..] == s && dgst == Serialize(state[..i])
      {
        assert state[..i + 1][..i] == state[..i];
        dgst := dgst + ToBytes(state[i]);
      }
      assert state[..8] == state[..];
      forall i | 0 <= i < 8 { state[i] := Zeros(32); }
      forall k | 0 <= k < 64 { block[k] := Zeros(8); }
      nblocks, num := 0, 0;
    }
  }

  /** The concatenation of the pieces. */
  function Concat(pieces: seq<seq<byte>>): seq<byte> {
    if pieces == [] then [] else Concat(pieces[..|pieces| - 1]) + pieces[|pieces| - 1]
  }

  /** However a message is cut into updates, the digest is the one of the whole message. */
  method DigestOfPieces(init: State, pieces: seq<array<byte>>, ghost texts: seq<seq<byte>>) returns (dgst: seq<byte>)
    requires |texts| == |pieces| && forall i :: 0 <= i < |pieces| ==> pieces[i][..] == texts[i]
    ensures |Concat(texts)| < 0x2000_0000_0000_0000 ==> dgst == Digest(init, Concat(texts))
  {
    hide Digest, Sha256Ctx.Holds;
    var ctx := new Sha256Ctx();
    ctx.Init(init);
    for i := 0 to |pieces|
      invariant ctx.Holds(init, Concat(texts[..i])) && fresh(ctx.state) && fresh(ctx.block)
      invariant forall j :: 0 <= j < |pieces| ==> pieces[j][..] == texts[j]
    {
      assert texts[..i + 1][..i] == texts[..i];
      ctx.Update(pieces[i], init, Concat(texts[..i]));
    }
    assert texts[..|pieces|] == texts;
    dgst := ctx.Finish(init, Concat(texts));
  }

  /** sha256_digest: one update with all the data. */
  method Sha256Digest(data: array<byte>) returns (dgst: seq<byte>)
    ensures data.Length < 0x2000_0000_0000_0000 ==> dgst == Digest(Initial256(), data[..])
  {
    hide Digest, Initial256;
    var ctx := new Sha256Ctx();
    ctx.Init(Initial256());
    ctx.Update(data, Initial256(), []);
    assert [] + data[..] == data[..];
    dgst := ctx.Finish(Initial256(), data[..]);
  }

  /** sha224_digest: its own initial state, and the first 28 bytes of what sha256_finish gives. */
  method Sha224Digest(data: array<byte>) returns (dgst: seq<byte>)
    ensures |dgst| == 28 && (data.Length < 0x2000_0000_0000_0000 ==> dgst == Digest(Initial224(), data[..])[..28])
  {
    hide Digest, Initial224;
    var ctx := new Sha256Ctx();
    ctx.Init(Initial224());
    ctx.Update(data, Initial224(), []);
    assert [] + data[..] == data[..];
    var buf := ctx.Finish(Initial224(), data[..]);
    dgst := buf[..28];
  }
}
