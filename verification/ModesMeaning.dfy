/** What AesModes computes, block by block and byte by byte. */
module ModesMeaning {
  import opened AesCipher
  import opened AesModes
  import opened Bytes
  import opened Ghash
  import opened Gf2Polynomials
  import Positional

  // ----- CBC -----

  /** Block i of a CBC encryption is the encryption of m, block i of the text plus the block before it, which
      for the first one is the initialization vector. */
  lemma {:induction false} CbcMeans(key: seq<byte>, iv: Block, p: seq<byte>, c: seq<byte>, i: nat, m: Block)
    requires KeySize(|key|) && |p| % 16 == 0 && c == CbcEncrypted(key, iv, p) && 16 * i + 16 <= |p|
    requires forall k :: 0 <= k < 16 ==> m[k] == Xor(p[16 * i + k], if i == 0 then iv[k] else c[16 * (i - 1) + k])
    ensures c[16 * i..16 * i + 16] == Encrypt(key, m)
  {
    hide Encrypt, Xor, CbcEncrypted, Chain;
    var n := |p| - 16;
    var q, last := p[..n], p[n..];
    assert p == q + last;
    CbcLastBlock(key, iv, q, last);
    var front := CbcEncrypted(key, iv, q);
    if 16 * i < n {
      CbcMeans(key, iv, q, front, i, m);
      assert c[16 * i..16 * i + 16] == front[16 * i..16 * i + 16];
    } else {
      ChainAt(iv, front, i);
      assert m == XorBytes(last, Chain(iv, front));
    }
  }

  lemma ChainAt(iv: Block, c: seq<byte>, i: nat)
    requires |c| == 16 * i
    ensures forall k :: 0 <= k < 16 ==> Chain(iv, c)[k] == if i == 0 then iv[k] else c[16 * (i - 1) + k]
  {
  }

  /** The padding: 1 to 16 bytes, each of them their number. */
  lemma PaddedMeans(p: seq<byte>, r: seq<byte>, k: nat)
    requires r == Padded(p)
    ensures |r| % 16 == 0 && |p| < |r| <= |p| + 16 && r[..|p|] == p
    ensures |p| <= k < |r| ==> Num(r[k]) == |r| - |p|
  {
    hide Num, OfNum;
    ByteNum(16 - |p| % 16);
  }

  /** What decryption answers to the encryption of p, when n is its last byte: p without n bytes if n is a
      possible number of padding bytes. */
  lemma AnswerMeans(key: seq<byte>, iv: Block, p: seq<byte>, c: seq<byte>, n: nat)
    requires KeySize(|key|) && |p| % 16 == 0 && p != [] && n == Num(p[|p| - 1])
    ensures PaddingDecrypted(key, iv, CbcEncrypted(key, iv, p))
      == if 1 <= n <= 16 then Plain(p[..|p| - n]) else Rejected
    ensures PaddingDecrypted(key, iv, []) == Nothing
    ensures |c| % 16 != 0 ==> PaddingDecrypted(key, iv, c) == Rejected
  {
    hide CbcEncrypted, CbcDecrypted, Num;
    CbcRoundTrip(key, iv, p);
  }

  // ----- the counter -----

  /** The counter block j steps on: byte 0 stays, and the other fifteen hold a number that counts modulo 2 to
      the 120. */
  lemma CounterMeans(y: Block, j: nat)
    ensures CounterBlock(y, j)[0] == y[0]
    ensures Number(CounterBlock(y, j)[1..]) == (Number(y[1..]) + j) % 0x1_000000_000000_000000_000000_000000
  {
    hide Number, BigEndian;
    var m := 0x1_000000_000000_000000_000000_000000;
    var v := (Number(y[1..]) + j) % m;
    CounterSize();
    NumberOfBigEndian(v, 15);
    Positional.DivMod(m, 0, v);
    assert CounterBlock(y, j)[1..] == BigEndian(v, 15);
  }

  lemma {:induction false} NumberMeans(b: byte, s: seq<byte>)
    ensures Number([]) == 0
    ensures Number([b] + s) == Num(b) * Positional.Pow(256, |s|) + Number(s)
  {
    hide Num, Number;
    EmptyNumber();
    if s == [] {
      assert [b] + s == [] + [b];
      NumberOfLast([], b);
    } else {
      var front, last := s[..|s| - 1], s[|s| - 1];
      assert s == front + [last] && [b] + s == ([b] + front) + [last];
      NumberMeans(b, front);
      NumberOfLast(front, last);
      NumberOfLast([b] + front, last);
      Weighs(Num(b), Positional.Pow(256, |front|));
    }
  }

  lemma Weighs(n: nat, p: nat)
    ensures 256 * (n * p) == n * (256 * p)
  {
  }

  // ----- CTR and GCM -----

  /** Byte k of a stream: that of the text plus byte k % 16 of the encrypted counter block k / 16 steps on. */
  lemma StreamMeans(key: seq<byte>, y: Block, first: nat, p: seq<byte>, k: nat)
    requires KeySize(|key|) && k < |p|
    ensures Streamed(key, y, first, p)[k] == Xor(p[k], Encrypt(key, CounterBlock(y, first + k / 16))[k % 16])
  {
    hide Encrypt, Xor, CounterBlock, KeyStream;
    assert KeyStream(key, y, first, |p|)[k] == KeyByte(key, y, first, k);
  }

  /** Section 7.1 of NIST SP 800-38D: y is the first counter block, the text is encrypted with the ones behind
      it, and the tag is the hash of aad and the ciphertext plus the encryption of y. */
  lemma GcmMeans(key: seq<byte>, iv: seq<byte>, p: seq<byte>, k: nat, y: Block)
    requires KeySize(|key|) && k < |p| && y == FirstCounter(key, iv)
    ensures GcmCiphertext(key, iv, p)[k] == Xor(p[k], Encrypt(key, CounterBlock(y, 1 + k / 16))[k % 16])
  {
    hide Encrypt, Xor, CounterBlock, Streamed, FirstCounter;
    StreamMeans(key, y, 1, p, k);
  }

  lemma TagMeans(key: seq<byte>, iv: seq<byte>, aad: seq<byte>, c: seq<byte>, taglen: nat, k: nat, y: Block, h: Block)
    requires KeySize(|key|) && k < taglen <= 16 && y == FirstCounter(key, iv) && h == HashKey(key)
    ensures h == Encrypt(key, ZeroBytes(16))
    ensures GcmTag(key, iv, aad, c, taglen)[k] == Xor(Encrypt(key, y)[k], GhashOf(h, aad, c)[k])
  {
    hide Encrypt, Xor, FirstCounter, GhashOf, ZeroBytes;
  }

  lemma FirstCounterMeans(key: seq<byte>, iv: seq<byte>, y: Block, h: Block)
    requires KeySize(|key|) && y == FirstCounter(key, iv) && h == Encrypt(key, ZeroBytes(16))
    ensures |iv| == 12 ==> y[..12] == iv && y[12] == y[13] == y[14] == Zeros(8)
    ensures |iv| == 12 ==> y[15] == [false, false, false, false, false, false, false, true]
    ensures |iv| != 12 ==> y == GhashOf(h, [], iv)
  {
    hide Encrypt, GhashOf, OfNum;
    OneIs();
  }
}
