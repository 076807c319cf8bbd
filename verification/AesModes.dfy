/** The modes of operation of aes_modes.c: CBC with padding, CTR and GCM. */
module AesModes {
  import opened AesCipher
  import opened Bytes
  import opened Ghash
  import opened Gf2Polynomials
  import Positional

  function XorBytes(a: seq<byte>, b: seq<byte>): (c: seq<byte>)
    requires |a| == |b|
    ensures |c| == |a| && forall k :: 0 <= k < |c| ==> c[k] == Xor(a[k], b[k])
  {
    seq(|a|, k requires 0 <= k < |a| => Xor(a[k], b[k]))
  }

  lemma XorBytesCancels(a: seq<byte>, b: seq<byte>)
    requires |a| == |b|
    ensures XorBytes(XorBytes(a, b), b) == a
  {
    hide Xor;
    forall k | 0 <= k < |a| ensures XorBytes(XorBytes(a, b), b)[k] == a[k] { XorCancels(a[k], b[k]); }
  }

  // ----- CBC -----

  /** The last block so far, or the initialization vector. */
  function Chain(iv: Block, c: seq<byte>): Block
    requires c == [] || |c| >= 16
  {
    if c == [] then iv else c[|c| - 16..]
  }

  function CbcEncrypted(key: seq<byte>, iv: Block, p: seq<byte>): (c: seq<byte>)
    requires KeySize(|key|) && |p| % 16 == 0
    ensures |c| == |p|
  {
    if p == [] then []
    else
      var front := CbcEncrypted(key, iv, p[..|p| - 16]);
      front + Encrypt(key, XorBytes(p[|p| - 16..], Chain(iv, front)))
  }

  function CbcDecrypted(key: seq<byte>, iv: Block, c: seq<byte>): (p: seq<byte>)
    requires KeySize(|key|) && |c| % 16 == 0
    ensures |p| == |c|
  {
    if c == [] then []
    else CbcDecrypted(key, iv, c[..|c| - 16]) + XorBytes(Decrypt(key, c[|c| - 16..]), Chain(iv, c[..|c| - 16]))
  }

  lemma CbcLastBlock(key: seq<byte>, iv: Block, q: seq<byte>, last: Block)
    requires KeySize(|key|) && |q| % 16 == 0
    ensures CbcEncrypted(key, iv, q + last)
      == CbcEncrypted(key, iv, q) + Encrypt(key, XorBytes(last, Chain(iv, CbcEncrypted(key, iv, q))))
    ensures CbcDecrypted(key, iv, q + last) == CbcDecrypted(key, iv, q) + XorBytes(Decrypt(key, last), Chain(iv, q))
  {
    var p := q + last;
    assert p[..|p| - 16] == q && p[|p| - 16..] == last;
  }

  lemma {:induction false} CbcRoundTrip(key: seq<byte>, iv: Block, p: seq<byte>)
    requires KeySize(|key|) && |p| % 16 == 0
    ensures CbcDecrypted(key, iv, CbcEncrypted(key, iv, p)) == p
  {
    if p != [] {
      hide Encrypt, Decrypt, XorBytes, CbcEncrypted, CbcDecrypted, Chain;
      var q, last := p[..|p| - 16], p[|p| - 16..];
      assert p == q + last;
      var front := CbcEncrypted(key, iv, q);
      var mixed := XorBytes(last, Chain(iv, front));
      CbcRoundTrip(key, iv, q);
      CbcLastBlock(key, iv, q, last);
      CbcLastBlock(key, iv, front, Encrypt(key, mixed));
      DecryptUndoesEncrypt(key, mixed);
      XorBytesCancels(last, Chain(iv, front));
    }
  }

  // ----- padding -----

  /** Between 1 and 16 bytes, each holding their number. */
  function Padded(p: seq<byte>): (r: seq<byte>)
    ensures |r| % 16 == 0 && |p| < |r| <= |p| + 16
  {
    var n := 16 - |p| % 16;
    p + seq(n, _ => OfNum(n, 8))
  }

  datatype Result = Nothing | Rejected | Plain(text: seq<byte>)

  /** What aes_cbc_padding_decrypt answers: 0, -1, or 1 and the text. */
  function PaddingDecrypted(key: seq<byte>, iv: Block, c: seq<byte>): Result
    requires KeySize(|key|)
  {
    if c == [] then Nothing
    else if |c| % 16 != 0 then Rejected
    else
      var p := CbcDecrypted(key, iv, c);
      var n := Num(p[|p| - 1]);
      if n < 1 || n > 16 then Rejected else Plain(p[..|p| - n])
  }

  /** Decryption gives back every text that was padded and encrypted. */
  lemma PaddingRoundTrip(key: seq<byte>, iv: Block, p: seq<byte>)
    requires KeySize(|key|)
    ensures PaddingDecrypted(key, iv, CbcEncrypted(key, iv, Padded(p))) == Plain(p)
  {
    hide CbcEncrypted, CbcDecrypted, Num, OfNum;
    CbcRoundTrip(key, iv, Padded(p));
    var n := 16 - |p| % 16;
    assert Positional.Pow(2, 8) == 256;
    BitsOfNum(n, 8);
  }

  // ----- the counter -----

  /** The number in a row of bytes, most significant first. */
  function Number(b: seq<byte>): nat {
    if b == [] then 0 else 256 * Number(b[..|b| - 1]) + Num(b[|b| - 1])
  }

  /** The n low bytes of a number. */
  function BigEndian(v: nat, n: nat): (b: seq<byte>)
    ensures |b| == n
  {
    if n == 0 then [] else BigEndian(v / 256, n - 1) + [OfNum(v, 8)]
  }

  lemma ByteNum(v: nat)
    ensures Num(OfNum(v, 8)) == v % 256
  {
    assert Positional.Pow(2, 8) == 256;
    BitsOfNum(v, 8);
  }

  lemma {:induction false} NumberIs(b: seq<byte>)
    ensures BigEndian(Number(b), |b|) == b && Number(b) < Positional.Pow(256, |b|)
  {
    hide Num, OfNum;
    if b != [] {
      var front, last := b[..|b| - 1], b[|b| - 1];
      NumberIs(front);
      LastByte(Number(front), last);
    }
  }

  lemma LastByte(high: nat, last: byte)
    ensures Num(last) < 256 && (256 * high + Num(last)) / 256 == high && OfNum(256 * high + Num(last), 8) == last
  {
    hide Num, OfNum;
    NumOfBits(last);
    assert Positional.Pow(2, 8) == 256;
    Positional.DivMod(256, high, Num(last));
    ByteNum(256 * high + Num(last));
    NumOfBits(OfNum(256 * high + Num(last), 8));
  }

  /** ctr_incr on bytes i down to 1: stops at the first byte that does not wrap around, and never
      reaches byte 0. */
  function Increment(c: Block, i: nat): (r: Block)
    requires i < 16
    ensures r[0] == c[0] && r[i + 1..] == c[i + 1..]
    decreases i
  {
    if i == 0 then c
    else
      var b := OfNum(Num(c[i]) + 1, 8);
      if b != Zeros(8) then c[i := b] else Increment(c[i := b], i - 1)
  }

  lemma NoCarry(v: nat, n: nat, p: nat)
    requires v < p && n < 255
    ensures (256 * v + n + 1) % (256 * p) == 256 * v + n + 1
  {
    Positional.DivMod(256 * p, 0, 256 * v + n + 1);
  }

  lemma Carry(v: nat, p: nat)
    requires 1 <= p
    ensures (256 * v + 255 + 1) % (256 * p) == 256 * ((v + 1) % p)
  {
    var q, r := (v + 1) / p, (v + 1) % p;
    assert v + 1 == q * p + r;
    assert 256 * v + 256 == q * (256 * p) + 256 * r;
    Positional.DivMod(256 * p, q, 256 * r);
  }

  lemma NumberOfLast(front: seq<byte>, b: byte)
    ensures Number(front + [b]) == 256 * Number(front) + Num(b)
  {
    assert (front + [b])[..|front|] == front;
  }

  /** The last byte was not 255. */
  lemma CountsOn(front: seq<byte>, last: byte, next: byte)
    requires Num(last) < 255 && Num(next) == Num(last) + 1
    ensures Number(front + [next]) == (Number(front + [last]) + 1) % Positional.Pow(256, |front| + 1)
  {
    hide Num, Number;
    NumberIs(front);
    NumberOfLast(front, last);
    NumberOfLast(front, next);
    NoCarry(Number(front), Num(last), Positional.Pow(256, |front|));
  }

  /** The last byte was 255, and the others have been counted on. */
  lemma CountsOver(front: seq<byte>, back: seq<byte>, last: byte, next: byte)
    requires Num(last) == 255 && Num(next) == 0 && |back| == |front|
    requires Number(back) == (Number(front) + 1) % Positional.Pow(256, |front|)
    ensures Number(back + [next]) == (Number(front + [last]) + 1) % Positional.Pow(256, |front| + 1)
  {
    hide Num, Number;
    NumberOfLast(front, last);
    NumberOfLast(back, next);
    Carry(Number(front), Positional.Pow(256, |front|));
  }

  /** Bytes 1 to i count modulo 256 to the i. */
  lemma {:induction false} IncrementCounts(c: Block, i: nat)
    requires i < 16
    ensures Number(Increment(c, i)[1..i + 1]) == (Number(c[1..i + 1]) + 1) % Positional.Pow(256, i)
    decreases i
  {
    hide Num, OfNum, Number, Positional.Pow, Increment;
    IncrementByte(c, i);
    if i == 0 { assert Increment(c, 0)[1..1] == c[1..1] == []; EmptyNumber(); }
    else {
      var front, b := c[1..i], OfNum(Num(c[i]) + 1, 8);
      var d := c[i := b];
      SuccessorByte(c[i]);
      assert c[1..i + 1] == front + [c[i]] && d[1..i] == front;
      if b != Zeros(8) {
        assert d[1..i + 1] == front + [b];
        CountsOn(front, c[i], b);
      } else {
        IncrementCounts(d, i - 1);
        var r := Increment(d, i - 1);
        assert r[i] == r[i..][0] == b;
        assert r[1..i + 1] == r[1..i] + [b];
        CountsOver(front, r[1..i], c[i], b);
      }
    }
  }

  lemma IncrementByte(c: Block, i: nat)
    requires i < 16
    ensures i == 0 ==> Positional.Pow(256, i) == 1
    ensures if i == 0 then Increment(c, i) == c
      else
        var b := OfNum(Num(c[i]) + 1, 8);
        Increment(c, i) == if b != Zeros(8) then c[i := b] else Increment(c[i := b], i - 1)
  {
  }

  lemma EmptyNumber()
    ensures Number([]) == 0
  {
  }

  /** a[i]++ on a uint8_t */
  lemma SuccessorByte(a: byte)
    ensures var b := OfNum(Num(a) + 1, 8);
      if b == Zeros(8) then Num(a) == 255 && Num(b) == 0 else Num(a) < 255 && Num(b) == Num(a) + 1
  {
    hide Num, OfNum;
    NumOfBits(a);
    assert Positional.Pow(2, 8) == 256;
    ByteNum(Num(a) + 1);
    ZeroByte(OfNum(Num(a) + 1, 8));
  }

  lemma ZeroByte(b: byte)
    ensures (b == Zeros(8)) == (Num(b) == 0)
  {
    assert OfNum(0, 8) == Zeros(8) by { ZeroBits(8); }
    NumOfBits(b);
    assert Positional.Pow(2, 8) == 256;
    BitsOfNum(0, 8);
  }

  lemma {:induction false} ZeroBits(n: nat)
    ensures OfNum(0, n) == Zeros(n)
  {
    if n != 0 { ZeroBits(n - 1); }
  }

  /** The counter block j steps after y: byte 0 stays, the other fifteen count modulo 2 to the 120. */
  function CounterBlock(y: Block, j: nat): Block {
    [y[0]] + BigEndian((Number(y[1..]) + j) % 0x1_000000_000000_000000_000000_000000, 15)
  }

  lemma {:induction false} NumberOfBigEndian(v: nat, n: nat)
    ensures Number(BigEndian(v, n)) == v % Positional.Pow(256, n)
  {
    hide Num, OfNum;
    if n != 0 {
      NumberOfBigEndian(v / 256, n - 1);
      NumberOfLast(BigEndian(v / 256, n - 1), OfNum(v, 8));
      ByteNum(v);
      LowByte(v, Positional.Pow(256, n - 1));
    }
  }

  lemma LowByte(v: nat, p: nat)
    requires 1 <= p
    ensures v % (256 * p) == 256 * (v / 256 % p) + v % 256
  {
    var h := v / 256;
    var q, r := h / p, h % p;
    assert h == q * p + r;
    assert v == q * (256 * p) + (256 * r + v % 256);
    Positional.DivMod(256 * p, q, 256 * r + v % 256);
  }

  lemma CounterSize()
    ensures Positional.Pow(256, 15) == 0x1_000000_000000_000000_000000_000000
  {
    assert Positional.Pow(256, 3) == 0x1_000000;
    assert Positional.Pow(256, 6) == 0x1_000000_000000;
    assert Positional.Pow(256, 9) == 0x1_000000_000000_000000;
    assert Positional.Pow(256, 12) == 0x1_000000_000000_000000_000000;
  }

  lemma AddMod(a: nat, j: nat, m: nat)
    requires 1 <= m
    ensures ((a + j) % m + 1) % m == (a + (j + 1)) % m
  {
    var q, r := (a + j) / m, (a + j) % m;
    assert a + j == q * m + r;
    if r + 1 < m {
      assert a + (j + 1) == q * m + (r + 1);
      Positional.DivMod(m, q, r + 1);
      Positional.DivMod(m, 0, r + 1);
    } else {
      assert a + (j + 1) == (q + 1) * m + 0;
      Positional.DivMod(m, q + 1, 0);
      Positional.DivMod(m, 1, 0);
    }
  }

  /** ctr_incr steps from one counter block to the next. */
  lemma CounterSteps(y: Block, j: nat)
    ensures Increment(CounterBlock(y, j), 15) == CounterBlock(y, j + 1)
    ensures CounterBlock(y, 0) == y
  {
    hide Number, BigEndian, Increment;
    var m := Positional.Pow(256, 15);
    CounterSize();
    var a := Number(y[1..]);
    var c := CounterBlock(y, j);
    var r := Increment(c, 15);
    assert r[1..16] == r[1..] && c[1..16] == c[1..] == BigEndian((a + j) % m, 15);
    NumberOfBigEndian((a + j) % m, 15);
    IncrementCounts(c, 15);
    AddMod(a, j, m);
    NumberIs(r[1..]);
    assert r == [r[0]] + r[1..];
    NumberIs(y[1..]);
    Positional.DivMod(m, 0, a);
    Positional.DivMod(m, 0, (a + j) % m);
    assert y == [y[0]] + y[1..];
  }

  // ----- CTR and GCM -----

  /** The key stream: byte k % 16 of the encrypted counter block number first + k / 16. */
  function KeyByte(key: seq<byte>, y: Block, first: nat, k: nat): byte
    requires KeySize(|key|)
  {
    Encrypt(key, CounterBlock(y, first + k / 16))[k % 16]
  }

  function KeyStream(key: seq<byte>, y: Block, first: nat, n: nat): (s: seq<byte>)
    requires KeySize(|key|)
    ensures |s| == n && forall k: nat :: k < n ==> s[k] == KeyByte(key, y, first, k)
  {
    if n == 0 then [] else KeyStream(key, y, first, n - 1) + [KeyByte(key, y, first, n - 1)]
  }

  function Streamed(key: seq<byte>, y: Block, first: nat, p: seq<byte>): (c: seq<byte>)
    requires KeySize(|key|)
    ensures |c| == |p|
  {
    XorBytes(p, KeyStream(key, y, first, |p|))
  }

  lemma StreamedTwice(key: seq<byte>, y: Block, first: nat, p: seq<byte>)
    requires KeySize(|key|)
    ensures Streamed(key, y, first, Streamed(key, y, first, p)) == p
  {
    hide KeyStream, XorBytes;
    XorBytesCancels(p, KeyStream(key, y, first, |p|));
  }

  /** The key stream grows by an encrypted counter block, the last one perhaps cut short. */
  lemma NextKeyBlock(key: seq<byte>, y: Block, first: nat, n: nat, len: nat)
    requires KeySize(|key|) && n % 16 == 0 && len <= 16
    ensures KeyStream(key, y, first, n + len)
      == KeyStream(key, y, first, n) + Encrypt(key, CounterBlock(y, first + n / 16))[..len]
  {
    hide Encrypt, CounterBlock;
    var s, t := KeyStream(key, y, first, n + len), KeyStream(key, y, first, n);
    hide KeyStream;
    forall k | 0 <= k < n + len
      ensures s[k] == (t + Encrypt(key, CounterBlock(y, first + n / 16))[..len])[k]
    {
      if k < n { assert s[k] == KeyByte(key, y, first, k) == t[k]; }
      else if k < n + 16 {
        assert s[k] == KeyByte(key, y, first, k);
        assert k / 16 == n / 16 && k % 16 == k - n;
      }
    }
  }

  lemma XorBytesAppend(a: seq<byte>, b: seq<byte>, c: seq<byte>, d: seq<byte>)
    requires |a| == |c| && |b| == |d|
    ensures XorBytes(a + b, c + d) == XorBytes(a, c) + XorBytes(b, d)
  {
    hide Xor;
  }

  /** The hash key: the encrypted zero block. */
  function HashKey(key: seq<byte>): Block
    requires KeySize(|key|)
  {
    Encrypt(key, ZeroBytes(16))
  }

  /** The first counter block: a 12-byte iv is used as it is, any other one is hashed. */
  function FirstCounter(key: seq<byte>, iv: seq<byte>): Block
    requires KeySize(|key|)
  {
    if |iv| == 12 then iv + ZeroBytes(3) + [OfNum(1, 8)] else GhashOf(HashKey(key), [], iv)
  }

  function GcmCiphertext(key: seq<byte>, iv: seq<byte>, p: seq<byte>): (c: seq<byte>)
    requires KeySize(|key|)
    ensures |c| == |p|
  {
    Streamed(key, FirstCounter(key, iv), 1, p)
  }

  function GcmTag(key: seq<byte>, iv: seq<byte>, aad: seq<byte>, c: seq<byte>, taglen: nat): (t: seq<byte>)
    requires KeySize(|key|) && taglen <= 16
    ensures |t| == taglen
  {
    XorBytes(Encrypt(key, FirstCounter(key, iv)), GhashOf(HashKey(key), aad, c))[..taglen]
  }

  /** What aes_gcm_decrypt answers: -1, or 1 and the text. */
  function GcmDecrypted(key: seq<byte>, iv: seq<byte>, aad: seq<byte>, c: seq<byte>, tag: seq<byte>): Result
    requires KeySize(|key|) && |tag| <= 16
  {
    if tag == GcmTag(key, iv, aad, c, |tag|) then Plain(Streamed(key, FirstCounter(key, iv), 1, c)) else Rejected
  }

  /** Decryption accepts exactly the tag of the ciphertext, and then gives back the text. */
  lemma GcmRoundTrip(key: seq<byte>, iv: seq<byte>, aad: seq<byte>, p: seq<byte>, tag: seq<byte>)
    requires KeySize(|key|) && |tag| <= 16
    ensures var c := GcmCiphertext(key, iv, p);
      && (GcmDecrypted(key, iv, aad, c, tag) == Plain(p) <==> tag == GcmTag(key, iv, aad, c, |tag|))
      && (GcmDecrypted(key, iv, aad, c, tag) == Rejected <==> tag != GcmTag(key, iv, aad, c, |tag|))
  {
    hide FirstCounter, GcmTag, Streamed;
    StreamedTwice(key, FirstCounter(key, iv), 1, p);
  }
}
