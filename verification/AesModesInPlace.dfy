/** The functions of aes_modes.c on buffers. A pointer is an array and an index. */
module AesModesInPlace {
  import opened AesCipher
  import opened AesModes
  import opened Bytes
  import opened Ghash
  import opened Gf2Polynomials
  import opened Lists

  /** The buffer changes from was to now by writing data at `to`, and nowhere else. */
  ghost predicate Written(was: seq<byte>, now: seq<byte>, to: nat, data: seq<byte>) {
    to + |data| <= |was| && now == was[..to] + data + was[to + |data|..]
  }

  lemma WriteNothing(was: seq<byte>, to: nat)
    requires to <= |was|
    ensures Written(was, was, to, [])
  {
  }

  lemma WriteMore(was: seq<byte>, mid: seq<byte>, now: seq<byte>, to: nat, a: seq<byte>, b: seq<byte>)
    requires Written(was, mid, to, a) && Written(mid, now, to + |a|, b)
    ensures Written(was, now, to, a + b)
  {
    assert mid[..to + |a|] == was[..to] + a;
    assert mid[to + |a| + |b|..] == was[to + |a| + |b|..];
  }

  lemma ReadBack(was: seq<byte>, now: seq<byte>, to: nat, data: seq<byte>)
    requires Written(was, now, to, data)
    ensures |now| == |was| && now[to..to + |data|] == data
    ensures forall k :: 0 <= k < |was| && !(to <= k < to + |data|) ==> now[k] == was[k]
  {
  }

  lemma WrittenIs(was: seq<byte>, now: seq<byte>, to: nat, data: seq<byte>)
    requires to + |data| <= |was| == |now| && forall k :: 0 <= k < |data| ==> now[to + k] == data[k]
    requires forall k :: 0 <= k < |was| && !(to <= k < to + |data|) ==> now[k] == was[k]
    ensures Written(was, now, to, data)
  {
    forall k | 0 <= k < |was| ensures now[k] == (was[..to] + data + was[to + |data|..])[k] {
      if to <= k < to + |data| { assert now[to + (k - to)] == data[k - to]; }
    }
  }

  lemma WriteTwice(was: seq<byte>, mid: seq<byte>, now: seq<byte>, to: nat, a: seq<byte>, b: seq<byte>)
    requires Written(was, mid, to, a) && Written(mid, now, to, b) && |a| == |b|
    ensures Written(was, now, to, b)
  {
    assert mid[..to] == was[..to] && mid[to + |a|..] == was[to + |a|..];
  }

  /** gmssl_memxor, and memxor when a is r. */
  method MemXor(r: array<byte>, ro: nat, a: array<byte>, ao: nat, b: array<byte>, bo: nat, len: nat)
    requires ro + len <= r.Length && ao + len <= a.Length && bo + len <= b.Length
    requires (a != r || ao == ro) && (b != r || bo == ro || bo + len <= ro)
    modifies r
    ensures Written(old(r[..]), r[..], ro, XorBytes(old(a[ao..ao + len]), old(b[bo..bo + len])))
  {
    hide Xor, Written;
    ghost var x, y, was := a[ao..ao + len], b[bo..bo + len], r[..];
    for i := 0 to len
      invariant forall k :: 0 <= k < i ==> r[ro + k] == Xor(x[k], y[k])
      invariant forall k :: 0 <= k < r.Length && !(ro <= k < ro + i) ==> r[k] == was[k]
    {
      assert a[ao + i] == x[i] && b[bo + i] == y[i];
      r[ro + i] := Xor(a[ao + i], b[bo + i]);
    }
    WrittenIs(was, r[..], ro, XorBytes(x, y));
  }

  // ----- CBC -----

  /** One block: add the chaining block, and encrypt in place. */
  method EncryptChained(key: AesKey, ghost user: seq<byte>, chain: array<byte>, chainat: nat,
                        inp: array<byte>, at: nat, out: array<byte>, to: nat)
    requires key.Encrypts(user)
    requires chainat + 16 <= chain.Length && at + 16 <= inp.Length && to + 16 <= out.Length
    requires inp != out && (chain != out || chainat + 16 <= to)
    modifies out
    ensures Written(old(out[..]), out[..], to,
      Encrypt(user, XorBytes(inp[at..at + 16], old(chain[chainat..chainat + 16]))))
  {
    hide Cipher, EncryptKeys, XorBytes, Written;
    ghost var was := out[..];
    ghost var mixed := XorBytes(inp[at..at + 16], chain[chainat..chainat + 16]);
    MemXor(out, to, inp, at, chain, chainat, 16);
    ghost var mid := out[..];
    ReadBack(was, mid, to, mixed);
    AesEncrypt(key, out, to, out, to);
    assert Written(mid, out[..], to, Encrypt(user, mixed)) by { Unchanged(mid, out[..], to, Encrypt(user, mixed)); }
    WriteTwice(was, mid, out[..], to, mixed, Encrypt(user, mixed));
  }

  lemma Unchanged(was: seq<byte>, now: seq<byte>, to: nat, data: seq<byte>)
    requires to + |data| <= |was| && now == was[..to] + data + was[to + |data|..]
    ensures Written(was, now, to, data)
  {
  }

  /** One block: decrypt, and add the chaining block in place. */
  method DecryptChained(key: AesKey, ghost user: seq<byte>, chain: array<byte>, chainat: nat,
                        inp: array<byte>, at: nat, out: array<byte>, to: nat)
    requires key.Decrypts(user)
    requires chainat + 16 <= chain.Length && at + 16 <= inp.Length && to + 16 <= out.Length
    requires inp != out && chain != out
    modifies out
    ensures Written(old(out[..]), out[..], to,
      XorBytes(Decrypt(user, inp[at..at + 16]), chain[chainat..chainat + 16]))
  {
    hide InvCipher, DecryptKeys, XorBytes, Written;
    ghost var was := out[..];
    ghost var plain := Decrypt(user, inp[at..at + 16]);
    AesDecrypt(key, inp, at, out, to);
    ghost var mid := out[..];
    Unchanged(was, mid, to, plain);
    ReadBack(was, mid, to, plain);
    MemXor(out, to, out, to, chain, chainat, 16);
    WriteTwice(was, mid, out[..], to, plain, XorBytes(plain, chain[chainat..chainat + 16]));
  }

  /** aes_cbc_encrypt; iv may point into out, before the blocks that are written. */
  method CbcEncrypt(key: AesKey, ghost user: seq<byte>, iv: array<byte>, ivat: nat,
                    inp: array<byte>, at: nat, nblocks: nat, out: array<byte>, to: nat)
    requires key.Encrypts(user)
    requires ivat + 16 <= iv.Length && at + 16 * nblocks <= inp.Length && to + 16 * nblocks <= out.Length
    requires inp != out && (iv != out || ivat + 16 <= to)
    modifies out
    ensures Written(old(out[..]), out[..], to,
      CbcEncrypted(user, old(iv[ivat..ivat + 16]), inp[at..at + 16 * nblocks]))
  {
    hide Encrypt, EncryptKeys, XorBytes, CbcEncrypted, CbcDecrypted, Chain, Written;
    ghost var v, was, done, c := iv[ivat..ivat + 16], out[..], [], [];
    var chain, chainat: nat := iv, ivat;
    NoBlocks(user, v);
    WriteNothing(was, to);
    for i := 0 to nblocks
      invariant done == inp[at..at + 16 * i] && c == CbcEncrypted(user, v, done)
      invariant Written(was, out[..], to, c)
      invariant chainat + 16 <= chain.Length && (chain != out || chainat + 16 <= to + 16 * i)
      invariant chain[chainat..chainat + 16] == Chain(v, c)
    {
      ghost var last, mid := inp[at + 16 * i..at + 16 * i + 16], out[..];
      ghost var block := Encrypt(user, XorBytes(last, Chain(v, c)));
      CbcLastBlock(user, v, done, last);
      EncryptChained(key, user, chain, chainat, inp, at + 16 * i, out, to + 16 * i);
      WriteMore(was, mid, out[..], to, c, block);
      ReadBack(mid, out[..], to + 16 * i, block);
      SliceInTwo(inp[..], at, i);
      assert inp[at..at + 16 * i + 16] == done + last;
      assert at + 16 * (i + 1) == at + 16 * i + 16;
      chain, chainat := out, to + 16 * i;
      LastOfChain(v, c, block);
      done, c := done + last, c + block;
    }
  }

  /** aes_cbc_decrypt; iv may point into inp. */
  method CbcDecrypt(key: AesKey, ghost user: seq<byte>, iv: array<byte>, ivat: nat,
                    inp: array<byte>, at: nat, nblocks: nat, out: array<byte>, to: nat)
    requires key.Decrypts(user)
    requires ivat + 16 <= iv.Length && at + 16 * nblocks <= inp.Length && to + 16 * nblocks <= out.Length
    requires inp != out && iv != out
    modifies out
    ensures Written(old(out[..]), out[..], to,
      CbcDecrypted(user, iv[ivat..ivat + 16], inp[at..at + 16 * nblocks]))
  {
    hide Decrypt, DecryptKeys, XorBytes, CbcEncrypted, CbcDecrypted, Chain, Written;
    ghost var v, was, done, p := iv[ivat..ivat + 16], out[..], [], [];
    var chain, chainat: nat := iv, ivat;
    NoBlocks(user, v);
    WriteNothing(was, to);
    for i := 0 to nblocks
      invariant done == inp[at..at + 16 * i] && p == CbcDecrypted(user, v, done)
      invariant Written(was, out[..], to, p)
      invariant chainat + 16 <= chain.Length && chain != out && chain[chainat..chainat + 16] == Chain(v, done)
    {
      ghost var last, mid := inp[at + 16 * i..at + 16 * i + 16], out[..];
      ghost var block := XorBytes(Decrypt(user, last), Chain(v, done));
      CbcLastBlock(user, v, done, last);
      DecryptChained(key, user, chain, chainat, inp, at + 16 * i, out, to + 16 * i);
      WriteMore(was, mid, out[..], to, p, block);
      assert inp[at..at + 16 * (i + 1)] == done + last;
      chain, chainat := inp, at + 16 * i;
      LastOfChain(v, done, last);
      done, p := done + last, p + block;
    }
  }

  lemma NoBlocks(user: seq<byte>, v: Block)
    requires KeySize(|user|)
    ensures CbcEncrypted(user, v, []) == [] == CbcDecrypted(user, v, []) && Chain(v, []) == v
  {
  }

  lemma LastOfChain(v: Block, c: seq<byte>, last: Block)
    ensures Chain(v, c + last) == last
  {
  }

  lemma ChainIs(v: Block, c: seq<byte>)
    requires |c| >= 16
    ensures Chain(v, c) == c[|c| - 16..]
  {
  }

  lemma FirstBlock(user: seq<byte>, v: Block, block: Block)
    requires KeySize(|user|)
    ensures CbcEncrypted(user, v, block) == Encrypt(user, XorBytes(block, v))
    ensures CbcDecrypted(user, v, block) == XorBytes(Decrypt(user, block), v)
  {
    hide Encrypt, Decrypt, XorBytes, CbcEncrypted, CbcDecrypted;
    NoBlocks(user, v);
    CbcLastBlock(user, v, [], block);
    assert [] + block == block;
  }

  /** aes_cbc_padding_encrypt */
  method CbcPaddingEncrypt(key: AesKey, ghost user: seq<byte>, iv: array<byte>, ivat: nat,
                           inp: array<byte>, at: nat, inlen: nat, out: array<byte>, to: nat)
    returns (outlen: nat)
    requires key.Encrypts(user)
    requires ivat + 16 <= iv.Length && at + inlen <= inp.Length && to + inlen + 16 <= out.Length
    requires inp != out && iv != out
    modifies out
    ensures outlen == inlen - inlen % 16 + 16
    ensures Written(old(out[..]), out[..], to, CbcEncrypted(user, iv[ivat..ivat + 16], Padded(inp[at..at + inlen])))
  {
    hide Encrypt, EncryptKeys, XorBytes, CbcEncrypted, CbcDecrypted, Chain, Written;
    ghost var v, was, text := iv[ivat..ivat + 16], out[..], inp[at..at + inlen];
    var rem := inlen % 16;
    var padding := 16 - inlen % 16;
    var whole := inlen - rem;
    var block := LastBlock(inp, at, inlen);
    ghost var front, last := text[..whole], block[..];
    assert whole == 16 * (inlen / 16);
    SliceOfSlice(inp[..], at, inlen, 0, whole);
    assert inp[..][at..at + inlen] == text && inp[at..at + whole] == front;
    EncryptedInTwo(user, v, front, last);
    ghost var c := CbcEncrypted(user, v, front);
    if inlen / 16 != 0 {
      CbcEncrypt(key, user, iv, ivat, inp, at, inlen / 16, out, to);
      ghost var mid := out[..];
      EncryptOneMore(key, user, v, c, block, out, to, whole, was);
    } else {
      assert front == [] && block[0..16] == last;
      CbcEncrypt(key, user, iv, ivat, block, 0, 1, out, to);
      NoBlocks(user, v);
      assert c + CbcEncrypted(user, v, last) == CbcEncrypted(user, v, last);
    }
    outlen := inlen - rem + 16;
  }

  lemma EncryptedInTwo(user: seq<byte>, v: Block, front: seq<byte>, last: Block)
    requires KeySize(|user|) && |front| % 16 == 0
    ensures CbcEncrypted(user, v, front + last)
      == CbcEncrypted(user, v, front) + CbcEncrypted(user, Chain(v, CbcEncrypted(user, v, front)), last)
  {
    hide Encrypt, XorBytes, CbcEncrypted, Chain;
    CbcLastBlock(user, v, front, last);
    FirstBlock(user, Chain(v, CbcEncrypted(user, v, front)), last);
  }

  /** The last block, chained to the ciphertext c that is already in out */
  method EncryptOneMore(key: AesKey, ghost user: seq<byte>, ghost v: Block, ghost c: seq<byte>, block: array<byte>,
                        out: array<byte>, to: nat, whole: nat, ghost was: seq<byte>)
    requires key.Encrypts(user) && block.Length == 16 && block != out && |c| == whole && 16 <= whole && whole % 16 == 0
    requires to + whole + 16 <= out.Length && Written(was, out[..], to, c)
    modifies out
    ensures Written(was, out[..], to, c + CbcEncrypted(user, Chain(v, c), block[..]))
  {
    hide Encrypt, EncryptKeys, XorBytes, CbcEncrypted, CbcDecrypted, Chain, Written;
    ghost var mid := out[..];
    ReadBack(was, mid, to, c);
    ChainIs(v, c);
    SliceOfSlice(mid, to, whole, whole - 16, whole);
    assert out[to + whole - 16..to + whole] == c[whole - 16..] && block[0..16] == block[..];
    CbcEncrypt(key, user, out, to + whole - 16, block, 0, 1, out, to + whole);
    WriteMore(was, mid, out[..], to, c, CbcEncrypted(user, Chain(v, c), block[..]));
  }

  /** The bytes behind the last whole block, and the padding. */
  method LastBlock(inp: array<byte>, at: nat, inlen: nat) returns (block: array<byte>)
    requires at + inlen <= inp.Length
    ensures fresh(block) && block.Length == 16
    ensures Padded(inp[at..at + inlen]) == inp[at..at + inlen][..inlen - inlen % 16] + block[..]
  {
    var rem, padding := inlen % 16, 16 - inlen % 16;
    block := new byte[16](_ => Zeros(8));
    hide OfNum, Padded;
    forall k | 0 <= k < rem { block[k] := inp[at + inlen - rem + k]; }
    forall k | rem <= k < 16 { block[k] := OfNum(padding, 8); }
    LastBlockIs(inp[..], at, inlen, rem, block[..]);
    assert inp[..][at..at + inlen] == inp[at..at + inlen];
  }

  lemma LastBlockIs(s: seq<byte>, at: nat, inlen: nat, rem: nat, block: seq<byte>)
    requires at + inlen <= |s| && |block| == 16 && rem == inlen % 16
    requires forall k :: 0 <= k < rem ==> block[k] == s[at + inlen - rem + k]
    requires forall k :: rem <= k < 16 ==> block[k] == OfNum(16 - rem, 8)
    ensures Padded(s[at..at + inlen]) == s[at..at + inlen][..inlen - rem] + block
  {
    hide OfNum;
    var text, padding := s[at..at + inlen], seq(16 - rem, _ => OfNum(16 - rem, 8));
    assert text[inlen - rem..] == block[..rem];
    assert block == block[..rem] + padding;
    PaddedTwice(text, inlen - rem, padding);
  }

  lemma PaddedTwice(text: seq<byte>, n: nat, padding: seq<byte>)
    requires n <= |text|
    ensures text + padding == text[..n] + (text[n..] + padding)
  {
  }

  lemma PaddingChoice(user: seq<byte>, v: Block, text: seq<byte>, p: seq<byte>, block: Block)
    requires KeySize(|user|) && text != [] && |text| % 16 == 0 && CbcDecrypted(user, v, text) == p + block
    ensures var n := Num(block[15]);
      PaddingDecrypted(user, v, text) == if n < 1 || n > 16 then Rejected else Plain(p + block[..16 - n])
  {
    hide CbcDecrypted, Num;
    var n := Num(block[15]);
    assert (p + block)[|p + block| - 1] == block[15];
    if 1 <= n <= 16 { assert (p + block)[..|p + block| - n] == p + block[..16 - n]; }
  }

  lemma PaddingImpossible(user: seq<byte>, v: Block, text: seq<byte>)
    requires KeySize(|user|)
    ensures text == [] ==> PaddingDecrypted(user, v, text) == Nothing
    ensures |text| % 16 != 0 ==> PaddingDecrypted(user, v, text) == Rejected
  {
  }

  /** A text is decrypted in two parts: n blocks, and the last one chained to them. */
  lemma DecryptedInTwo(user: seq<byte>, v: Block, text: seq<byte>, n: nat)
    requires KeySize(|user|) && |text| == 16 * n + 16
    ensures |text[..16 * n]| % 16 == 0 && |text| % 16 == 0
    ensures CbcDecrypted(user, v, text)
      == CbcDecrypted(user, v, text[..16 * n]) + CbcDecrypted(user, Chain(v, text[..16 * n]), text[16 * n..])
  {
    hide Decrypt, XorBytes, CbcDecrypted, Chain;
    TwoDecrypted(user, v, text[..16 * n], text[16 * n..]);
    assert text == text[..16 * n] + text[16 * n..];
  }

  lemma TwoDecrypted(user: seq<byte>, v: Block, front: seq<byte>, last: Block)
    requires KeySize(|user|) && |front| % 16 == 0
    ensures CbcDecrypted(user, v, front + last) == CbcDecrypted(user, v, front) + CbcDecrypted(user, Chain(v, front),
      last)
  {
    hide Decrypt, XorBytes, CbcDecrypted, Chain;
    CbcLastBlock(user, v, front, last);
    FirstBlock(user, Chain(v, front), last);
  }

  lemma SliceInTwo(s: seq<byte>, at: nat, n: nat)
    requires at + 16 * n + 16 <= |s|
    ensures var text := s[at..at + 16 * n + 16];
      s[at..at + 16 * n] == text[..16 * n] && s[at + 16 * n..at + 16 * n + 16] == text[16 * n..]
  {
  }

  /** The part of aes_cbc_padding_decrypt that decrypts: all blocks but the last into out, the last one
      into a buffer of its own. */
  method DecryptBlocks(key: AesKey, ghost user: seq<byte>, iv: array<byte>, ivat: nat,
                       inp: array<byte>, at: nat, n: nat, out: array<byte>, to: nat)
    returns (block: array<byte>, ghost p: seq<byte>)
    requires key.Decrypts(user)
    requires ivat + 16 <= iv.Length && at + 16 * n + 16 <= inp.Length && to + 16 * n + 16 <= out.Length
    requires inp != out && iv != out
    modifies out
    ensures fresh(block) && block.Length == 16 && |p| == 16 * n && Written(old(out[..]), out[..], to, p)
    ensures CbcDecrypted(user, iv[ivat..ivat + 16], inp[at..at + 16 * n + 16]) == p + block[..]
  {
    hide Decrypt, DecryptKeys, XorBytes, CbcEncrypted, CbcDecrypted, Chain, Written;
    ghost var v, was, text := iv[ivat..ivat + 16], out[..], inp[at..at + 16 * n + 16];
    SliceInTwo(inp[..], at, n);
    ghost var front, last := inp[at..at + 16 * n], inp[at + 16 * n..at + 16 * n + 16];
    assert front == text[..16 * n] && last == text[16 * n..];
    DecryptedInTwo(user, v, text, n);
    p := CbcDecrypted(user, v, front);
    block := DecryptOne(key, user, iv, ivat, inp, at, n);
    if n > 0 {
      CbcDecrypt(key, user, iv, ivat, inp, at, n, out, to);
    } else {
      NoBlocks(user, v);
      assert front == [];
      WriteNothing(was, to);
    }
  }

  /** The block behind n blocks, decrypted into a buffer of its own */
  method DecryptOne(key: AesKey, ghost user: seq<byte>, iv: array<byte>, ivat: nat, inp: array<byte>, at: nat, n: nat)
    returns (block: array<byte>)
    requires key.Decrypts(user) && ivat + 16 <= iv.Length && at + 16 * n + 16 <= inp.Length
    ensures fresh(block) && block.Length == 16
    ensures var v := Chain(iv[ivat..ivat + 16], inp[at..at + 16 * n]);
      block[..] == CbcDecrypted(user, v, inp[at + 16 * n..at + 16 * n + 16])
  {
    hide Decrypt, DecryptKeys, XorBytes, CbcEncrypted, CbcDecrypted, Written;
    block := new byte[16](_ => Zeros(8));
    var chain, chainat: nat := iv, ivat;
    if n > 0 {
      chain, chainat := inp, at + 16 * n - 16;
      assert inp[at..at + 16 * n][16 * n - 16..] == inp[chainat..chainat + 16];
    }
    ghost var before := block[..];
    CbcDecrypt(key, user, chain, chainat, inp, at + 16 * n, 1, block, 0);
    assert inp[at + 16 * n..at + 16 * n + 16 * 1] == inp[at + 16 * n..at + 16 * n + 16];
    ReadBack(before, block[..], 0,
      CbcDecrypted(user, chain[chainat..chainat + 16], inp[at + 16 * n..at + 16 * n + 16]));
    assert block[..] == block[..][0..16];
  }

  /** aes_cbc_padding_decrypt: 1 with the length of the text, 0 for no input, -1 for a length or a
      padding that cannot be right. */
  method CbcPaddingDecrypt(key: AesKey, ghost user: seq<byte>, iv: array<byte>, ivat: nat,
                           inp: array<byte>, at: nat, inlen: nat, out: array<byte>, to: nat)
    returns (ret: int, outlen: nat)
    requires key.Decrypts(user)
    requires ivat + 16 <= iv.Length && at + inlen <= inp.Length && to + inlen <= out.Length
    requires inp != out && iv != out
    modifies out
    ensures var r := PaddingDecrypted(user, iv[ivat..ivat + 16], inp[at..at + inlen]);
      && ret == (if r.Nothing? then 0 else if r.Rejected? then -1 else 1)
      && (r.Plain? ==> outlen == |r.text| && Written(old(out[..]), out[..], to, r.text))
  {
    hide CbcDecrypted, Num, Written, PaddingDecrypted;
    ghost var v, was, text := iv[ivat..ivat + 16], out[..], inp[at..at + inlen];
    PaddingImpossible(user, v, text);
    if inlen == 0 { return 0, 0; }
    if inlen % 16 != 0 || inlen < 16 { return -1, 0; }
    assert inlen == 16 * (inlen / 16 - 1) + 16;
    var block, p := DecryptBlocks(key, user, iv, ivat, inp, at, inlen / 16 - 1, out, to);
    PaddingChoice(user, v, text, p, block[..]);
    var padding := Num(block[15]);
    if padding < 1 || padding > 16 { return -1, 0; }
    var len := 16 - padding;
    ghost var mid := out[..];
    CopyFront(block, len, out, to + inlen - 16);
    WriteMore(was, mid, out[..], to, p, block[..len]);
    ret, outlen := 1, inlen - padding;
  }

  /** memcpy */
  method CopyFront(block: array<byte>, len: nat, out: array<byte>, to: nat)
    requires len <= block.Length && to + len <= out.Length && block != out
    modifies out
    ensures Written(old(out[..]), out[..], to, block[..len])
  {
    hide Written;
    ghost var was := out[..];
    forall k | 0 <= k < len { out[to + k] := block[k]; }
    WrittenIs(was, out[..], to, block[..len]);
  }

  // ----- CTR and GCM -----

  /** ctr_incr */
  method CtrIncr(a: array<byte>)
    requires a.Length == 16
    modifies a
    ensures a[..] == Increment(old(a[..]), 15)
  {
    hide Num, OfNum;
    var i := 15;
    while i > 0
      invariant 0 <= i <= 15 && Increment(a[..], i) == Increment(old(a[..]), 15)
    {
      ghost var was := a[..];
      a[i] := OfNum(Num(a[i]) + 1, 8);
      assert a[..] == was[i := a[i]];
      if a[i] != Zeros(8) { return; }
      i := i - 1;
    }
  }

  lemma NoStream(user: seq<byte>, y: Block, first: nat)
    requires KeySize(|user|)
    ensures Streamed(user, y, first, []) == []
  {
  }

  lemma NextStreamed(user: seq<byte>, y: Block, first: nat, p: seq<byte>, q: seq<byte>)
    requires KeySize(|user|) && |p| % 16 == 0 && |q| <= 16
    ensures Streamed(user, y, first, p + q)
      == Streamed(user, y, first, p) + XorBytes(q, Encrypt(user, CounterBlock(y, first + |p| / 16))[..|q|])
  {
    hide Encrypt, XorBytes, CounterBlock, KeyStream;
    NextKeyBlock(user, y, first, |p|, |q|);
    XorBytesAppend(p, q, KeyStream(user, y, first, |p|), Encrypt(user, CounterBlock(y, first + |p| / 16))[..|q|]);
  }

  lemma NextStep(inlen: nat, done: nat, len: nat)
    requires done + len <= inlen && done % 16 == 0 && 0 < len && (len == 16 || (len < 16 && done + len == inlen))
    ensures (done + len) % 16 == 0 || done + len == inlen
    ensures (done + len + 15) / 16 == done / 16 + 1 && (done + 15) / 16 == done / 16
  {
  }

  /** Encrypt the counter block into block. */
  method EncryptCounter(key: AesKey, ghost user: seq<byte>, ctr: array<byte>, block: array<byte>)
    requires key.Encrypts(user) && ctr.Length == 16 == block.Length
    modifies block
    ensures block[..] == Encrypt(user, old(ctr[..]))
  {
    hide Cipher, EncryptKeys;
    assert ctr[0..16] == ctr[..];
    AesEncrypt(key, ctr, 0, block, 0);
  }

  /** One block of aes_ctr_encrypt: the counter is advanced after it is used. */
  method CtrBlock(key: AesKey, ghost user: seq<byte>, ctr: array<byte>, block: array<byte>,
                  inp: array<byte>, at: nat, len: nat, out: array<byte>, to: nat)
    requires key.Encrypts(user) && ctr.Length == 16 == block.Length && len <= 16
    requires at + len <= inp.Length && to + len <= out.Length
    requires ctr != inp && ctr != out && inp != out && block != ctr && block != inp && block != out
    modifies ctr, block, out
    ensures Written(old(out[..]), out[..], to, XorBytes(inp[at..at + len], Encrypt(user, old(ctr[..]))[..len]))
    ensures ctr[..] == Increment(old(ctr[..]), 15)
  {
    hide Encrypt, EncryptKeys, XorBytes, Increment, Written;
    EncryptCounter(key, user, ctr, block);
    MemXor(out, to, inp, at, block, 0, len);
    CtrIncr(ctr);
    assert block[0..0 + len] == block[..][..len];
  }

  /** One block of aes_gcm_encrypt and aes_gcm_decrypt: the counter is advanced before it is used. */
  method GcmBlock(key: AesKey, ghost user: seq<byte>, ctr: array<byte>, block: array<byte>,
                  inp: array<byte>, at: nat, len: nat, out: array<byte>, to: nat)
    requires key.Encrypts(user) && ctr.Length == 16 == block.Length && len <= 16
    requires at + len <= inp.Length && to + len <= out.Length
    requires ctr != inp && ctr != out && inp != out && block != ctr && block != inp && block != out
    modifies ctr, block, out
    ensures Written(old(out[..]), out[..], to,
      XorBytes(inp[at..at + len], Encrypt(user, Increment(old(ctr[..]), 15))[..len]))
    ensures ctr[..] == Increment(old(ctr[..]), 15)
  {
    hide Encrypt, EncryptKeys, XorBytes, Increment, Written;
    CtrIncr(ctr);
    EncryptCounter(key, user, ctr, block);
    MemXor(out, to, inp, at, block, 0, len);
    assert block[0..0 + len] == block[..][..len];
  }

  /** What one more block adds to the text written so far. */
  lemma StreamAdvances(user: seq<byte>, y: Block, first: nat, text: seq<byte>, done: nat, len: nat,
                       was: seq<byte>, mid: seq<byte>, now: seq<byte>, to: nat)
    requires KeySize(|user|) && done % 16 == 0 && len <= 16 && done + len <= |text|
    requires Written(was, mid, to, Streamed(user, y, first, text[..done]))
    requires Written(mid, now, to + done,
      XorBytes(text[done..done + len], Encrypt(user, CounterBlock(y, first + done / 16))[..len]))
    ensures Written(was, now, to, Streamed(user, y, first, text[..done + len]))
  {
    hide Encrypt, XorBytes, CounterBlock, Streamed, Written;
    NextStreamed(user, y, first, text[..done], text[done..done + len]);
    assert text[..done + len] == text[..done] + text[done..done + len];
    WriteMore(was, mid, now, to, Streamed(user, y, first, text[..done]),
      XorBytes(text[done..done + len], Encrypt(user, CounterBlock(y, first + done / 16))[..len]));
  }

  /** aes_ctr_encrypt: text block j is added to the encrypted start counter plus j, and the counter
      is left after the last block used. */
  method CtrEncrypt(key: AesKey, ghost user: seq<byte>, ctr: array<byte>,
                    inp: array<byte>, at: nat, inlen: nat, out: array<byte>, to: nat)
    requires key.Encrypts(user) && ctr.Length == 16
    requires at + inlen <= inp.Length && to + inlen <= out.Length
    requires ctr != inp && ctr != out && inp != out
    modifies ctr, out
    ensures Written(old(out[..]), out[..], to, Streamed(user, old(ctr[..]), 0, inp[at..at + inlen]))
    ensures ctr[..] == CounterBlock(old(ctr[..]), (inlen + 15) / 16)
  {
    hide Encrypt, EncryptKeys, XorBytes, Increment, CounterBlock, Streamed, Written;
    ghost var was, y, text := out[..], ctr[..], inp[at..at + inlen];
    assert text[..0] == [];
    var block := new byte[16](_ => Zeros(8));
    var done := 0;
    CounterSteps(y, 0);
    NoStream(user, y, 0);
    WriteNothing(was, to);
    while done < inlen
      invariant done <= inlen && (done % 16 == 0 || done == inlen)
      invariant ctr[..] == CounterBlock(y, (done + 15) / 16)
      invariant Written(was, out[..], to, Streamed(user, y, 0, text[..done]))
    {
      var len := if inlen - done < 16 then inlen - done else 16;
      ghost var mid := out[..];
      SliceOfSlice(inp[..], at, inlen, done, done + len);
      assert inp[..][at..at + inlen] == text && inp[at + done..at + done + len] == text[done..done + len];
      NextStep(inlen, done, len);
      CounterSteps(y, done / 16);
      CtrBlock(key, user, ctr, block, inp, at + done, len, out, to + done);
      StreamAdvances(user, y, 0, text, done, len, was, mid, out[..], to);
      done := done + len;
    }
    assert text[..inlen] == text;
  }

  /** The loop of aes_gcm_encrypt and aes_gcm_decrypt. */
  method GcmStream(key: AesKey, ghost user: seq<byte>, ctr: array<byte>,
                   inp: array<byte>, inlen: nat, out: array<byte>)
    requires key.Encrypts(user) && ctr.Length == 16
    requires inlen <= inp.Length && inlen <= out.Length
    requires ctr != inp && ctr != out && inp != out
    modifies ctr, out
    ensures Written(old(out[..]), out[..], 0, Streamed(user, old(ctr[..]), 1, inp[..inlen]))
  {
    hide Encrypt, EncryptKeys, XorBytes, Increment, CounterBlock, Streamed, Written;
    ghost var was, y, text := out[..], ctr[..], inp[..inlen];
    assert text[..0] == [];
    var block := new byte[16](_ => Zeros(8));
    var done, left := 0, inlen;
    CounterSteps(y, 0);
    NoStream(user, y, 1);
    WriteNothing(was, 0);
    while left != 0
      invariant done + left == inlen && (done % 16 == 0 || left == 0)
      invariant ctr[..] == CounterBlock(y, (done + 15) / 16)
      invariant Written(was, out[..], 0, Streamed(user, y, 1, text[..done]))
    {
      var len := if left < 16 then left else 16;
      ghost var mid := out[..];
      assert inp[done..done + len] == text[done..done + len];
      NextStep(inlen, done, len);
      CounterSteps(y, done / 16);
      GcmBlock(key, user, ctr, block, inp, done, len, out, done);
      StreamAdvances(user, y, 1, text, done, len, was, mid, out[..], 0);
      done := done + len;
      left := left - len;
    }
    assert text[..inlen] == text;
  }

  /** H and the first counter block of GCM, in buffers of their own. */
  method GcmStart(key: AesKey, ghost user: seq<byte>, iv: seq<byte>) returns (h: array<byte>, y: array<byte>)
    requires key.Encrypts(user)
    ensures fresh(h) && fresh(y) && h != y && h.Length == 16 && y.Length == 16
    ensures h[..] == HashKey(user) && y[..] == FirstCounter(user, iv)
  {
    hide Encrypt, GhashOf, ToBits, OfNum;
    h := new byte[16](_ => Zeros(8));
    y := new byte[16](_ => Zeros(8));
    assert h[..] == ZeroBytes(16);
    EncryptCounter(key, user, h, h);
    if |iv| == 12 {
      forall k | 0 <= k < 12 { y[k] := iv[k]; }
      y[12], y[13], y[14] := Zeros(8), Zeros(8), Zeros(8);
      y[15] := OfNum(1, 8);
      assert y[..] == iv + ZeroBytes(3) + [OfNum(1, 8)];
    } else {
      GhashInto(h, [], iv, y);
    }
  }

  /** aes_gcm_encrypt: the last ghash has the hash key and the result in one array. */
  method GcmEncrypt(key: AesKey, ghost user: seq<byte>, iv: seq<byte>, aad: seq<byte>,
                    inp: array<byte>, inlen: nat, out: array<byte>, taglen: nat, tag: array<byte>)
    requires key.Encrypts(user) && taglen <= 16
    requires inlen <= inp.Length && inlen <= out.Length && taglen <= tag.Length
    requires inp != out && tag != out
    modifies out, tag
    ensures var c := GcmCiphertext(user, iv, old(inp[..inlen]));
      && Written(old(out[..]), out[..], 0, c)
      && Written(old(tag[..]), tag[..], 0, GcmTag(user, iv, aad, c, taglen))
  {
    hide Encrypt, EncryptKeys, HashKey, FirstCounter, GhashOf, XorBytes, Streamed, Written;
    ghost var was, p := out[..], inp[..inlen];
    var h, y := GcmStart(key, user, iv);
    var t := new byte[16](_ => Zeros(8));
    EncryptCounter(key, user, y, t);
    GcmStream(key, user, y, inp, inlen, out);
    ghost var c := GcmCiphertext(user, iv, p);
    ReadBack(was, out[..], 0, c);
    assert out[..inlen] == c by { assert out[..inlen] == out[..][0..inlen]; }
    GhashInto(h, aad, out[..inlen], h);
    MemXor(tag, 0, t, 0, h, 0, taglen);
    TagIs(user, iv, aad, c, taglen, t[..], h[..]);
    assert t[0..0 + taglen] == t[..][..taglen] && h[0..0 + taglen] == h[..][..taglen];
  }

  lemma TagIs(user: seq<byte>, iv: seq<byte>, aad: seq<byte>, c: seq<byte>, taglen: nat, t: Block, h: Block)
    requires KeySize(|user|) && taglen <= 16
    requires t == Encrypt(user, FirstCounter(user, iv)) && h == GhashOf(HashKey(user), aad, c)
    ensures GcmTag(user, iv, aad, c, taglen) == XorBytes(t[..taglen], h[..taglen])
  {
    hide Encrypt, FirstCounter, HashKey, GhashOf, Xor;
  }

  /** aes_gcm_decrypt: nothing is written unless the tag is right. */
  method GcmDecrypt(key: AesKey, ghost user: seq<byte>, iv: seq<byte>, aad: seq<byte>,
                    inp: array<byte>, inlen: nat, tag: array<byte>, taglen: nat, out: array<byte>) returns (ret: int)
    requires key.Encrypts(user) && taglen <= 16
    requires inlen <= inp.Length && inlen <= out.Length && taglen <= tag.Length
    requires inp != out
    modifies out
    ensures var r := GcmDecrypted(user, iv, aad, inp[..inlen], old(tag[..taglen]));
      if r.Plain? then ret == 1 && Written(old(out[..]), out[..], 0, r.text) else ret == -1 && out[..] == old(out[..])
  {
    hide Encrypt, EncryptKeys, HashKey, FirstCounter, GhashOf, XorBytes, Streamed, Written;
    ghost var c := inp[..inlen];
    var h, y := GcmStart(key, user, iv);
    var t := new byte[16](_ => Zeros(8));
    GhashInto(h, aad, inp[..inlen], h);
    EncryptCounter(key, user, y, t);
    TagIs(user, iv, aad, c, taglen, t[..], h[..]);
    assert t[0..0 + taglen] == t[..][..taglen] && h[0..0 + taglen] == h[..][..taglen];
    ghost var before := t[..];
    MemXor(t, 0, t, 0, h, 0, taglen);
    ReadBack(before, t[..], 0, GcmTag(user, iv, aad, c, taglen));
    assert t[..taglen] == t[..][0..0 + taglen];
    if t[..taglen] != tag[..taglen] { return -1; }
    GcmStream(key, user, y, inp, inlen, out);
    ret := 1;
  }
}
