/** The round steps of aes.c on a 4 x 4 state kept row by row, the two ciphers and the key schedules. */
module AesCipher {
  import opened AesField
  import opened Bytes
  import opened Gf2Polynomials

  /** uint32_t as its four bytes, b0 the most significant one. */
  datatype word = Word(b0: byte, b1: byte, b2: byte, b3: byte)

  type Block = s: seq<byte> | |s| == 16 witness seq(16, _ => Zeros(8))

  function XorWord(v: word, w: word): word {
    Word(Xor(v.b0, w.b0), Xor(v.b1, w.b1), Xor(v.b2, w.b2), Xor(v.b3, w.b3))
  }

  /** (w >> (24 - 8 * r)) & 0xff */
  function Part(w: word, r: nat): byte {
    match r case 0 => w.b0 case 1 => w.b1 case 2 => w.b2 case _ => w.b3
  }

  // ----- the round steps: cell r, c of the state is at 4 * r + c -----

  function AddKey(s: Block, w: seq<word>): Block
    requires |w| == 4
  {
    seq(16, k requires 0 <= k < 16 => Xor(s[k], Part(w[k % 4], k / 4)))
  }

  function SubBytes(s: Block): Block { seq(16, k requires 0 <= k < 16 => SBox(s[k])) }

  function InvSubBytes(s: Block): Block { seq(16, k requires 0 <= k < 16 => InvSBox(s[k])) }

  /** Row r is rotated left by r cells: the cell each cell is taken from. */
  function ShiftFrom(k: nat): (j: nat)
    ensures j < 16
  {
    match k
    case 0 => 0 case 1 => 1 case 2 => 2 case 3 => 3 case 4 => 5 case 5 => 6 case 6 => 7 case 7 => 4
    case 8 => 10 case 9 => 11 case 10 => 8 case 11 => 9 case 12 => 15 case 13 => 12 case 14 => 13 case _ => 14
  }

  function UnshiftFrom(k: nat): (j: nat)
    ensures j < 16
  {
    match k
    case 0 => 0 case 1 => 1 case 2 => 2 case 3 => 3 case 4 => 7 case 5 => 4 case 6 => 5 case 7 => 6
    case 8 => 10 case 9 => 11 case 10 => 8 case 11 => 9 case 12 => 13 case 13 => 14 case 14 => 15 case _ => 12
  }

  function ShiftRows(s: Block): Block { seq(16, k requires 0 <= k < 16 => s[ShiftFrom(k)]) }

  function InvShiftRows(s: Block): Block { seq(16, k requires 0 <= k < 16 => s[UnshiftFrom(k)]) }

  /** The cell i rows below cell k, cyclically. */
  function Below(k: nat, i: nat): (j: nat)
    requires k < 16 && i < 4
    ensures j < 16
  {
    if k + 4 * i < 16 then k + 4 * i else k + 4 * i - 16
  }

  /** Every column times the circulant matrix of 2 3 1 1. */
  function MixColumns(s: Block): Block {
    seq(16, k requires 0 <= k < 16 => MixCell(s[k], s[Below(k, 1)], s[Below(k, 2)], s[Below(k, 3)]))
  }

  /** Every column times the circulant matrix of e b d 9. */
  function InvMixColumns(s: Block): Block {
    seq(16, k requires 0 <= k < 16 => UnmixCell(s[k], s[Below(k, 1)], s[Below(k, 2)], s[Below(k, 3)]))
  }

  /** Bytes fill the state column by column, and leave it in the same order. */
  function ColumnFrom(k: nat): (j: nat)
    ensures j < 16
  {
    match k
    case 0 => 0 case 1 => 4 case 2 => 8 case 3 => 12 case 4 => 1 case 5 => 5 case 6 => 9 case 7 => 13
    case 8 => 2 case 9 => 6 case 10 => 10 case 11 => 14 case 12 => 3 case 13 => 7 case 14 => 11 case _ => 15
  }

  function Columns(s: Block): Block { seq(16, k requires 0 <= k < 16 => s[ColumnFrom(k)]) }

  lemma StepsInverse(s: Block, w: seq<word>)
    requires |w| == 4
    ensures AddKey(AddKey(s, w), w) == s && InvSubBytes(SubBytes(s)) == s
    ensures InvShiftRows(ShiftRows(s)) == s && Columns(Columns(s)) == s
  {
    hide AddKey, SubBytes, InvSubBytes;
    AddKeyTwice(s, w);
    SubBytesUndone(s);
    MovesUndone(s);
  }

  lemma MovesUndone(s: Block)
    ensures InvShiftRows(ShiftRows(s)) == s && Columns(Columns(s)) == s
  {
    forall k | 0 <= k < 16
      ensures InvShiftRows(ShiftRows(s))[k] == s[k] && Columns(Columns(s))[k] == s[k]
    {
      assert ShiftFrom(UnshiftFrom(k)) == k && ColumnFrom(ColumnFrom(k)) == k;
    }
  }

  lemma AddKeyTwice(s: Block, w: seq<word>)
    requires |w| == 4
    ensures AddKey(AddKey(s, w), w) == s
  {
    hide Part;
    forall k | 0 <= k < 16 ensures AddKey(AddKey(s, w), w)[k] == s[k] { XorCancels(s[k], Part(w[k % 4], k / 4)); }
  }

  lemma SubBytesUndone(s: Block)
    ensures InvSubBytes(SubBytes(s)) == s
  {
    hide SBox, InvSBox;
    forall k | 0 <= k < 16 ensures InvSubBytes(SubBytes(s))[k] == s[k] { SBoxInverse(s[k]); }
  }

  lemma MixColumnsInverse(s: Block)
    ensures InvMixColumns(MixColumns(s)) == s
  {
    hide MixCell, UnmixCell;
    var m := MixColumns(s);
    forall k | 0 <= k < 16 ensures InvMixColumns(m)[k] == s[k] { MixedCell(s, m, k); }
  }

  lemma MixedCell(s: Block, m: Block, k: nat)
    requires k < 16 && m == MixColumns(s)
    ensures UnmixCell(m[k], m[Below(k, 1)], m[Below(k, 2)], m[Below(k, 3)]) == s[k]
  {
    hide MixCell, UnmixCell;
    var p, q, r := Below(k, 1), Below(k, 2), Below(k, 3);
    assert Below(p, 1) == q && Below(p, 2) == r && Below(p, 3) == k;
    assert Below(q, 1) == r && Below(q, 2) == k && Below(q, 3) == p;
    assert Below(r, 1) == k && Below(r, 2) == p && Below(r, 3) == q;
    hide Below;
    MixInverse(s[k], s[p], s[q], s[r]);
  }

  // ----- the ciphers -----

  /** The state after the first n full rounds. */
  function Rounds(rk: seq<word>, s: Block, n: nat): Block
    requires 4 * n + 4 <= |rk|
  {
    if n == 0 then AddKey(s, rk[..4])
    else AddKey(MixColumns(ShiftRows(SubBytes(Rounds(rk, s, n - 1)))), rk[4 * n..4 * n + 4])
  }

  function InvRounds(rk: seq<word>, s: Block, n: nat): Block
    requires 4 * n + 4 <= |rk|
  {
    if n == 0 then AddKey(s, rk[..4])
    else InvMixColumns(AddKey(InvSubBytes(InvShiftRows(InvRounds(rk, s, n - 1))), rk[4 * n..4 * n + 4]))
  }

  function Cipher(rk: seq<word>, rounds: nat, block: Block): Block
    requires 1 <= rounds && 4 * rounds + 4 <= |rk|
  {
    Columns(AddKey(ShiftRows(SubBytes(Rounds(rk, Columns(block), rounds - 1))), rk[4 * rounds..4 * rounds + 4]))
  }

  function InvCipher(rk: seq<word>, rounds: nat, block: Block): Block
    requires 1 <= rounds && 4 * rounds + 4 <= |rk|
  {
    Columns(AddKey(InvSubBytes(InvShiftRows(InvRounds(rk, Columns(block), rounds - 1))),
      rk[4 * rounds..4 * rounds + 4]))
  }

  /** The round keys of dk are those of rk in the opposite order. */
  predicate Reversed(rk: seq<word>, dk: seq<word>, rounds: nat) {
    && |rk| >= 4 * rounds + 4 && |dk| >= 4 * rounds + 4
    && forall i :: 0 <= i <= rounds ==> dk[4 * i..4 * i + 4] == rk[4 * (rounds - i)..4 * (rounds - i) + 4]
  }

  /** After n rounds of decryption the state is the one encryption had after its substitution and
      row shift n rounds before the last. */
  lemma {:induction false} RoundsUndone(rk: seq<word>, dk: seq<word>, rounds: nat, s: Block, n: nat)
    requires n < rounds && Reversed(rk, dk, rounds)
    ensures var last := AddKey(ShiftRows(SubBytes(Rounds(rk, s, rounds - 1))), rk[4 * rounds..4 * rounds + 4]);
      InvRounds(dk, last, n) == ShiftRows(SubBytes(Rounds(rk, s, rounds - 1 - n)))
    decreases n
  {
    hide AddKey, SubBytes, InvSubBytes, ShiftRows, InvShiftRows, MixColumns, InvMixColumns;
    var r := rounds - n;
    var before := SubBytes(Rounds(rk, s, r - 1));
    if n == 0 {
      assert dk[..4] == dk[0..4];
      StepsInverse(ShiftRows(before), rk[4 * rounds..4 * rounds + 4]);
    } else {
      RoundsUndone(rk, dk, rounds, s, n - 1);
      var w := rk[4 * r..4 * r + 4];
      assert dk[4 * n..4 * n + 4] == w;
      var mixed := MixColumns(ShiftRows(before));
      StepsInverse(AddKey(mixed, w), w);
      StepsInverse(SubBytes(AddKey(mixed, w)), w);
      StepsInverse(mixed, w);
      MixColumnsInverse(ShiftRows(before));
    }
  }

  /** With the round keys in the opposite order, aes_decrypt undoes aes_encrypt. */
  lemma InvCipherUndoesCipher(rk: seq<word>, dk: seq<word>, rounds: nat, block: Block)
    requires 1 <= rounds && Reversed(rk, dk, rounds)
    ensures InvCipher(dk, rounds, Cipher(rk, rounds, block)) == block
  {
    hide AddKey, SubBytes, InvSubBytes, ShiftRows, InvShiftRows, Columns, Rounds, InvRounds;
    var s := Columns(block);
    var last := AddKey(ShiftRows(SubBytes(Rounds(rk, s, rounds - 1))), rk[4 * rounds..4 * rounds + 4]);
    RoundsUndone(rk, dk, rounds, s, rounds - 1);
    FirstRoundKey(rk, s);
    assert dk[4 * rounds..4 * rounds + 4]
      == rk[..4] by { assert rk[4 * (rounds - rounds)..4 * (rounds - rounds) + 4] == rk[..4]; }
    StepsInverse(last, rk[..4]);
    StepsInverse(SubBytes(AddKey(s, rk[..4])), rk[..4]);
    StepsInverse(AddKey(s, rk[..4]), rk[..4]);
    StepsInverse(s, rk[..4]);
    StepsInverse(block, rk[..4]);
  }

  lemma FirstRoundKey(rk: seq<word>, s: Block)
    requires 4 <= |rk|
    ensures Rounds(rk, s, 0) == AddKey(s, rk[..4])
  {
  }

  // ----- key schedule -----

  function RoundsFor(keylen: nat): (r: nat)
    requires keylen == 16 || keylen == 24 || keylen == 32
  {
    keylen / 4 + 6
  }

  function Rcon(i: nat): byte {
    match i
    case 0 => OfNum(0x8d, 8) case 1 => OfNum(0x01, 8) case 2 => OfNum(0x02, 8) case 3 => OfNum(0x04, 8)
    case 4 => OfNum(0x08, 8) case 5 => OfNum(0x10, 8) case 6 => OfNum(0x20, 8) case 7 => OfNum(0x40, 8)
    case 8 => OfNum(0x80, 8) case 9 => OfNum(0x1b, 8) case _ => OfNum(0x36, 8)
  }

  function SubWord(w: word): word { Word(SBox(w.b0), SBox(w.b1), SBox(w.b2), SBox(w.b3)) }

  function RotWord(w: word): word { Word(w.b1, w.b2, w.b3, w.b0) }

  predicate KeySize(n: nat) { n == 16 || n == 24 || n == 32 }

  /** Word i of the expanded key, section 5.2 of FIPS 197. */
  function KeyWord(key: seq<byte>, i: nat): word
    requires KeySize(|key|)
  {
    var nk := |key| / 4;
    if i < nk then Word(key[4 * i], key[4 * i + 1], key[4 * i + 2], key[4 * i + 3])
    else XorWord(KeyWord(key, i - nk), Mangled(KeyWord(key, i - 1), nk, i))
  }

  function Mangled(t: word, nk: nat, i: nat): word
    requires 1 <= nk
  {
    if i % nk == 0 then XorWord(SubWord(RotWord(t)), Word(Rcon(i / nk), Zeros(8), Zeros(8), Zeros(8)))
    else if nk == 8 && i % 8 == 4 then SubWord(t)
    else t
  }

  /** W of aes_set_encrypt_key. */
  function EncryptKeys(key: seq<byte>): (rk: seq<word>)
    requires KeySize(|key|)
    ensures |rk| == 4 * (RoundsFor(|key|) + 1)
  {
    seq(4 * (RoundsFor(|key|) + 1), i requires 0 <= i => KeyWord(key, i))
  }

  /** The last n round keys, the last one first. */
  function LastRoundKeys(rk: seq<word>, rounds: nat, n: nat): (dk: seq<word>)
    requires |rk| == 4 * rounds + 4 && n <= rounds + 1
    ensures |dk| == 4 * n
  {
    if n == 0 then [] else LastRoundKeys(rk, rounds, n - 1) + rk[4 * (rounds + 1 - n)..4 * (rounds + 1 - n) + 4]
  }

  /** rk of aes_set_decrypt_key: the round keys in the opposite order, each one unchanged. */
  function DecryptKeys(key: seq<byte>): (dk: seq<word>)
    requires KeySize(|key|)
    ensures |dk| == 4 * (RoundsFor(|key|) + 1)
  {
    LastRoundKeys(EncryptKeys(key), RoundsFor(|key|), RoundsFor(|key|) + 1)
  }

  lemma {:induction false} RoundKeyAt(rk: seq<word>, rounds: nat, n: nat, i: nat)
    requires |rk| == 4 * rounds + 4 && i < n <= rounds + 1
    ensures LastRoundKeys(rk, rounds, n)[4 * i..4 * i + 4] == rk[4 * (rounds - i)..4 * (rounds - i) + 4]
  {
    var front := LastRoundKeys(rk, rounds, n - 1);
    if i < n - 1 {
      RoundKeyAt(rk, rounds, n - 1, i);
      assert LastRoundKeys(rk, rounds, n)[4 * i..4 * i + 4] == front[4 * i..4 * i + 4];
    }
  }

  function Encrypt(key: seq<byte>, block: Block): Block
    requires KeySize(|key|)
  {
    Cipher(EncryptKeys(key), RoundsFor(|key|), block)
  }

  function Decrypt(key: seq<byte>, block: Block): Block
    requires KeySize(|key|)
  {
    InvCipher(DecryptKeys(key), RoundsFor(|key|), block)
  }

  lemma KeysReversed(key: seq<byte>)
    requires KeySize(|key|)
    ensures Reversed(EncryptKeys(key), DecryptKeys(key), RoundsFor(|key|))
  {
    hide EncryptKeys, LastRoundKeys;
    var r := RoundsFor(|key|);
    var rk, dk := EncryptKeys(key), DecryptKeys(key);
    forall i | 0 <= i <= r ensures dk[4 * i..4 * i + 4] == rk[4 * (r - i)..4 * (r - i) + 4] {
      RoundKeyAt(rk, r, r + 1, i);
    }
  }

  /** For every key of 16, 24 or 32 bytes decryption undoes encryption. */
  lemma DecryptUndoesEncrypt(key: seq<byte>, block: Block)
    requires KeySize(|key|)
    ensures Decrypt(key, Encrypt(key, block)) == block
  {
    hide EncryptKeys, DecryptKeys, Cipher, InvCipher, Reversed;
    KeysReversed(key);
    InvCipherUndoesCipher(EncryptKeys(key), DecryptKeys(key), RoundsFor(|key|), block);
  }

  // ----- the functions of aes.c: they change the state and the key in place -----

  predicate KeyAdded(now: Block, was: Block, w: seq<word>, c: nat)
    requires |w| == 4 && c < 4
  {
    && now[c] == Xor(was[c], w[c].b0) && now[4 + c] == Xor(was[4 + c], w[c].b1)
    && now[8 + c] == Xor(was[8 + c], w[c].b2) && now[12 + c] == Xor(was[12 + c], w[c].b3)
  }

  predicate SameColumn(now: Block, was: Block, c: nat)
    requires c < 4
  {
    now[c] == was[c] && now[4 + c] == was[4 + c] && now[8 + c] == was[8 + c] && now[12 + c] == was[12 + c]
  }

  lemma ColumnsAdded(now: Block, was: Block, w: seq<word>)
    requires |w| == 4 && forall c: nat :: c < 4 ==> KeyAdded(now, was, w, c)
    ensures now == AddKey(was, w)
  {
    hide Xor;
    forall k | 0 <= k < 16 ensures now[k] == AddKey(was, w)[k] {
      assert KeyAdded(now, was, w, k % 4);
      assert k == k / 4 * 4 + k % 4;
    }
  }

  method AddRoundKey(state: array<byte>, rk: array<word>, w: nat)
    requires state.Length == 16 && w + 4 <= rk.Length
    modifies state
    ensures state[..] == AddKey(old(state[..]), rk[w..w + 4])
  {
    hide Xor, AddKey;
    ghost var was, words := state[..], rk[w..w + 4];
    for i := 0 to 4
      invariant forall c: nat :: c < i ==> KeyAdded(state[..], was, words, c)
      invariant forall c: nat :: i <= c < 4 ==> SameColumn(state[..], was, c)
    {
      var key := rk[w + i];
      ghost var before := state[..];
      assert SameColumn(before, was, i) && key == words[i];
      state[i] := Xor(state[i], key.b0);
      state[4 + i] := Xor(state[4 + i], key.b1);
      state[8 + i] := Xor(state[8 + i], key.b2);
      state[12 + i] := Xor(state[12 + i], key.b3);
      ghost var now := state[..];
      assert forall k :: 0 <= k < 16 && k != i && k != 4 + i && k != 8 + i && k != 12 + i ==> now[k] == before[k];
      forall c: nat | c < i + 1 ensures KeyAdded(now, was, words, c) {
        if c < i { assert KeyAdded(before, was, words, c); }
      }
      forall c: nat | i + 1 <= c < 4 ensures SameColumn(now, was, c) { assert SameColumn(before, was, c); }
    }
    ColumnsAdded(state[..], was, words);
  }

  method SubBytesInPlace(state: array<byte>)
    requires state.Length == 16
    modifies state
    ensures state[..] == SubBytes(old(state[..]))
  {
    hide SBox;
    ghost var was := state[..];
    for i := 0 to 4
      invariant forall k :: 0 <= k < 16 ==> state[k] == if k < 4 * i then SBox(was[k]) else was[k]
    {
      for j := 0 to 4
        invariant forall k :: 0 <= k < 16 ==> state[k] == if k < 4 * i + j then SBox(was[k]) else was[k]
      {
        state[4 * i + j] := SBox(state[4 * i + j]);
      }
    }
  }

  method InvSubBytesInPlace(state: array<byte>)
    requires state.Length == 16
    modifies state
    ensures state[..] == InvSubBytes(old(state[..]))
  {
    hide InvSBox;
    ghost var was := state[..];
    for i := 0 to 4
      invariant forall k :: 0 <= k < 16 ==> state[k] == if k < 4 * i then InvSBox(was[k]) else was[k]
    {
      for j := 0 to 4
        invariant forall k :: 0 <= k < 16 ==> state[k] == if k < 4 * i + j then InvSBox(was[k]) else was[k]
      {
        state[4 * i + j] := InvSBox(state[4 * i + j]);
      }
    }
  }

  /** memcpy of 16 bytes */
  method CopyState(tmp: array<byte>, state: array<byte>)
    requires tmp.Length == 16 == state.Length && tmp != state
    modifies state
    ensures state[..] == tmp[..]
  {
    forall k | 0 <= k < 16 { state[k] := tmp[k]; }
  }

  /** Assign the four cells of a row of tmp, the rows before it being done. */
  method SetRow(tmp: array<byte>, at: nat, a: byte, b: byte, c: byte, d: byte)
    requires at + 4 <= tmp.Length
    modifies tmp
    ensures tmp[..at + 4] == old(tmp[..at]) + [a, b, c, d]
  {
    tmp[at] := a;
    tmp[at + 1] := b;
    tmp[at + 2] := c;
    tmp[at + 3] := d;
  }

  method ShiftRowsInPlace(state: array<byte>)
    requires state.Length == 16
    modifies state
    ensures state[..] == ShiftRows(old(state[..]))
  {
    var tmp := new byte[16];
    SetRow(tmp, 0, state[0], state[1], state[2], state[3]);
    SetRow(tmp, 4, state[5], state[6], state[7], state[4]);
    SetRow(tmp, 8, state[10], state[11], state[8], state[9]);
    SetRow(tmp, 12, state[15], state[12], state[13], state[14]);
    forall k | 0 <= k < 16 ensures tmp[k] == ShiftRows(state[..])[k] {
      if k < 4 { assert tmp[k] == tmp[..4][k]; }
      else if k < 8 { assert tmp[k] == tmp[..8][4..][k - 4]; }
      else if k < 12 { assert tmp[k] == tmp[..12][8..][k - 8]; }
      else { assert tmp[k] == tmp[..16][12..][k - 12]; }
    }
    CopyState(tmp, state);
  }

  method InvShiftRowsInPlace(state: array<byte>)
    requires state.Length == 16
    modifies state
    ensures state[..] == InvShiftRows(old(state[..]))
  {
    var tmp := new byte[16];
    SetRow(tmp, 0, state[0], state[1], state[2], state[3]);
    SetRow(tmp, 4, state[7], state[4], state[5], state[6]);
    SetRow(tmp, 8, state[10], state[11], state[8], state[9]);
    SetRow(tmp, 12, state[13], state[14], state[15], state[12]);
    forall k | 0 <= k < 16 ensures tmp[k] == InvShiftRows(state[..])[k] {
      if k < 4 { assert tmp[k] == tmp[..4][k]; }
      else if k < 8 { assert tmp[k] == tmp[..8][4..][k - 4]; }
      else if k < 12 { assert tmp[k] == tmp[..12][8..][k - 8]; }
      else { assert tmp[k] == tmp[..16][12..][k - 12]; }
    }
    CopyState(tmp, state);
  }

  /** Column c of m is column c of s times the matrix, row by row. */
  predicate Mixed(m: Block, s: Block, c: nat)
    requires c < 4
  {
    && m[c] == MixCell(s[c], s[4 + c], s[8 + c], s[12 + c])
    && m[4 + c] == MixCell(s[4 + c], s[8 + c], s[12 + c], s[c])
    && m[8 + c] == MixCell(s[8 + c], s[12 + c], s[c], s[4 + c])
    && m[12 + c] == MixCell(s[12 + c], s[c], s[4 + c], s[8 + c])
  }

  lemma MixedAll(m: Block, s: Block)
    requires forall c: nat :: c < 4 ==> Mixed(m, s, c)
    ensures m == MixColumns(s)
  {
    hide MixCell;
    forall k | 0 <= k < 16 ensures m[k] == MixColumns(s)[k] {
      assert Mixed(m, s, k % 4);
      assert k == k / 4 * 4 + k % 4;
    }
  }

  lemma MixedRows(a: byte, b: byte, c: byte, d: byte)
    ensures MixCell(a, b, c, d) == Sum4(X2(a), X3(b), c, d)
    ensures MixCell(b, c, d, a) == Sum4(a, X2(b), X3(c), d)
    ensures MixCell(c, d, a, b) == Sum4(a, b, X2(c), X3(d))
    ensures MixCell(d, a, b, c) == Sum4(X3(a), b, c, X2(d))
  {
    hide X2, X3, Sum4;
    Rotate4(a, X2(b), X3(c), d);
    Rotate4(a, b, X2(c), X3(d));
    Rotate4(b, X2(c), X3(d), a);
    Rotate4(X2(d), X3(a), b, c);
  }

  method MixColumnsInPlace(state: array<byte>)
    requires state.Length == 16
    modifies state
    ensures state[..] == MixColumns(old(state[..]))
  {
    hide X2, X3, Sum4, MixCell, MixColumns;
    var tmp := new byte[16];
    for i := 0 to 4
      invariant state[..] == old(state[..]) && forall c: nat :: c < i ==> Mixed(tmp[..], state[..], c)
    {
      ghost var before := tmp[..];
      var a, b, c, d := state[i], state[4 + i], state[8 + i], state[12 + i];
      tmp[i] := Sum4(X2(a), X3(b), c, d);
      tmp[4 + i] := Sum4(a, X2(b), X3(c), d);
      tmp[8 + i] := Sum4(a, b, X2(c), X3(d));
      tmp[12 + i] := Sum4(X3(a), b, c, X2(d));
      MixedRows(a, b, c, d);
      ghost var now := tmp[..];
      assert forall k :: 0 <= k < 16 && k != i && k != 4 + i && k != 8 + i && k != 12 + i ==> now[k] == before[k];
      forall e: nat | e < i + 1 ensures Mixed(now, state[..], e) {
        if e < i { assert Mixed(before, state[..], e); }
      }
    }
    MixedAll(tmp[..], state[..]);
    CopyState(tmp, state);
  }

  /** Column c of m is column c of s times the matrix, row by row. */
  predicate Unmixed(m: Block, s: Block, c: nat)
    requires c < 4
  {
    && m[c] == UnmixCell(s[c], s[4 + c], s[8 + c], s[12 + c])
    && m[4 + c] == UnmixCell(s[4 + c], s[8 + c], s[12 + c], s[c])
    && m[8 + c] == UnmixCell(s[8 + c], s[12 + c], s[c], s[4 + c])
    && m[12 + c] == UnmixCell(s[12 + c], s[c], s[4 + c], s[8 + c])
  }

  lemma UnmixedAll(m: Block, s: Block)
    requires forall c: nat :: c < 4 ==> Unmixed(m, s, c)
    ensures m == InvMixColumns(s)
  {
    hide UnmixCell;
    forall k | 0 <= k < 16 ensures m[k] == InvMixColumns(s)[k] {
      assert Unmixed(m, s, k % 4);
      assert k == k / 4 * 4 + k % 4;
    }
  }

  lemma UnmixedRows(a: byte, b: byte, c: byte, d: byte)
    ensures UnmixCell(a, b, c, d) == Sum4(XE(a), XB(b), XD(c), X9(d))
    ensures UnmixCell(b, c, d, a) == Sum4(X9(a), XE(b), XB(c), XD(d))
    ensures UnmixCell(c, d, a, b) == Sum4(XD(a), X9(b), XE(c), XB(d))
    ensures UnmixCell(d, a, b, c) == Sum4(XB(a), XD(b), X9(c), XE(d))
  {
    hide XE, XB, XD, X9, Sum4;
    Rotate4(X9(a), XE(b), XB(c), XD(d));
    Rotate4(XD(a), X9(b), XE(c), XB(d));
    Rotate4(X9(b), XE(c), XB(d), XD(a));
    Rotate4(XE(d), XB(a), XD(b), X9(c));
  }

  method InvMixColumnsInPlace(state: array<byte>)
    requires state.Length == 16
    modifies state
    ensures state[..] == InvMixColumns(old(state[..]))
  {
    hide XE, XB, XD, X9, Sum4, UnmixCell, InvMixColumns;
    var tmp := new byte[16];
    for i := 0 to 4
      invariant state[..] == old(state[..]) && forall c: nat :: c < i ==> Unmixed(tmp[..], state[..], c)
    {
      ghost var before := tmp[..];
      var a, b, c, d := state[i], state[4 + i], state[8 + i], state[12 + i];
      tmp[i] := Sum4(XE(a), XB(b), XD(c), X9(d));
      tmp[4 + i] := Sum4(X9(a), XE(b), XB(c), XD(d));
      tmp[8 + i] := Sum4(XD(a), X9(b), XE(c), XB(d));
      tmp[12 + i] := Sum4(XB(a), XD(b), X9(c), XE(d));
      UnmixedRows(a, b, c, d);
      ghost var now := tmp[..];
      assert forall k :: 0 <= k < 16 && k != i && k != 4 + i && k != 8 + i && k != 12 + i ==> now[k] == before[k];
      forall e: nat | e < i + 1 ensures Unmixed(now, state[..], e) {
        if e < i { assert Unmixed(before, state[..], e); }
      }
    }
    UnmixedAll(tmp[..], state[..]);
    CopyState(tmp, state);
  }

  /** AES_KEY */
  class AesKey {
    var rk: array<word>
    var rounds: nat

    constructor ()
      ensures fresh(rk) && rk.Length == 60
    {
      rk := new word[60];
      rounds := 0;
    }

    ghost predicate Valid()
      reads this
    {
      rk.Length == 60
    }

    /** This key holds the expanded encryption key of key. */
    ghost predicate Encrypts(key: seq<byte>)
      reads this, rk
    {
      Valid() && KeySize(|key|) && rounds == RoundsFor(|key|) && rk[..4 * rounds + 4] == EncryptKeys(key)
    }

    ghost predicate Decrypts(key: seq<byte>)
      reads this, rk
    {
      Valid() && KeySize(|key|) && rounds == RoundsFor(|key|) && rk[..4 * rounds + 4] == DecryptKeys(key)
    }

    /** aes_set_encrypt_key: 0 for any other key length. */
    method SetEncryptKey(key: seq<byte>) returns (ret: int)
      requires Valid()
      modifies this`rounds, rk
      ensures ret == if KeySize(|key|) then 1 else 0
      ensures ret == 1 ==> Encrypts(key)
      ensures ret == 0 ==> rounds == old(rounds) && rk[..] == old(rk[..])
    {
      hide KeyWord, Mangled, XorWord, SubWord, RotWord, Rcon, Zeros;
      var nk := |key| / 4;
      match |key| {
        case 16 => rounds := 10;
        case 24 => rounds := 12;
        case 32 => rounds := 14;
        case _ => return 0;
      }
      for i := 0 to nk
        invariant rounds == RoundsFor(|key|)
        invariant forall j :: 0 <= j < i ==> rk[j] == KeyWord(key, j)
      {
        rk[i] := Word(key[4 * i], key[4 * i + 1], key[4 * i + 2], key[4 * i + 3]);
        KeyWordIs(key, i);
      }
      var r := rounds;
      for i := nk to 4 * (r + 1)
        invariant rounds == r
        invariant forall j :: 0 <= j < i ==> rk[j] == KeyWord(key, j)
      {
        var t := rk[i - 1];
        if i % nk == 0 {
          t := RotWord(t);
          t := SubWord(t);
          t := XorWord(t, Word(Rcon(i / nk), Zeros(8), Zeros(8), Zeros(8)));
        } else if nk == 8 && i % 8 == 4 {
          t := SubWord(t);
        }
        MangledIs(rk[i - 1], nk, i);
        KeyWordIs(key, i);
        rk[i] := XorWord(rk[i - nk], t);
      }
      return 1;
    }

    /** aes_set_decrypt_key */
    method SetDecryptKey(key: seq<byte>) returns (ret: int)
      requires Valid()
      modifies this`rounds, rk
      ensures ret == if KeySize(|key|) then 1 else 0
      ensures ret == 1 ==> Decrypts(key)
      ensures ret == 0 ==> rounds == old(rounds) && rk[..] == old(rk[..])
    {
      hide EncryptKeys;
      var enc := new AesKey();
      ret := enc.SetEncryptKey(key);
      if ret == 0 { return; }
      var r := enc.rounds;
      ghost var keys := EncryptKeys(key);
      assert r <= 14 && r == RoundsFor(|key|) && |keys| == 4 * r + 4;
      for i := 0 to r + 1
        invariant enc.rk.Length == rk.Length == 60 && enc.rk != rk && enc.rk[..4 * r + 4] == keys
        invariant rk[..4 * i] == LastRoundKeys(keys, r, i)
      {
        assert enc.rk[4 * (r - i)..4 * (r - i) + 4] == keys[4 * (r - i)..4 * (r - i) + 4];
        CopyRoundKey(enc.rk, 4 * (r - i), rk, 4 * i);
      }
      rounds := r;
      return 1;
    }
  }

  method CopyRoundKey(source: array<word>, at: nat, target: array<word>, to: nat)
    requires at + 4 <= source.Length && to + 4 <= target.Length && source != target
    modifies target
    ensures target[..to + 4] == old(target[..to]) + source[at..at + 4]
  {
    target[to] := source[at];
    target[to + 1] := source[at + 1];
    target[to + 2] := source[at + 2];
    target[to + 3] := source[at + 3];
  }

  lemma KeyWordIs(key: seq<byte>, i: nat)
    requires KeySize(|key|)
    ensures var nk := |key| / 4;
      KeyWord(key, i) == if i < nk then Word(key[4 * i], key[4 * i + 1], key[4 * i + 2], key[4 * i + 3])
        else XorWord(KeyWord(key, i - nk), Mangled(KeyWord(key, i - 1), nk, i))
  {
  }

  lemma MangledIs(t: word, nk: nat, i: nat)
    requires 1 <= nk
    ensures Mangled(t, nk, i)
      == if i % nk == 0 then XorWord(SubWord(RotWord(t)), Word(Rcon(i / nk), Zeros(8), Zeros(8), Zeros(8)))
        else if nk == 8 && i % 8 == 4 then SubWord(t) else t
  {
  }

  /** Fill the state from 16 bytes, column by column. */
  method LoadState(inp: array<byte>, at: nat) returns (state: array<byte>)
    requires at + 16 <= inp.Length
    ensures fresh(state) && state.Length == 16 && state[..] == Columns(inp[at..at + 16])
  {
    state := new byte[16];
    for i := 0 to 4
      invariant forall k :: 0 <= k < 16 && k % 4 < i ==> state[k] == inp[at + ColumnFrom(k)]
    {
      state[i] := inp[at + 4 * i];
      state[4 + i] := inp[at + 4 * i + 1];
      state[8 + i] := inp[at + 4 * i + 2];
      state[12 + i] := inp[at + 4 * i + 3];
    }
  }

  method StoreState(state: array<byte>, out: array<byte>, to: nat)
    requires state.Length == 16 && to + 16 <= out.Length && state != out
    modifies out
    ensures out[..] == old(out[..to]) + Columns(state[..]) + old(out[to + 16..])
  {
    ghost var was := out[..];
    for i := 0 to 4
      invariant forall k :: 0 <= k < 16 ==> out[to + k] == if k < 4 * i then state[ColumnFrom(k)] else was[to + k]
      invariant forall k :: 0 <= k < out.Length && !(to <= k < to + 16) ==> out[k] == was[k]
    {
      out[to + 4 * i] := state[i];
      out[to + 4 * i + 1] := state[4 + i];
      out[to + 4 * i + 2] := state[8 + i];
      out[to + 4 * i + 3] := state[12 + i];
    }
    forall k | 0 <= k < out.Length
      ensures out[k] == (was[..to] + Columns(state[..]) + was[to + 16..])[k]
    {
      if to <= k < to + 16 { assert k == to + (k - to); }
    }
  }

  /** aes_encrypt: 16 bytes of inp at `at` to out at `to`; the two buffers may be one. */
  method AesEncrypt(key: AesKey, inp: array<byte>, at: nat, out: array<byte>, to: nat)
    requires key.Valid() && 1 <= key.rounds <= 14
    requires at + 16 <= inp.Length && to + 16 <= out.Length
    modifies out
    ensures out[..] == old(out[..to]) + Cipher(key.rk[..4 * key.rounds + 4], key.rounds,
      old(inp[at..at + 16])) + old(out[to + 16..])
  {
    hide AddKey, SubBytes, ShiftRows, MixColumns, Columns;
    ghost var rk := key.rk[..4 * key.rounds + 4];
    var state := LoadState(inp, at);
    ghost var s := state[..];
    AddRoundKey(state, key.rk, 0);
    assert key.rk[0..4] == rk[..4];
    for i := 1 to key.rounds
      invariant out[..] == old(out[..]) && state[..] == Rounds(rk, s, i - 1)
    {
      SubBytesInPlace(state);
      ShiftRowsInPlace(state);
      MixColumnsInPlace(state);
      assert key.rk[4 * i..4 * i + 4] == rk[4 * i..4 * i + 4];
      AddRoundKey(state, key.rk, 4 * i);
    }
    SubBytesInPlace(state);
    ShiftRowsInPlace(state);
    assert key.rk[4 * key.rounds..4 * key.rounds + 4] == rk[4 * key.rounds..4 * key.rounds + 4];
    AddRoundKey(state, key.rk, 4 * key.rounds);
    StoreState(state, out, to);
  }

  /** aes_decrypt */
  method AesDecrypt(key: AesKey, inp: array<byte>, at: nat, out: array<byte>, to: nat)
    requires key.Valid() && 1 <= key.rounds <= 14
    requires at + 16 <= inp.Length && to + 16 <= out.Length
    modifies out
    ensures out[..] == old(out[..to]) + InvCipher(key.rk[..4 * key.rounds + 4], key.rounds,
      old(inp[at..at + 16])) + old(out[to + 16..])
  {
    hide AddKey, InvSubBytes, InvShiftRows, InvMixColumns, Columns;
    ghost var rk := key.rk[..4 * key.rounds + 4];
    var state := LoadState(inp, at);
    ghost var s := state[..];
    AddRoundKey(state, key.rk, 0);
    assert key.rk[0..4] == rk[..4];
    for i := 1 to key.rounds
      invariant out[..] == old(out[..]) && state[..] == InvRounds(rk, s, i - 1)
    {
      InvShiftRowsInPlace(state);
      InvSubBytesInPlace(state);
      assert key.rk[4 * i..4 * i + 4] == rk[4 * i..4 * i + 4];
      AddRoundKey(state, key.rk, 4 * i);
      InvMixColumnsInPlace(state);
    }
    InvShiftRowsInPlace(state);
    InvSubBytesInPlace(state);
    assert key.rk[4 * key.rounds..4 * key.rounds + 4] == rk[4 * key.rounds..4 * key.rounds + 4];
    AddRoundKey(state, key.rk, 4 * key.rounds);
    StoreState(state, out, to);
  }
}
