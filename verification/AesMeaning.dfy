/** What AesCipher computes, in the terms of FIPS 197: bytes in input order, one formula a round. */
module AesMeaning {
  import opened AesCipher
  import opened AesField
  import opened Bytes
  import opened Gf2Polynomials
  import opened SBoxMeaning

  // ----- the constants of the column steps -----

  lemma ProductStep(a: byte, b: byte, k: nat)
    requires k < 8
    ensures Product8(a, b[..k + 1]) == Xor(X2(Product8(a, b[..k])), if b[k] then a else Zeros(8))
    ensures Product8(a, []) == Zeros(8)
  {
    assert b[..k + 1][..k] == b[..k];
  }

  lemma LowProduct(a: byte, b: byte)
    requires !b[0] && !b[1] && !b[2] && !b[3]
    ensures
      var s4 := if b[4] then a else Zeros(8);
      var s5 := Xor(X2(s4), if b[5] then a else Zeros(8));
      var s6 := Xor(X2(s5), if b[6] then a else Zeros(8));
      Product8(a, b) == Xor(X2(s6), if b[7] then a else Zeros(8))
  {
    hide X2, Xor, Product8;
    forall k | 0 <= k < 8
      ensures Product8(a, b[..k + 1]) == Xor(X2(Product8(a, b[..k])), if b[k] then a else Zeros(8))
    {
      ProductStep(a, b, k);
    }
    DoubleZero();
    XorZero(a);
    assert b[..8] == b && b[..0] == [];
    ProductStep(a, b, 0);
    assert Product8(a, b[..1]) == Zeros(8);
    assert Product8(a, b[..2]) == Zeros(8);
    assert Product8(a, b[..4]) == Zeros(8);
    assert Product8(a, b[..5]) == if b[4] then a else Zeros(8) by { assert Product8(a, b[..3]) == Zeros(8); }
  }

  lemma XorZero(a: byte)
    ensures Xor(a, Zeros(8)) == a == Xor(Zeros(8), a)
  {
  }

  lemma ConstantsAre(a: byte)
    ensures X2(a) == Product8(a, OfNum(2, 8)) && X3(a) == Product8(a, OfNum(3, 8))
    ensures X9(a) == Product8(a, OfNum(0x9, 8)) && XB(a) == Product8(a, OfNum(0xb, 8))
    ensures XD(a) == Product8(a, OfNum(0xd, 8)) && XE(a) == Product8(a, OfNum(0xe, 8))
  {
    hide X2, X3, X9, XB, XD, XE, Product8, OfNum;
    SmallConstants(a);
    Constant9(a);
    ConstantB(a);
    ConstantD(a);
    ConstantE(a);
  }

  lemma SmallConstants(a: byte)
    ensures X2(a) == Product8(a, OfNum(2, 8)) && X3(a) == Product8(a, OfNum(3, 8))
  {
    hide X2, Xor, Product8, OfNum;
    Constant(a, 2);
    Constant(a, 3);
    DoubleZero();
    XorZero(a);
    XorZero(X2(a));
  }

  lemma Constant9(a: byte)
    ensures X9(a) == Product8(a, OfNum(0x9, 8))
  {
    hide X2, Xor, Product8, OfNum;
    Constant(a, 0x9);
    XorZero(X2(a));
    XorZero(X2(X2(a)));
  }

  lemma ConstantB(a: byte)
    ensures XB(a) == Product8(a, OfNum(0xb, 8))
  {
    hide X2, Xor, Product8, OfNum;
    Constant(a, 0xb);
    XorZero(X2(a));
    X2Add(X2(X2(a)), a);
  }

  lemma ConstantD(a: byte)
    ensures XD(a) == Product8(a, OfNum(0xd, 8))
  {
    hide X2, Xor, Product8, OfNum;
    Constant(a, 0xd);
    X2Add(X2(a), a);
    XorZero(Xor(X2(X2(a)), X2(a)));
    X2Add(X2(X2(a)), X2(a));
  }

  lemma ConstantE(a: byte)
    ensures XE(a) == Product8(a, OfNum(0xe, 8))
  {
    hide X2, Xor, Product8, OfNum;
    Constant(a, 0xe);
    X2Add(X2(a), a);
    X2Add(Xor(X2(X2(a)), X2(a)), a);
    X2Add(X2(X2(a)), X2(a));
    XorZero(X2(Xor(Xor(X2(X2(a)), X2(a)), a)));
  }

  lemma Constant(a: byte, n: nat)
    requires n < 16
    ensures
      var s4 := if n / 8 % 2 == 1 then a else Zeros(8);
      var s5 := Xor(X2(s4), if n / 4 % 2 == 1 then a else Zeros(8));
      var s6 := Xor(X2(s5), if n / 2 % 2 == 1 then a else Zeros(8));
      Product8(a, OfNum(n, 8)) == Xor(X2(s6), if n % 2 == 1 then a else Zeros(8))
  {
    hide X2, Xor, Product8, OfNum;
    NumBits(n);
    LowProduct(a, OfNum(n, 8));
  }

  // ----- the key schedule -----

  lemma RconIs(i: nat)
    requires 1 <= i < 10
    ensures Rcon(1) == OfNum(1, 8) && Rcon(i + 1) == X2(Rcon(i))
  {
    hide OfNum, X2;
    if i <= 5 { FirstRcon(i); }
    else { LastRcon(i); }
  }

  lemma FirstRcon(i: nat)
    requires 1 <= i <= 5
    ensures Rcon(i + 1) == X2(Rcon(i))
  {
    hide OfNum, X2;
    Doubles(1, 2);
    Doubles(2, 4);
    Doubles(4, 8);
    Doubles(8, 0x10);
    Doubles(0x10, 0x20);
  }

  lemma LastRcon(i: nat)
    requires 6 <= i < 10
    ensures Rcon(i + 1) == X2(Rcon(i))
  {
    hide OfNum, X2;
    Doubles(0x20, 0x40);
    Doubles(0x40, 0x80);
    Doubles(0x80, 0x1b);
    Doubles(0x1b, 0x36);
  }

  lemma Doubles(m: nat, n: nat)
    requires m < 256 && n < 256
    requires n as bv8 == (m as bv8 << 1) ^ (if m as bv8 & 0x80 != 0 then 0x1b else 0)
    ensures OfNum(n, 8) == X2(OfNum(m, 8))
  {
    hide OfNum, X2, Holds;
    HoldsNum(m);
    HoldsNum(n);
    HoldsDouble(OfNum(m, 8), m as bv8);
    HoldsSame(OfNum(n, 8), X2(OfNum(m, 8)), n as bv8);
  }

  /** The word that is added to the one a key length before. */
  lemma AddedWord(t: word, nk: nat, i: nat)
    requires 1 <= nk
    ensures Mangled(t, nk, i) ==
      if i % nk == 0 then Word(Xor(SBox(t.b1), Rcon(i / nk)), SBox(t.b2), SBox(t.b3), SBox(t.b0))
      else if nk == 8 && i % 8 == 4 then Word(SBox(t.b0), SBox(t.b1), SBox(t.b2), SBox(t.b3))
      else t
  {
    hide SBox, Rcon, Xor, Zeros;
    XorZero(SBox(t.b2));
    XorZero(SBox(t.b3));
    XorZero(SBox(t.b0));
  }

  /** Section 5.2 of FIPS 197: the expanded key has four words for each round and four more, and starts with
      the words of the key. */
  lemma KeyScheduleIs(key: seq<byte>, i: nat)
    requires KeySize(|key|) && i < |key| + 28
    ensures |EncryptKeys(key)| == |key| + 28 && EncryptKeys(key)[i] == KeyWord(key, i)
    ensures 4 * i + 3 < |key| ==>
      KeyWord(key, i) == Word(key[4 * i], key[4 * i + 1], key[4 * i + 2], key[4 * i + 3])
  {
  }

  /** Behind them a word is f, the word one key length before it, plus g, which is the word t before it: rotated,
      substituted and with a round constant at the start of a key length, only substituted in the middle of a
      long one. */
  lemma KeyWordAdds(key: seq<byte>, i: nat, nk: nat, t: word, f: word, g: word)
    requires KeySize(|key|) && nk == |key| / 4 && nk <= i
    requires t == KeyWord(key, i - 1) && f == KeyWord(key, i - nk)
    requires g == if i % nk == 0 then Word(Xor(SBox(t.b1), Rcon(i / nk)), SBox(t.b2), SBox(t.b3), SBox(t.b0))
      else if nk == 8 && i % 8 == 4 then Word(SBox(t.b0), SBox(t.b1), SBox(t.b2), SBox(t.b3)) else t
    ensures KeyWord(key, i) == Word(Xor(f.b0, g.b0), Xor(f.b1, g.b1), Xor(f.b2, g.b2), Xor(f.b3, g.b3))
  {
    hide SBox, Rcon, Xor, KeyWord, Mangled;
    KeyWordIs(key, i);
    AddedWord(t, nk, i);
  }

  // ----- the cipher -----

  /** Column c of the state, which is column c of the input bytes. */
  function Column(s: Block, c: nat): word
    requires c < 4
  {
    Word(s[c], s[4 + c], s[8 + c], s[12 + c])
  }

  lemma ColumnOfBytes(s: Block, c: nat)
    requires c < 4
    ensures Column(Columns(s), c) == Word(s[4 * c], s[4 * c + 1], s[4 * c + 2], s[4 * c + 3])
    ensures Column(s, c) == Word(Columns(s)[4 * c], Columns(s)[4 * c + 1], Columns(s)[4 * c + 2], Columns(s)[4 * c + 3])
  {
  }

  lemma ColumnAdded(s: Block, w: seq<word>, c: nat)
    requires |w| == 4 && c < 4
    ensures Column(AddKey(s, w), c) == XorWord(Column(s, c), w[c])
  {
    hide Xor;
  }

  lemma ColumnShifted(s: Block, c: nat)
    requires c < 4
    ensures Column(ShiftRows(SubBytes(s)), c) == Word(SBox(Column(s, c).b0), SBox(Column(s, (c + 1) % 4).b1),
      SBox(Column(s, (c + 2) % 4).b2), SBox(Column(s, (c + 3) % 4).b3))
  {
    hide SBox;
  }

  lemma ColumnMixed(s: Block, c: nat, u: word)
    requires c < 4 && u == Column(s, c)
    ensures Column(MixColumns(s), c) == Word(Sum4(X2(u.b0), X3(u.b1), u.b2, u.b3),
      Sum4(u.b0, X2(u.b1), X3(u.b2), u.b3), Sum4(u.b0, u.b1, X2(u.b2), X3(u.b3)),
      Sum4(X3(u.b0), u.b1, u.b2, X2(u.b3)))
  {
    hide X2, X3, Sum4, MixCell;
    MixedRows(u.b0, u.b1, u.b2, u.b3);
  }

  lemma ColumnRound(s: Block, w: seq<word>, c: nat, u: word)
    requires c < 4 && |w| == 4 && u == Column(ShiftRows(SubBytes(s)), c)
    ensures Column(AddKey(MixColumns(ShiftRows(SubBytes(s))), w), c) == XorWord(
      Word(Sum4(X2(u.b0), X3(u.b1), u.b2, u.b3), Sum4(u.b0, X2(u.b1), X3(u.b2), u.b3),
        Sum4(u.b0, u.b1, X2(u.b2), X3(u.b3)), Sum4(X3(u.b0), u.b1, u.b2, X2(u.b3))), w[c])
  {
    hide AddKey, ShiftRows, SubBytes, X2, X3, Sum4, MixColumns, Column, XorWord;
    ColumnAdded(MixColumns(ShiftRows(SubBytes(s))), w, c);
    ColumnMixed(ShiftRows(SubBytes(s)), c, u);
  }

  /** Column c of the state at the start of round n + 1. */
  function StateAt(key: seq<byte>, block: Block, n: nat, c: nat): word
    requires KeySize(|key|) && n < RoundsFor(|key|) && c < 4
  {
    Column(Rounds(EncryptKeys(key), Columns(block), n), c)
  }

  /** Section 5.1 of FIPS 197, column by column: the first state is the block plus the first round key. */
  lemma FirstState(key: seq<byte>, block: Block, c: nat)
    requires KeySize(|key|) && c < 4
    ensures RoundsFor(|key|) == |key| / 4 + 6
    ensures StateAt(key, block, 0, c)
      == XorWord(Word(block[4 * c], block[4 * c + 1], block[4 * c + 2], block[4 * c + 3]), KeyWord(key, c))
  {
    hide Columns, AddKey, Column, XorWord, KeyWord;
    ColumnAdded(Columns(block), EncryptKeys(key)[..4], c);
    ColumnOfBytes(block, c);
  }

  /** A round takes one byte each of four columns through the substitution, mixes the four and adds four bytes
      of the round key. */
  lemma NextState(key: seq<byte>, block: Block, n: nat, c: nat, u: word)
    requires KeySize(|key|) && 1 <= n < RoundsFor(|key|) && c < 4
    requires u == Word(SBox(StateAt(key, block, n - 1, c).b0), SBox(StateAt(key, block, n - 1, (c + 1) % 4).b1),
      SBox(StateAt(key, block, n - 1, (c + 2) % 4).b2), SBox(StateAt(key, block, n - 1, (c + 3) % 4).b3))
    ensures StateAt(key, block, n, c) == XorWord(Word(Sum4(X2(u.b0), X3(u.b1), u.b2, u.b3),
      Sum4(u.b0, X2(u.b1), X3(u.b2), u.b3), Sum4(u.b0, u.b1, X2(u.b2), X3(u.b3)),
      Sum4(X3(u.b0), u.b1, u.b2, X2(u.b3))), KeyWord(key, 4 * n + c))
  {
    hide Columns, AddKey, ShiftRows, SubBytes, SBox, X2, X3, Sum4, MixColumns, Column, XorWord, KeyWord;
    var rk := EncryptKeys(key);
    var s := Rounds(rk, Columns(block), n - 1);
    ColumnShifted(s, c);
    ColumnRound(s, rk[4 * n..4 * n + 4], c, u);
    assert rk[4 * n..4 * n + 4][c] == rk[4 * n + c];
  }

  /** The last round does not mix. */
  lemma LastState(key: seq<byte>, block: Block, out: Block, r: nat, c: nat, u: word)
    requires KeySize(|key|) && r == RoundsFor(|key|) && 1 <= r && c < 4 && out == Encrypt(key, block)
    requires u == Word(SBox(StateAt(key, block, r - 1, c).b0), SBox(StateAt(key, block, r - 1, (c + 1) % 4).b1),
      SBox(StateAt(key, block, r - 1, (c + 2) % 4).b2), SBox(StateAt(key, block, r - 1, (c + 3) % 4).b3))
    ensures Word(out[4 * c], out[4 * c + 1], out[4 * c + 2], out[4 * c + 3]) == XorWord(u, KeyWord(key, 4 * r + c))
  {
    hide AddKey, ShiftRows, SubBytes, SBox, Columns, Column, XorWord, KeyWord, Rounds, RoundsFor;
    var rk := EncryptKeys(key);
    var s := Rounds(rk, Columns(block), r - 1);
    var last := ShiftRows(SubBytes(s));
    var w := rk[4 * r..4 * r + 4];
    ColumnShifted(s, c);
    ColumnAdded(last, w, c);
    ColumnOfBytes(AddKey(last, w), c);
    assert w[c] == rk[4 * r + c];
  }

  /** The round keys of decryption are those of encryption, the last one first. */
  lemma DecryptKeyIs(key: seq<byte>, r: nat, n: nat, c: nat)
    requires KeySize(|key|) && r == |key| / 4 + 6 && n <= r && c < 4
    ensures |DecryptKeys(key)| == |EncryptKeys(key)| == 4 * r + 4
    ensures DecryptKeys(key)[4 * n + c] == EncryptKeys(key)[4 * (r - n) + c]
  {
    hide EncryptKeys, LastRoundKeys;
    var rk := EncryptKeys(key);
    RoundKeyAt(rk, r, r + 1, n);
    assert DecryptKeys(key)[4 * n..4 * n + 4][c] == rk[4 * (r - n)..4 * (r - n) + 4][c];
  }

  /** The sums of bytes and of words, bit by bit. */
  lemma SumsAre(v: word, w: word, a: byte, b: byte, c: byte, d: byte, k: nat)
    requires k < 8
    ensures XorWord(v, w).b0[k] == (v.b0[k] != w.b0[k]) && XorWord(v, w).b1[k] == (v.b1[k] != w.b1[k])
    ensures XorWord(v, w).b2[k] == (v.b2[k] != w.b2[k]) && XorWord(v, w).b3[k] == (v.b3[k] != w.b3[k])
    ensures Sum4(a, b, c, d)[k] == (a[k] != (b[k] != (c[k] != d[k])))
  {
  }
}
