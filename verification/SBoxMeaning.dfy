/** What the S-box of aes.c is, by section 5.1.1 of FIPS 197: the inverse in GF(2^8) followed by an
    affine map, with zero in place of the inverse of zero. */
module SBoxMeaning {
  import opened AesField
  import opened AesTables
  import opened Bytes
  import opened Gf2Polynomials
  import Positional

  // ----- GF(2^8) -----

  /** The product in GF(2^8), by Horner's rule over the bits of b. */
  function Product8(a: byte, b: Bits): byte {
    if b == [] then Zeros(8) else Xor(X2(Product8(a, b[..|b| - 1])), if b[|b| - 1] then a else Zeros(8))
  }

  /** What determines the product: it is linear in its first factor, doubling that factor doubles it,
      and one is neutral. */
  lemma {:induction false} ProductLaws(a: byte, c: byte, b: Bits)
    ensures Product8(Xor(a, c), b) == Xor(Product8(a, b), Product8(c, b))
    ensures Product8(X2(a), b) == X2(Product8(a, b))
    ensures |b| == 8 ==> Product8(OfNum(1, 8), b) == b
  {
    hide X2, Xor;
    DoubleZero();
    if b == [] {
    } else {
      var front := b[..|b| - 1];
      ProductLaws(a, c, front);
      X2Add(Product8(a, front), Product8(c, front));
      X2Add(X2(Product8(a, front)), if b[|b| - 1] then a else Zeros(8));
      if |b| == 8 { ProductOfOne(b); }
    }
  }

  lemma DoubleZero()
    ensures X2(Zeros(8)) == Zeros(8) == Xor(Zeros(8), Zeros(8))
  {
  }

  lemma {:induction false} ProductOfOne(b: Bits)
    requires |b| <= 8
    ensures Product8(OfNum(1, 8), b) == Zeros(8 - |b|) + b
  {
    if b == [] {
    } else {
      hide OfNum, X2, Xor, Zeros;
      var n := |b| - 1;
      ProductOfOne(b[..n]);
      ShiftedIn(Zeros(8 - n) + b[..n], b);
    }
  }

  lemma ShiftedIn(q: byte, b: Bits)
    requires 1 <= |b| <= 8 && q == Zeros(9 - |b|) + b[..|b| - 1]
    ensures Xor(X2(q), if b[|b| - 1] then OfNum(1, 8) else Zeros(8)) == Zeros(8 - |b|) + b
  {
    hide OfNum;
    OneIs();
    var w := if b[|b| - 1] then OfNum(1, 8) else Zeros(8);
    assert forall k :: 0 <= k < 8 ==> w[k] == (k == 7 && b[|b| - 1]);
    assert forall k :: 0 <= k < 8 ==> Xor(X2(q), w)[k] == (Zeros(8 - |b|) + b)[k];
  }

  /** The inverse of the affine map of section 5.1.1; bit i of FIPS 197 is s[7 - i]. */
  function Unaffine(s: byte): (u: byte)
    ensures forall k :: 0 <= k < 8 ==>
      u[k] == ((s[(k + 1) % 8] != (s[(k + 3) % 8] != s[(k + 6) % 8])) != (k == 5 || k == 7))
  {
    seq(8, k requires 0 <= k < 8 =>
      (s[(k + 1) % 8] != (s[(k + 3) % 8] != s[(k + 6) % 8])) != (k == 5 || k == 7))
  }

  // ----- bytes as machine numbers -----

  /** a holds the bits of x. */
  predicate Holds(a: byte, x: bv8) {
    && a[0] == (x & 0x80 != 0) && a[1] == (x & 0x40 != 0) && a[2] == (x & 0x20 != 0) && a[3] == (x & 0x10 != 0)
    && a[4] == (x & 0x08 != 0) && a[5] == (x & 0x04 != 0) && a[6] == (x & 0x02 != 0) && a[7] == (x & 0x01 != 0)
  }

  /** One round of the product on numbers. */
  function Next(x: bv8, y: bv8, bit: bool): bv8 {
    (x << 1) ^ (if x & 0x80 != 0 then 0x1b else 0) ^ (if bit then y else 0)
  }

  function Run(y: bv8, b: Bits): bv8 {
    if b == [] then 0 else Next(Run(y, b[..|b| - 1]), y, b[|b| - 1])
  }

  function Rotated(v: bv8): bv8 {
    ((v << 1) | (v >> 7)) ^ ((v << 3) | (v >> 5)) ^ ((v << 6) | (v >> 2)) ^ 0x05
  }

  lemma HoldsDouble(a: byte, x: bv8)
    requires Holds(a, x)
    ensures Holds(X2(a), (x << 1) ^ (if x & 0x80 != 0 then 0x1b else 0))
  {
  }

  lemma HoldsSum(a: byte, b: byte, x: bv8, y: bv8)
    requires Holds(a, x) && Holds(b, y)
    ensures Holds(Xor(a, b), x ^ y)
  {
  }

  lemma HoldsNext(s: byte, a: byte, bit: bool, x: bv8, y: bv8)
    requires Holds(s, x) && Holds(a, y)
    ensures Holds(Xor(X2(s), if bit then a else Zeros(8)), Next(x, y, bit))
  {
    hide Holds, X2, Xor;
    var d: bv8 := (x << 1) ^ (if x & 0x80 != 0 then 0x1b else 0);
    HoldsDouble(s, x);
    if bit {
      assert Next(x, y, bit) == d ^ y;
      HoldsSum(X2(s), a, d, y);
    } else {
      assert Next(x, y, bit) == d ^ 0;
      HoldsZero();
      HoldsSum(X2(s), Zeros(8), d, 0);
    }
  }

  lemma HoldsZero()
    ensures Holds(Zeros(8), 0)
  {
  }

  lemma HoldsOne()
    ensures Holds(OfNum(1, 8), 1)
  {
    OneIs();
  }

  lemma HoldsSame(a: byte, b: byte, x: bv8)
    requires Holds(a, x) && Holds(b, x)
    ensures a == b
  {
    assert forall k :: 0 <= k < 8 ==> a[k] == b[k];
  }

  lemma HoldsNum(n: nat)
    requires n < 256
    ensures Holds(OfNum(n, 8), n as bv8)
  {
    hide OfNum;
    NumBits(n);
  }

  lemma NumBits(n: nat)
    requires n < 256
    ensures OfNum(n, 8) == [n / 128 % 2 == 1, n / 64 % 2 == 1, n / 32 % 2 == 1, n / 16 % 2 == 1, n / 8 % 2 == 1,
      n / 4 % 2 == 1, n / 2 % 2 == 1, n % 2 == 1]
  {
    hide OfNum;
    Powers();
    var r := OfNum(n, 8);
    OfNumBit(n, 8, 0); OfNumBit(n, 8, 1); OfNumBit(n, 8, 2); OfNumBit(n, 8, 3);
    OfNumBit(n, 8, 4); OfNumBit(n, 8, 5); OfNumBit(n, 8, 6); OfNumBit(n, 8, 7);
    hide Positional.Pow;
    assert n / 1 == n;
  }

  lemma Powers()
    ensures Positional.Pow(2, 0) == 1 && Positional.Pow(2, 1) == 2 && Positional.Pow(2, 2) == 4
      && Positional.Pow(2, 3) == 8
    ensures Positional.Pow(2, 4) == 16 && Positional.Pow(2, 5) == 32 && Positional.Pow(2, 6) == 64
      && Positional.Pow(2, 7) == 128
  {}
  lemma HoldsUnaffine(s: byte, v: bv8)
    requires Holds(s, v)
    ensures Holds(Unaffine(s), Rotated(v))
  {
  }
  lemma {:induction false} HoldsRun(a: byte, y: bv8, b: Bits)
    requires Holds(a, y)
    ensures Holds(Product8(a, b), Run(y, b))
  {
    hide Next, Holds, X2, Xor;
    if b == [] {
      HoldsZero();
    } else {
      HoldsRun(a, y, b[..|b| - 1]);
      HoldsNext(Product8(a, b[..|b| - 1]), a, b[|b| - 1], Run(y, b[..|b| - 1]), y);
    }
  }

  lemma RunIs(y: bv8, b: byte)
    ensures Run(y, b)
      == Next(Next(Next(Next(Next(Next(Next(Next(0, y, b[0]), y, b[1]), y, b[2]), y, b[3]), y, b[4]), y, b[5]), y,
        b[6]), y, b[7])
  {
    hide Next;
    assert b == b[..8] && b[..8][..7] == b[..7] && b[..7][..6] == b[..6] && b[..6][..5] == b[..5]
      && b[..5][..4] == b[..4];
    assert b[..4][..3] == b[..3] && b[..3][..2] == b[..2] && b[..2][..1] == b[..1] && b[..1][..0] == [];
    assert Run(y, b[..1]) == Next(0, y, b[0]);
    assert Run(y, b[..2]) == Next(Run(y, b[..1]), y, b[1]);
    assert Run(y, b[..3]) == Next(Run(y, b[..2]), y, b[2]);
    assert Run(y, b[..4]) == Next(Run(y, b[..3]), y, b[3]);
    assert Run(y, b[..5]) == Next(Run(y, b[..4]), y, b[4]);
    assert Run(y, b[..6]) == Next(Run(y, b[..5]), y, b[5]);
    assert Run(y, b[..7]) == Next(Run(y, b[..6]), y, b[6]);
  }

  // ----- the table, entry by entry -----

  /** For the entry m at n: the inverse affine image of m and its product with n, step by step. */
  predicate Entry(n: int, m: int) { 0 <= n < 256 && 0 <= m < 256 && Checked(n as bv8, m as bv8) }

  predicate Checked(y: bv8, v: bv8) {
    var c := ((v << 1) | (v >> 7)) ^ ((v << 3) | (v >> 5)) ^ ((v << 6) | (v >> 2)) ^ 0x05;
    var s := if c & 0x80 != 0 then y else 0;
    var s := (s << 1) ^ (if s & 0x80 != 0 then 0x1b else 0) ^ (if c & 0x40 != 0 then y else 0);
    var s := (s << 1) ^ (if s & 0x80 != 0 then 0x1b else 0) ^ (if c & 0x20 != 0 then y else 0);
    var s := (s << 1) ^ (if s & 0x80 != 0 then 0x1b else 0) ^ (if c & 0x10 != 0 then y else 0);
    var s := (s << 1) ^ (if s & 0x80 != 0 then 0x1b else 0) ^ (if c & 0x08 != 0 then y else 0);
    var s := (s << 1) ^ (if s & 0x80 != 0 then 0x1b else 0) ^ (if c & 0x04 != 0 then y else 0);
    var s := (s << 1) ^ (if s & 0x80 != 0 then 0x1b else 0) ^ (if c & 0x02 != 0 then y else 0);
    var s := (s << 1) ^ (if s & 0x80 != 0 then 0x1b else 0) ^ (if c & 0x01 != 0 then y else 0);
    if y == 0 then c == 0 else s == 1
  }

  lemma Entries0()
    ensures Entry(0x00, 0x63) && Entry(0x01, 0x7c) && Entry(0x02, 0x77) && Entry(0x03, 0x7b) && Entry(0x04, 0xf2)
    ensures Entry(0x05, 0x6b) && Entry(0x06, 0x6f) && Entry(0x07, 0xc5) && Entry(0x08, 0x30) && Entry(0x09, 0x01)
    ensures Entry(0x0a, 0x67) && Entry(0x0b, 0x2b) && Entry(0x0c, 0xfe) && Entry(0x0d, 0xd7) && Entry(0x0e, 0xab)
    ensures Entry(0x0f, 0x76) && Entry(0x10, 0xca) && Entry(0x11, 0x82) && Entry(0x12, 0xc9) && Entry(0x13, 0x7d)
    ensures Entry(0x14, 0xfa) && Entry(0x15, 0x59) && Entry(0x16, 0x47) && Entry(0x17, 0xf0) && Entry(0x18, 0xad)
    ensures Entry(0x19, 0xd4) && Entry(0x1a, 0xa2) && Entry(0x1b, 0xaf) && Entry(0x1c, 0x9c) && Entry(0x1d, 0xa4)
    ensures Entry(0x1e, 0x72) && Entry(0x1f, 0xc0) && Entry(0x20, 0xb7) && Entry(0x21, 0xfd) && Entry(0x22, 0x93)
    ensures Entry(0x23, 0x26) && Entry(0x24, 0x36) && Entry(0x25, 0x3f) && Entry(0x26, 0xf7) && Entry(0x27, 0xcc)
    ensures Entry(0x28, 0x34) && Entry(0x29, 0xa5) && Entry(0x2a, 0xe5) && Entry(0x2b, 0xf1) && Entry(0x2c, 0x71)
    ensures Entry(0x2d, 0xd8) && Entry(0x2e, 0x31) && Entry(0x2f, 0x15) && Entry(0x30, 0x04) && Entry(0x31, 0xc7)
    ensures Entry(0x32, 0x23) && Entry(0x33, 0xc3) && Entry(0x34, 0x18) && Entry(0x35, 0x96) && Entry(0x36, 0x05)
    ensures Entry(0x37, 0x9a) && Entry(0x38, 0x07) && Entry(0x39, 0x12) && Entry(0x3a, 0x80) && Entry(0x3b, 0xe2)
    ensures Entry(0x3c, 0xeb) && Entry(0x3d, 0x27) && Entry(0x3e, 0xb2) && Entry(0x3f, 0x75)
  {
  }

  lemma Entries1()
    ensures Entry(0x40, 0x09) && Entry(0x41, 0x83) && Entry(0x42, 0x2c) && Entry(0x43, 0x1a) && Entry(0x44, 0x1b)
    ensures Entry(0x45, 0x6e) && Entry(0x46, 0x5a) && Entry(0x47, 0xa0) && Entry(0x48, 0x52) && Entry(0x49, 0x3b)
    ensures Entry(0x4a, 0xd6) && Entry(0x4b, 0xb3) && Entry(0x4c, 0x29) && Entry(0x4d, 0xe3) && Entry(0x4e, 0x2f)
    ensures Entry(0x4f, 0x84) && Entry(0x50, 0x53) && Entry(0x51, 0xd1) && Entry(0x52, 0x00) && Entry(0x53, 0xed)
    ensures Entry(0x54, 0x20) && Entry(0x55, 0xfc) && Entry(0x56, 0xb1) && Entry(0x57, 0x5b) && Entry(0x58, 0x6a)
    ensures Entry(0x59, 0xcb) && Entry(0x5a, 0xbe) && Entry(0x5b, 0x39) && Entry(0x5c, 0x4a) && Entry(0x5d, 0x4c)
    ensures Entry(0x5e, 0x58) && Entry(0x5f, 0xcf) && Entry(0x60, 0xd0) && Entry(0x61, 0xef) && Entry(0x62, 0xaa)
    ensures Entry(0x63, 0xfb) && Entry(0x64, 0x43) && Entry(0x65, 0x4d) && Entry(0x66, 0x33) && Entry(0x67, 0x85)
    ensures Entry(0x68, 0x45) && Entry(0x69, 0xf9) && Entry(0x6a, 0x02) && Entry(0x6b, 0x7f) && Entry(0x6c, 0x50)
    ensures Entry(0x6d, 0x3c) && Entry(0x6e, 0x9f) && Entry(0x6f, 0xa8) && Entry(0x70, 0x51) && Entry(0x71, 0xa3)
    ensures Entry(0x72, 0x40) && Entry(0x73, 0x8f) && Entry(0x74, 0x92) && Entry(0x75, 0x9d) && Entry(0x76, 0x38)
    ensures Entry(0x77, 0xf5) && Entry(0x78, 0xbc) && Entry(0x79, 0xb6) && Entry(0x7a, 0xda) && Entry(0x7b, 0x21)
    ensures Entry(0x7c, 0x10) && Entry(0x7d, 0xff) && Entry(0x7e, 0xf3) && Entry(0x7f, 0xd2)
  {
  }

  lemma Entries2()
    ensures Entry(0x80, 0xcd) && Entry(0x81, 0x0c) && Entry(0x82, 0x13) && Entry(0x83, 0xec) && Entry(0x84, 0x5f)
    ensures Entry(0x85, 0x97) && Entry(0x86, 0x44) && Entry(0x87, 0x17) && Entry(0x88, 0xc4) && Entry(0x89, 0xa7)
    ensures Entry(0x8a, 0x7e) && Entry(0x8b, 0x3d) && Entry(0x8c, 0x64) && Entry(0x8d, 0x5d) && Entry(0x8e, 0x19)
    ensures Entry(0x8f, 0x73) && Entry(0x90, 0x60) && Entry(0x91, 0x81) && Entry(0x92, 0x4f) && Entry(0x93, 0xdc)
    ensures Entry(0x94, 0x22) && Entry(0x95, 0x2a) && Entry(0x96, 0x90) && Entry(0x97, 0x88) && Entry(0x98, 0x46)
    ensures Entry(0x99, 0xee) && Entry(0x9a, 0xb8) && Entry(0x9b, 0x14) && Entry(0x9c, 0xde) && Entry(0x9d, 0x5e)
    ensures Entry(0x9e, 0x0b) && Entry(0x9f, 0xdb) && Entry(0xa0, 0xe0) && Entry(0xa1, 0x32) && Entry(0xa2, 0x3a)
    ensures Entry(0xa3, 0x0a) && Entry(0xa4, 0x49) && Entry(0xa5, 0x06) && Entry(0xa6, 0x24) && Entry(0xa7, 0x5c)
    ensures Entry(0xa8, 0xc2) && Entry(0xa9, 0xd3) && Entry(0xaa, 0xac) && Entry(0xab, 0x62) && Entry(0xac, 0x91)
    ensures Entry(0xad, 0x95) && Entry(0xae, 0xe4) && Entry(0xaf, 0x79) && Entry(0xb0, 0xe7) && Entry(0xb1, 0xc8)
    ensures Entry(0xb2, 0x37) && Entry(0xb3, 0x6d) && Entry(0xb4, 0x8d) && Entry(0xb5, 0xd5) && Entry(0xb6, 0x4e)
    ensures Entry(0xb7, 0xa9) && Entry(0xb8, 0x6c) && Entry(0xb9, 0x56) && Entry(0xba, 0xf4) && Entry(0xbb, 0xea)
    ensures Entry(0xbc, 0x65) && Entry(0xbd, 0x7a) && Entry(0xbe, 0xae) && Entry(0xbf, 0x08)
  {
  }

  lemma Entries3()
    ensures Entry(0xc0, 0xba) && Entry(0xc1, 0x78) && Entry(0xc2, 0x25) && Entry(0xc3, 0x2e) && Entry(0xc4, 0x1c)
    ensures Entry(0xc5, 0xa6) && Entry(0xc6, 0xb4) && Entry(0xc7, 0xc6) && Entry(0xc8, 0xe8) && Entry(0xc9, 0xdd)
    ensures Entry(0xca, 0x74) && Entry(0xcb, 0x1f) && Entry(0xcc, 0x4b) && Entry(0xcd, 0xbd) && Entry(0xce, 0x8b)
    ensures Entry(0xcf, 0x8a) && Entry(0xd0, 0x70) && Entry(0xd1, 0x3e) && Entry(0xd2, 0xb5) && Entry(0xd3, 0x66)
    ensures Entry(0xd4, 0x48) && Entry(0xd5, 0x03) && Entry(0xd6, 0xf6) && Entry(0xd7, 0x0e) && Entry(0xd8, 0x61)
    ensures Entry(0xd9, 0x35) && Entry(0xda, 0x57) && Entry(0xdb, 0xb9) && Entry(0xdc, 0x86) && Entry(0xdd, 0xc1)
    ensures Entry(0xde, 0x1d) && Entry(0xdf, 0x9e) && Entry(0xe0, 0xe1) && Entry(0xe1, 0xf8) && Entry(0xe2, 0x98)
    ensures Entry(0xe3, 0x11) && Entry(0xe4, 0x69) && Entry(0xe5, 0xd9) && Entry(0xe6, 0x8e) && Entry(0xe7, 0x94)
    ensures Entry(0xe8, 0x9b) && Entry(0xe9, 0x1e) && Entry(0xea, 0x87) && Entry(0xeb, 0xe9) && Entry(0xec, 0xce)
    ensures Entry(0xed, 0x55) && Entry(0xee, 0x28) && Entry(0xef, 0xdf) && Entry(0xf0, 0x8c) && Entry(0xf1, 0xa1)
    ensures Entry(0xf2, 0x89) && Entry(0xf3, 0x0d) && Entry(0xf4, 0xbf) && Entry(0xf5, 0xe6) && Entry(0xf6, 0x42)
    ensures Entry(0xf7, 0x68) && Entry(0xf8, 0x41) && Entry(0xf9, 0x99) && Entry(0xfa, 0x2d) && Entry(0xfb, 0x0f)
    ensures Entry(0xfc, 0xb0) && Entry(0xfd, 0x54) && Entry(0xfe, 0xbb) && Entry(0xff, 0x16)
  {
  }

  lemma EntryAt(h: nat, l: nat)
    requires h < 16 && l < 16
    ensures Entry(16 * h + l, STable(h, l))
  {
    hide Entry;
    if h < 4 { EntryAt0(h, l); }
    else if h < 8 { EntryAt1(h, l); }
    else if h < 12 { EntryAt2(h, l); }
    else { EntryAt3(h, l); }
  }

  lemma EntryAt0(h: nat, l: nat)
    requires 0 <= h < 4 && l < 16
    ensures Entry(16 * h + l, STable(h, l))
  {
    hide Entry;
    Entries0();
  }

  lemma EntryAt1(h: nat, l: nat)
    requires 4 <= h < 8 && l < 16
    ensures Entry(16 * h + l, STable(h, l))
  {
    hide Entry;
    Entries1();
  }

  lemma EntryAt2(h: nat, l: nat)
    requires 8 <= h < 12 && l < 16
    ensures Entry(16 * h + l, STable(h, l))
  {
    hide Entry;
    Entries2();
  }

  lemma EntryAt3(h: nat, l: nat)
    requires 12 <= h < 16 && l < 16
    ensures Entry(16 * h + l, STable(h, l))
  {
    hide Entry;
    Entries3();
  }

  lemma CheckedRuns(y: bv8, v: bv8)
    requires Checked(y, v)
    ensures Rotated(v) == ((v << 1) | (v >> 7)) ^ ((v << 3) | (v >> 5)) ^ ((v << 6) | (v >> 2)) ^ 0x05
    ensures var c := Rotated(v); if y == 0 then c == 0 else
      1 == Next(Next(Next(Next(Next(Next(Next(if c & 0x80 != 0 then y else 0, y, c & 0x40 != 0), y, c & 0x20 != 0),
        y, c & 0x10 != 0), y, c & 0x08 != 0), y, c & 0x04 != 0), y, c & 0x02 != 0), y, c & 0x01 != 0)
  {
  }

  lemma FirstStep(y: bv8, bit: bool)
    ensures Next(0, y, bit) == if bit then y else 0
  {
  }

  /** The steps of an entry are those of the product. */
  lemma EntryMeans(n: nat, m: nat, a: byte, b: byte)
    requires n < 256 && m < 256 && Entry(n, m) && a == OfNum(n, 8) && b == Unaffine(OfNum(m, 8))
    ensures if n == 0 then b == Zeros(8) else Product8(a, b) == OfNum(1, 8)
  {
    hide OfNum, Unaffine, Product8, X2, Xor, Checked, Run, Rotated, Next, Holds;
    CheckedRuns(n as bv8, m as bv8);
    HoldsNum(n);
    HoldsNum(m);
    HoldsUnaffine(OfNum(m, 8), m as bv8);
    if n == 0 {
      HoldsZero();
      HoldsSame(b, Zeros(8), 0);
    } else {
      HoldsRun(a, n as bv8, b);
      RunIs(n as bv8, b);
      FirstStep(n as bv8, b[0]);
      HoldsMasks(b, Rotated(m as bv8));
      HoldsOne();
      HoldsSame(Product8(a, b), OfNum(1, 8), 1);
    }
  }

  lemma HoldsMasks(b: byte, c: bv8)
    requires Holds(b, c)
    ensures b[0] == (c & 0x80 != 0) && b[1] == (c & 0x40 != 0) && b[2] == (c & 0x20 != 0) && b[3] == (c & 0x10 != 0)
    ensures b[4] == (c & 0x08 != 0) && b[5] == (c & 0x04 != 0) && b[6] == (c & 0x02 != 0) && b[7] == (c & 0x01 != 0)
  {
  }

  /** The S-box: for every byte but zero, the inverse affine image of SBox(b) is its inverse in GF(2^8), and
      for zero it is zero. */
  lemma SBoxIs(b: byte)
    ensures if b == Zeros(8) then Unaffine(SBox(b)) == Zeros(8) else Product8(b, Unaffine(SBox(b))) == OfNum(1, 8)
  {
    hide STable, Entry, Product8, Unaffine, OfNum;
    var n := Num(b);
    NumOfBits(b);
    assert Positional.Pow(2, 8) == 256;
    var h, l := n / 16, n % 16;
    EntryAt(h, l);
    assert 16 * h + l == n;
    EntryBelow(n, STable(h, l));
    EntryMeans(n, STable(h, l), b, Unaffine(SBox(b)));
    ZeroIs(b);
  }

  lemma EntryBelow(n: int, m: int)
    requires Entry(n, m)
    ensures 0 <= m < 256
  {
  }

  lemma ZeroIs(b: byte)
    ensures Num(b) == 0 <==> b == Zeros(8)
  {
    NumOfBits(b);
    if Num(b) == 0 {
      HoldsNum(0);
      HoldsZero();
      HoldsSame(b, Zeros(8), 0);
    }
    if b == Zeros(8) { NumZeros(8); }
  }

  lemma {:induction false} NumZeros(n: nat)
    ensures Num(Zeros(n)) == 0
  {
    if n != 0 {
      NumZeros(n - 1);
      assert Zeros(n)[..n - 1] == Zeros(n - 1);
    }
  }
}
