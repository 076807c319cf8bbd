module AesField {
  import opened AesTables
  import opened Bytes
  import opened Gf2Polynomials
  import Positional

  function SBox(b: byte): byte { OfNum(STable(Num(b) / 16, Num(b) % 16), 8) }

  function InvSBox(b: byte): byte { OfNum(SInvTable(Num(b) / 16, Num(b) % 16), 8) }

  /** S_inv undoes S. */
  lemma SBoxInverse(b: byte)
    ensures InvSBox(SBox(b)) == b
  {
    hide STable, SInvTable, Num, OfNum;
    NumOfBits(b);
    assert Positional.Pow(2, 8) == 256;
    var h, l := Num(b) / 16, Num(b) % 16;
    if h < 4 { TablesInverse0(h, l); }
    else if h < 8 { TablesInverse1(h, l); }
    else if h < 12 { TablesInverse2(h, l); }
    else { TablesInverse3(h, l); }
    BitsOfNum(STable(h, l), 8);
  }

  // ----- GF(2^8) modulo x^8 + x^4 + x^3 + x + 1 -----

  /** Shift left, and add 0x1b when a bit is lost. */
  function X2(a: byte): (r: byte)
    ensures forall k :: 0 <= k < 8 ==> r[k] == ((k < 7 && a[k + 1]) != (a[0] && (k == 3 || k == 4 || 6 <= k)))
  {
    seq(8, k requires 0 <= k < 8 => (k < 7 && a[k + 1]) != (a[0] && (k == 3 || k == 4 || 6 <= k)))
  }

  function X3(a: byte): byte { Xor(X2(a), a) }

  function X9(a: byte): byte { Xor(X2(X2(X2(a))), a) }

  function XB(a: byte): byte { Xor(Xor(X2(X2(X2(a))), X2(a)), a) }

  function XD(a: byte): byte { Xor(Xor(X2(X2(X2(a))), X2(X2(a))), a) }

  function XE(a: byte): byte { Xor(Xor(X2(X2(X2(a))), X2(X2(a))), X2(a)) }

  function Sum4(a: byte, b: byte, c: byte, d: byte): byte { Xor(Xor(Xor(a, b), c), d) }

  /** One row of the matrix of mix_columns: 2 3 1 1. */
  function MixCell(a: byte, b: byte, c: byte, d: byte): byte { Sum4(X2(a), X3(b), c, d) }

  /** One row of the matrix of inv_mix_columns: e b d 9. */
  function UnmixCell(a: byte, b: byte, c: byte, d: byte): byte { Sum4(XE(a), XB(b), XD(c), X9(d)) }

  lemma X2Add(a: byte, b: byte)
    ensures X2(Xor(a, b)) == Xor(X2(a), X2(b))
  {
  }

  lemma X2Add4(a: byte, b: byte, c: byte, d: byte)
    ensures X2(Sum4(a, b, c, d)) == Sum4(X2(a), X2(b), X2(c), X2(d))
  {
    X2Add(a, b);
    X2Add(Xor(a, b), c);
    X2Add(Xor(Xor(a, b), c), d);
  }

  lemma SumAdd(a: byte, b: byte, c: byte, d: byte, p: byte, q: byte, r: byte, s: byte)
    ensures Xor(Sum4(a, b, c, d), Sum4(p, q, r, s)) == Sum4(Xor(a, p), Xor(b, q), Xor(c, r), Xor(d, s))
  {
  }

  lemma Rotate4(a: byte, b: byte, c: byte, d: byte)
    ensures Sum4(a, b, c, d) == Sum4(b, c, d, a)
  {
  }

  /** Multiplication by a constant is additive. */
  lemma ScaledSum(a: byte, b: byte, c: byte, d: byte)
    ensures XE(Sum4(a, b, c, d)) == Sum4(XE(a), XE(b), XE(c), XE(d))
    ensures XB(Sum4(a, b, c, d)) == Sum4(XB(a), XB(b), XB(c), XB(d))
    ensures XD(Sum4(a, b, c, d)) == Sum4(XD(a), XD(b), XD(c), XD(d))
    ensures X9(Sum4(a, b, c, d)) == Sum4(X9(a), X9(b), X9(c), X9(d))
  {
    hide X2, Sum4, Xor;
    var a2, b2, c2, d2 := X2(a), X2(b), X2(c), X2(d);
    var a4, b4, c4, d4 := X2(a2), X2(b2), X2(c2), X2(d2);
    var a8, b8, c8, d8 := X2(a4), X2(b4), X2(c4), X2(d4);
    X2Add4(a, b, c, d);
    X2Add4(a2, b2, c2, d2);
    X2Add4(a4, b4, c4, d4);
    SumAdd(a8, b8, c8, d8, a4, b4, c4, d4);
    SumAdd(a8, b8, c8, d8, a2, b2, c2, d2);
    SumAdd(a8, b8, c8, d8, a, b, c, d);
    SumAdd(Xor(a8, a4), Xor(b8, b4), Xor(c8, c4), Xor(d8, d4), a2, b2, c2, d2);
    SumAdd(Xor(a8, a4), Xor(b8, b4), Xor(c8, c4), Xor(d8, d4), a, b, c, d);
    SumAdd(Xor(a8, a2), Xor(b8, b2), Xor(c8, c2), Xor(d8, d2), a, b, c, d);
  }

  /** The entries of the product of the two matrices, e b d 9 times the columns of 2 3 1 1: every power
      of x occurs an even number of times, except 1 in the first entry. */
  lemma MatrixEntries(a: byte)
    ensures Sum4(XE(X2(a)), XB(a), XD(a), X9(X3(a))) == a
    ensures Sum4(XE(X3(a)), XB(X2(a)), XD(a), X9(a)) == Zeros(8)
    ensures Sum4(XE(a), XB(X3(a)), XD(X2(a)), X9(a)) == Zeros(8)
    ensures Sum4(XE(a), XB(a), XD(X3(a)), X9(X2(a))) == Zeros(8)
  {
    hide X2, Sum4, Xor;
    var a2 := X2(a);
    var a4 := X2(a2);
    var a8 := X2(a4);
    X2Add(a2, a);
    X2Add(a4, a2);
    X2Add(a8, a4);
    Cancel(a, a2, a4, a8, X2(a8));
  }

  lemma Cancel(a: byte, b: byte, c: byte, d: byte, e: byte)
    ensures Sum4(Xor(Xor(e, d), c), Xor(Xor(d, b), a), Xor(Xor(d, c), a), Xor(Xor(e, d), Xor(b, a))) == a
    ensures Sum4(Xor(Xor(Xor(e, d), Xor(d, c)), Xor(c, b)), Xor(Xor(e, c), b), Xor(Xor(d, c), a), Xor(d, a)) == Zeros(8)
    ensures Sum4(Xor(Xor(d, c), b), Xor(Xor(Xor(e, d), Xor(c, b)), Xor(b, a)), Xor(Xor(e, d), b), Xor(d, a)) == Zeros(8)
    ensures Sum4(Xor(Xor(d, c), b), Xor(Xor(d, b), a), Xor(Xor(Xor(e, d), Xor(d, c)), Xor(b, a)), Xor(e, b)) == Zeros(8)
  {
  }

  /** A sum over rows and columns may be taken in either order. */
  lemma Transposed(a: byte, b: byte, c: byte, d: byte, e: byte, f: byte, g: byte, h: byte,
                   i: byte, j: byte, k: byte, l: byte, m: byte, n: byte, o: byte, p: byte)
    ensures Sum4(Sum4(a, b, c, d), Sum4(e, f, g, h), Sum4(i, j, k, l), Sum4(m, n, o, p))
      == Sum4(Sum4(a, e, i, m), Sum4(b, f, j, n), Sum4(c, g, k, o), Sum4(d, h, l, p))
  {
    hide Xor;
    SumAdd(a, b, c, d, e, f, g, h);
    SumAdd(Xor(a, e), Xor(b, f), Xor(c, g), Xor(d, h), i, j, k, l);
    SumAdd(Xor(Xor(a, e), i), Xor(Xor(b, f), j), Xor(Xor(c, g), k), Xor(Xor(d, h), l), m, n, o, p);
  }

  /** The two circulant matrices are inverses of each other. */
  lemma MixInverse(a: byte, b: byte, c: byte, d: byte)
    ensures UnmixCell(MixCell(a, b, c, d), MixCell(b, c, d, a), MixCell(c, d, a, b), MixCell(d, a, b, c)) == a
  {
    hide X2, X3, X9, XB, XD, XE, Sum4;
    Rotate4(a, X2(b), X3(c), d);
    Rotate4(a, b, X2(c), X3(d));
    Rotate4(b, X2(c), X3(d), a);
    Rotate4(X2(d), X3(a), b, c);
    ScaledSum(X2(a), X3(b), c, d);
    ScaledSum(a, X2(b), X3(c), d);
    ScaledSum(a, b, X2(c), X3(d));
    ScaledSum(X3(a), b, c, X2(d));
    Transposed(XE(X2(a)), XE(X3(b)), XE(c), XE(d), XB(a), XB(X2(b)), XB(X3(c)), XB(d),
               XD(a), XD(b), XD(X2(c)), XD(X3(d)), X9(X3(a)), X9(b), X9(c), X9(X2(d)));
    MatrixEntries(a);
    MatrixEntries(b);
    MatrixEntries(c);
    MatrixEntries(d);
    OnlyFirst(a);
  }

  lemma OnlyFirst(a: byte)
    ensures Sum4(a, Zeros(8), Zeros(8), Zeros(8)) == a
  {
  }
}
