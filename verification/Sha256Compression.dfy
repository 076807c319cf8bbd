/** The compression function of sha256.c, sections 4.1.2 and 6.2.2 of FIPS 180-4. */
module Sha256Compression {
  import opened Bytes
  import opened Gf2Polynomials

  /** uint32_t */
  type word32 = w: Bits | |w| == 32 witness Zeros(32)

  /** A whole block, and the eight state words. */
  type Block = b: seq<byte> | |b| == 64 witness seq(64, _ => Zeros(8))
  type State = s: seq<word32> | |s| == 8 witness seq(8, _ => Zeros(32))

  /** Addition modulo 2 to the 32. */
  function Add32(a: word32, b: word32): word32 { OfNum(Num(a) + Num(b), 32) }

  /** ROR32 */
  function RotateRight(a: word32, n: nat): word32
    requires n <= 32
  {
    a[32 - n..] + a[..32 - n]
  }

  function ShiftRight(a: word32, n: nat): word32
    requires n <= 32
  {
    Zeros(n) + a[..32 - n]
  }

  function And(a: word32, b: word32): word32 { seq(32, k requires 0 <= k < 32 => a[k] && b[k]) }

  function Not(a: word32): word32 { seq(32, k requires 0 <= k < 32 => !a[k]) }

  function Ch(x: word32, y: word32, z: word32): word32 { Xor(And(x, y), And(Not(x), z)) }

  function Maj(x: word32, y: word32, z: word32): word32 { Xor(Xor(And(x, y), And(x, z)), And(y, z)) }

  function BigSigma0(x: word32): word32 { Xor(Xor(RotateRight(x, 2), RotateRight(x, 13)), RotateRight(x, 22)) }

  function BigSigma1(x: word32): word32 { Xor(Xor(RotateRight(x, 6), RotateRight(x, 11)), RotateRight(x, 25)) }

  function SmallSigma0(x: word32): word32 { Xor(Xor(RotateRight(x, 7), RotateRight(x, 18)), ShiftRight(x, 3)) }

  function SmallSigma1(x: word32): word32 { Xor(Xor(RotateRight(x, 17), RotateRight(x, 19)), ShiftRight(x, 10)) }

  function KTable(t: nat): nat {
    match t
    case 0 => 0x428a2f98 case 1 => 0x71374491 case 2 => 0xb5c0fbcf case 3 => 0xe9b5dba5
    case 4 => 0x3956c25b case 5 => 0x59f111f1 case 6 => 0x923f82a4 case 7 => 0xab1c5ed5
    case 8 => 0xd807aa98 case 9 => 0x12835b01 case 10 => 0x243185be case 11 => 0x550c7dc3
    case 12 => 0x72be5d74 case 13 => 0x80deb1fe case 14 => 0x9bdc06a7 case 15 => 0xc19bf174
    case 16 => 0xe49b69c1 case 17 => 0xefbe4786 case 18 => 0x0fc19dc6 case 19 => 0x240ca1cc
    case 20 => 0x2de92c6f case 21 => 0x4a7484aa case 22 => 0x5cb0a9dc case 23 => 0x76f988da
    case 24 => 0x983e5152 case 25 => 0xa831c66d case 26 => 0xb00327c8 case 27 => 0xbf597fc7
    case 28 => 0xc6e00bf3 case 29 => 0xd5a79147 case 30 => 0x06ca6351 case 31 => 0x14292967
    case 32 => 0x27b70a85 case 33 => 0x2e1b2138 case 34 => 0x4d2c6dfc case 35 => 0x53380d13
    case 36 => 0x650a7354 case 37 => 0x766a0abb case 38 => 0x81c2c92e case 39 => 0x92722c85
    case 40 => 0xa2bfe8a1 case 41 => 0xa81a664b case 42 => 0xc24b8b70 case 43 => 0xc76c51a3
    case 44 => 0xd192e819 case 45 => 0xd6990624 case 46 => 0xf40e3585 case 47 => 0x106aa070
    case 48 => 0x19a4c116 case 49 => 0x1e376c08 case 50 => 0x2748774c case 51 => 0x34b0bcb5
    case 52 => 0x391c0cb3 case 53 => 0x4ed8aa4a case 54 => 0x5b9cca4f case 55 => 0x682e6ff3
    case 56 => 0x748f82ee case 57 => 0x78a5636f case 58 => 0x84c87814 case 59 => 0x8cc70208
    case 60 => 0x90befffa case 61 => 0xa4506ceb case 62 => 0xbef9a3f7 case _ => 0xc67178f2
  }

  function K(t: nat): word32 { OfNum(KTable(t), 32) }

  /** GETU32 */
  function GetU32(p: seq<byte>): word32
    requires |p| == 4
  {
    ToBits(p)
  }

  /** The message schedule. */
  function W(block: Block, t: nat): word32 {
    if t < 16 then GetU32(block[4 * t..4 * t + 4])
    else Add32(Add32(Add32(SmallSigma1(W(block, t - 2)), W(block, t - 7)), SmallSigma0(W(block, t - 15))),
      W(block, t - 16))
  }

  /** The eight working variables. */
  datatype Vars = Vars(a: word32, b: word32, c: word32, d: word32, e: word32, f: word32, g: word32, h: word32)

  function Round(v: Vars, k: word32, w: word32): Vars {
    var t1 := Add32(Add32(Add32(Add32(v.h, BigSigma1(v.e)), Ch(v.e, v.f, v.g)), k), w);
    var t2 := Add32(BigSigma0(v.a), Maj(v.a, v.b, v.c));
    Vars(Add32(t1, t2), v.a, v.b, v.c, Add32(v.d, t1), v.e, v.f, v.g)
  }

  function AfterRounds(s: State, block: Block, t: nat): Vars {
    if t == 0 then Vars(s[0], s[1], s[2], s[3], s[4], s[5], s[6], s[7])
    else Round(AfterRounds(s, block, t - 1), K(t - 1), W(block, t - 1))
  }

  /** The state after a block, section 6.2.2 of FIPS 180-4. */
  function Compress(s: State, block: Block): State {
    var v := AfterRounds(s, block, 64);
    [Add32(s[0], v.a), Add32(s[1], v.b), Add32(s[2], v.c), Add32(s[3], v.d),
     Add32(s[4], v.e), Add32(s[5], v.f), Add32(s[6], v.g), Add32(s[7], v.h)]
  }

  /** The state after the first n blocks of data. */
  function Fold(s: State, data: seq<byte>, n: nat): State
    requires 64 * n <= |data|
  {
    if n == 0 then s else Compress(Fold(s, data, n - 1), data[64 * n - 64..64 * n])
  }

  lemma {:induction false} FoldPrefix(s: State, data: seq<byte>, more: seq<byte>, n: nat)
    requires 64 * n <= |data| <= |more| && more[..|data|] == data
    ensures Fold(s, more, n) == Fold(s, data, n)
  {
    hide Compress;
    if n != 0 {
      FoldPrefix(s, data, more, n - 1);
      assert more[..|data|][64 * n - 64..64 * n] == more[64 * n - 64..64 * n];
    }
  }

  /** Going on with the next k blocks. */
  lemma {:induction false} FoldMore(s: State, data: seq<byte>, n: nat, k: nat)
    requires 64 * (n + k) <= |data|
    ensures Fold(Fold(s, data, n), data[64 * n..64 * (n + k)], k) == Fold(s, data, n + k)
  {
    hide Compress;
    if k != 0 {
      FoldMore(s, data, n, k - 1);
      var more, less := data[64 * n..64 * (n + k)], data[64 * n..64 * (n + k - 1)];
      FoldPrefix(Fold(s, data, n), less, more, k - 1);
      assert more[64 * k - 64..64 * k] == data[64 * (n + k) - 64..64 * (n + k)];
    }
  }

  lemma ScheduleIs(block: Block, t: nat)
    ensures W(block, t) == if t < 16 then GetU32(block[4 * t..4 * t + 4])
      else Add32(Add32(Add32(SmallSigma1(W(block, t - 2)), W(block, t - 7)), SmallSigma0(W(block, t - 15))),
        W(block, t - 16))
  {
  }

  lemma RoundIs(s: State, block: Block, t: nat)
    ensures AfterRounds(s, block, 0) == Vars(s[0], s[1], s[2], s[3], s[4], s[5], s[6], s[7])
    ensures AfterRounds(s, block, t + 1) == Round(AfterRounds(s, block, t), K(t), W(block, t))
  {
  }

  /** One block: fill the schedule, run the rounds, add to the state. */
  method CompressBlock(state: array<word32>, data: array<byte>, at: nat)
    requires state.Length == 8 && at + 64 <= data.Length
    modifies state
    ensures state[..] == Compress(old(state[..]), data[at..at + 64])
  {
    hide Add32, SmallSigma0, SmallSigma1, BigSigma0, BigSigma1, Ch, Maj, GetU32, K, W, AfterRounds;
    ghost var was: State, block: Block := state[..], data[at..at + 64];
    var w := new word32[64];
    for i := 0 to 16
      invariant state[..] == was && forall t :: 0 <= t < i ==> w[t] == W(block, t)
    {
      ScheduleIs(block, i);
      assert data[at + 4 * i..at + 4 * i + 4] == block[4 * i..4 * i + 4];
      w[i] := GetU32(data[at + 4 * i..at + 4 * i + 4]);
    }
    for i := 16 to 64
      invariant state[..] == was && forall t :: 0 <= t < i ==> w[t] == W(block, t)
    {
      ScheduleIs(block, i);
      w[i] := Add32(Add32(Add32(SmallSigma1(w[i - 2]), w[i - 7]), SmallSigma0(w[i - 15])), w[i - 16]);
    }
    var a, b, c, d := state[0], state[1], state[2], state[3];
    var e, f, g, h := state[4], state[5], state[6], state[7];
    RoundIs(was, block, 0);
    for i := 0 to 64
      invariant forall t :: 0 <= t < 64 ==> w[t] == W(block, t)
      invariant state[..] == was && Vars(a, b, c, d, e, f, g, h) == AfterRounds(was, block, i)
    {
      RoundIs(was, block, i);
      ghost var v := Vars(a, b, c, d, e, f, g, h);
      var t1 := Add32(Add32(Add32(Add32(h, BigSigma1(e)), Ch(e, f, g)), K(i)), w[i]);
      var t2 := Add32(BigSigma0(a), Maj(a, b, c));
      h := g;
      g := f;
      f := e;
      e := Add32(d, t1);
      d := c;
      c := b;
      b := a;
      a := Add32(t1, t2);
      assert Vars(a, b, c, d, e, f, g, h) == Round(v, K(i), w[i]);
    }
    AddToState(state, Vars(a, b, c, d, e, f, g, h));
  }

  method AddToState(state: array<word32>, v: Vars)
    requires state.Length == 8
    modifies state
    ensures var s := old(state[..]);
      state[..] == [Add32(s[0], v.a), Add32(s[1], v.b), Add32(s[2], v.c), Add32(s[3], v.d),
        Add32(s[4], v.e), Add32(s[5], v.f), Add32(s[6], v.g), Add32(s[7], v.h)]
  {
    hide Add32;
    state[0] := Add32(state[0], v.a);
    state[1] := Add32(state[1], v.b);
    state[2] := Add32(state[2], v.c);
    state[3] := Add32(state[3], v.d);
    state[4] := Add32(state[4], v.e);
    state[5] := Add32(state[5], v.f);
    state[6] := Add32(state[6], v.g);
    state[7] := Add32(state[7], v.h);
  }

  /** sha256_compress_blocks */
  method CompressBlocks(state: array<word32>, data: array<byte>, at: nat, blocks: nat)
    requires state.Length == 8 && at + 64 * blocks <= data.Length
    modifies state
    ensures state[..] == Fold(old(state[..]), data[at..at + 64 * blocks], blocks)
  {
    hide Compress;
    ghost var was: State, text := state[..], data[at..at + 64 * blocks];
    for i := 0 to blocks
      invariant state[..] == Fold(was, text, i)
    {
      assert data[at + 64 * i..at + 64 * i + 64] == text[64 * (i + 1) - 64..64 * (i + 1)];
      CompressBlock(state, data, at + 64 * i);
    }
  }
}
