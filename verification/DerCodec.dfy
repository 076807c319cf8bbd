/** The encoders and decoders of asn1.c. An encoder gets an output pointer, which may be NULL, and a length
    it adds to; a decoder gets an input pointer and the length that is left, and advances both. */
module DerCodec {
  import opened DerSpec
  import opened OctetStrings
  import opened Positional

  // ----- output -----

  /** What an output has written, what space is ahead of it, and what it has counted. */
  datatype Snapshot = Snapshot(dry: bool, done: Octets, ahead: Octets, count: nat)

  predicate Fits(s: Snapshot, n: nat) { s.dry || n <= |s.ahead| }

  /** The state after b: a dry run counts it, a real run writes it and counts it. */
  function Plus(s: Snapshot, b: Octets): (r: Snapshot)
    requires Fits(s, |b|)
  {
    if s.dry then s.(count := s.count + |b|) else Snapshot(false, s.done + b, s.ahead[|b|..], s.count + |b|)
  }

  lemma PlusPlus(s: Snapshot, a: Octets, b: Octets)
    requires Fits(s, |a| + |b|)
    ensures Fits(Plus(s, a), |b|) && Plus(Plus(s, a), b) == Plus(s, a + b)
  {
    if !s.dry {
      assert s.done + a + b == s.done + (a + b);
      assert s.ahead[|a|..][|b|..] == s.ahead[|a| + |b|..];
    }
  }

  lemma PlusNothing(s: Snapshot)
    ensures Fits(s, 0) && Plus(s, []) == s
  {
  }

  /** The pair out, outlen: a buffer with a position, or NULL, and a count. */
  class Out {
    const buf: array?<octet>
    var pos: nat
    var outlen: nat

    constructor (buf: array?<octet>)
      ensures this.buf == buf && pos == 0 && outlen == 0 && Ok()
    {
      this.buf, pos, outlen := buf, 0, 0;
    }

    predicate Ok()
      reads this
    {
      buf != null ==> pos <= buf.Length
    }

    function Frame(): set<object> { if buf == null then {this} else {this, buf} }

    ghost function Now(): (s: Snapshot)
      requires Ok()
      reads this, Frame()
      ensures s.dry == (buf == null)
    {
      if buf == null then Snapshot(true, [], [], outlen) else Snapshot(false, buf[..pos], buf[pos..], outlen)
    }

    /** if (out) *(*out)++ = b; (*outlen)++ */
    method Put(b: octet)
      requires Ok() && Fits(Now(), 1)
      modifies Frame()
      ensures Ok() && Now() == Plus(old(Now()), [b])
    {
      if buf != null {
        ghost var done, ahead := buf[..pos], buf[pos..];
        buf[pos] := b;
        pos := pos + 1;
        assert buf[..pos] == done + [b] && buf[pos..] == ahead[1..];
      }
      outlen := outlen + 1;
    }

    /** asn1_data_to_der */
    method PutData(data: Octets)
      requires Ok() && Fits(Now(), |data|)
      modifies Frame()
      ensures Ok() && Now() == Plus(old(Now()), data)
    {
      if buf != null {
        ghost var done, ahead := buf[..pos], buf[pos..];
        forall k | 0 <= k < |data| { buf[pos + k] := data[k]; }
        assert buf[..pos] == done;
        assert buf[pos..pos + |data|] == data;
        pos := pos + |data|;
        assert buf[..pos] == done + data && buf[pos..] == ahead[|data|..];
      }
      outlen := outlen + |data|;
    }
  }

  // ----- encoders -----

  lemma {:induction false} BeSuffix(v: nat, k: nat, i: nat)
    requires i <= k
    ensures Be(v, k)[k - i..] == Be(v, i)
  {
    if i != 0 { BeSuffix(v / 256, k - 1, i - 1); }
  }

  /** PUTU32 */
  method PutU32(v: nat) returns (buf: array<octet>)
    ensures fresh(buf) && buf[..] == Be(v, 4)
  {
    buf := new octet[4];
    buf[0] := v / 0x100_0000 % 256;
    buf[1] := v / 0x1_0000 % 256;
    buf[2] := v / 0x100 % 256;
    buf[3] := v % 256;
    ghost var a := v / 256;
    ghost var b := a / 256;
    assert Be(v, 4) == Be(a, 3) + [v % 256] && Be(a, 3) == Be(b, 2) + [a % 256]
      && Be(b, 2) == Be(b / 256, 1) + [b % 256];
    assert Be(b / 256, 1) == [b / 256 % 256];
  }

  /** asn1_length_to_der */
  method LengthToDer(len: nat, o: Out)
    requires o.Ok() && Fits(o.Now(), |LengthBytes(len)|)
    modifies o.Frame()
    ensures o.Ok() && o.Now() == Plus(old(o.Now()), LengthBytes(len))
  {
    hide Be, Plus, Fits, LengthBytes;
    LengthParts(o.Now(), len);
    if len < 128 {
      o.Put(len);
    } else {
      var buf := PutU32(len);
      var i := if len < 256 then 1 else if len < 65536 then 2 else if len < 0x100_0000 then 3 else 4;
      BeSuffix(len, 4, i);
      assert buf[4 - i..4] == buf[..][4 - i..];
      o.Put(0x80 + i);
      o.PutData(buf[4 - i..4]);
    }
  }

  lemma LengthParts(s: Snapshot, len: nat)
    requires Fits(s, |LengthBytes(len)|)
    ensures len < 128 ==> Fits(s, 1) && LengthBytes(len) == [len]
    ensures len >= 128 ==> var i := LengthSize(len);
      && i == (if len < 256 then 1 else if len < 65536 then 2 else if len < 0x100_0000 then 3 else 4)
      && Fits(s, 1) && Fits(Plus(s, [0x80 + i]), i)
         && Plus(Plus(s, [0x80 + i]), Be(len, i)) == Plus(s, LengthBytes(len))
  {
    hide Be, Plus;
    if len >= 128 { PlusPlus(s, [0x80 + LengthSize(len)], Be(len, LengthSize(len))); }
  }

  /** asn1_header_to_der */
  method HeaderToDer(tag: octet, len: nat, o: Out)
    requires o.Ok() && Fits(o.Now(), 1 + |LengthBytes(len)|)
    modifies o.Frame()
    ensures o.Ok() && o.Now() == Plus(old(o.Now()), [tag] + LengthBytes(len))
  {
    hide LengthBytes;
    PlusPlus(o.Now(), [tag], LengthBytes(len));
    o.Put(tag);
    LengthToDer(len, o);
  }

  /** asn1_type_to_der, for data that is there */
  method TypeToDer(tag: octet, d: Octets, o: Out)
    requires o.Ok() && Fits(o.Now(), |TypeBytes(tag, d)|)
    modifies o.Frame()
    ensures o.Ok() && o.Now() == Plus(old(o.Now()), TypeBytes(tag, d))
  {
    hide LengthBytes;
    PlusPlus(o.Now(), [tag] + LengthBytes(|d|), d);
    HeaderToDer(tag, |d|, o);
    o.PutData(d);
  }

  const INT_MAX: nat := 0x7fff_ffff

  /** The loop that drops leading zeros, but not the last octet */
  method StripZeros(a: Octets) returns (b: Octets)
    requires a != []
    ensures b == Strip(a)
  {
    var at := 0;
    while a[at] == 0 && at < |a| - 1
      invariant at < |a| && Strip(a[at..]) == Strip(a)
    {
      assert a[at..][1..] == a[at + 1..];
      at := at + 1;
    }
    b := a[at..];
  }

  /** The length and the octets, behind a zero if they would read as a negative number */
  method PaddedToDer(b: Octets, o: Out)
    requires b != [] && o.Ok() && Fits(o.Now(), |LengthBytes(|Padded(b)|) + Padded(b)|)
    modifies o.Frame()
    ensures o.Ok() && o.Now() == Plus(old(o.Now()), LengthBytes(|Padded(b)|) + Padded(b))
  {
    hide LengthBytes, Plus;
    ghost var l := LengthBytes(|Padded(b)|);
    PlusPlus(o.Now(), l, Padded(b));
    if b[0] >= 128 {
      PlusPlus(Plus(o.Now(), l), [0], b);
      LengthToDer(|b| + 1, o);
      o.Put(0);
      o.PutData(b);
    } else {
      LengthToDer(|b|, o);
      o.PutData(b);
    }
  }

  /** asn1_integer_to_der_ex: -1 for no octets at all, or too many. */
  method IntegerToDer(tag: octet, a: Octets, o: Out) returns (ret: int)
    requires o.Ok() && Fits(o.Now(), |IntegerBytes(tag, a)|)
    modifies o.Frame()
    ensures o.Ok() && ret == (if a == [] || |a| > INT_MAX then -1 else 1)
    ensures o.Now() == if ret == 1 then Plus(old(o.Now()), IntegerBytes(tag, a)) else old(o.Now())
  {
    if |a| <= 0 || |a| > INT_MAX { return -1; }
    hide LengthBytes, Plus, Strip, TypeBytes, Fits;
    PlusPlus(o.Now(), [tag], LengthBytes(|Padded(Strip(a))|) + Padded(Strip(a)));
    IntegerIs(o.Now(), tag, a);
    o.Put(tag);
    var b := StripZeros(a);
    PaddedToDer(b, o);
    ret := 1;
  }

  lemma IntegerIs(s: Snapshot, tag: octet, a: Octets)
    requires Fits(s, |IntegerBytes(tag, a)|)
    ensures IntegerBytes(tag, a) == [tag] + (LengthBytes(|Padded(Strip(a))|) + Padded(Strip(a)))
    ensures Fits(s, 1)
  {
    hide LengthBytes, Strip, Padded;
  }

  /** The loop that fills the buffer from its end */
  method IntOctets(a: int) returns (buf: array<octet>, len: nat)
    requires a <= INT_MAX
    ensures fresh(buf) && buf.Length == 4 && len <= 4 && buf[4 - len..] == Digits(256, Clamped(a))
    ensures len < 4 ==> buf[3] == 0 || len > 0
    ensures len == 0 ==> buf[3] == 0
  {
    buf := new octet[4](_ => 0);
    len := 0;
    var v := a;
    SmallPowers();
    hide Digits, Pow;
    NoDigits();
    while v > 0
      invariant len <= 4 && (a <= 0 ==> v == a && len == 0) && (a > 0 ==> 0 <= v)
      invariant v < Pow(256, 4 - len) && (len == 0 ==> buf[3] == 0)
      invariant a > 0 ==> Digits(256, v) + buf[4 - len..] == Digits(256, a)
    {
      PowersOf256(len);
      ghost var tail := buf[4 - len..];
      PutBefore(buf, 3 - len, v % 256);
      OneDigit(v);
      DigitMoves(Digits(256, v / 256), v % 256, tail);
      v := v / 256;
      len := len + 1;
    }
  }

  method PutBefore(buf: array<octet>, at: nat, x: octet)
    requires at < buf.Length
    modifies buf
    ensures buf[at..] == [x] + old(buf[at + 1..]) && buf[at] == x
  {
    buf[at] := x;
  }

  lemma DigitMoves(high: seq<nat>, x: nat, tail: seq<nat>)
    ensures high + [x] + tail == high + ([x] + tail)
  {
  }

  lemma NoDigits()
    ensures Digits(256, 0) == []
  {
  }

  lemma OneDigit(v: nat)
    requires v > 0
    ensures Digits(256, v) == Digits(256, v / 256) + [v % 256]
  {
  }

  lemma PowersOf256(len: nat)
    requires len <= 4
    ensures len == 4 ==> Pow(256, 4 - len) == 1
    ensures len < 4 ==> Pow(256, 4 - len) == 256 * Pow(256, 3 - len)
  {
  }

  /** asn1_int_to_der: nothing for -1. */
  method IntToDer(a: int, o: Out) returns (ret: int)
    requires a <= INT_MAX && o.Ok() && Fits(o.Now(), |IntBytes(Clamped(a))|)
    modifies o.Frame()
    ensures o.Ok() && ret == if a == -1 then 0 else 1
    ensures o.Now() == if ret == 1 then Plus(old(o.Now()), IntBytes(Clamped(a))) else old(o.Now())
  {
    hide LengthBytes, Plus, Fits, IntegerBytes, Digits;
    if a == -1 { return 0; }
    var buf, len := IntOctets(a);
    MagnitudeOf(a);
    if len == 0 { len := 1; }
    assert buf[4 - len..] == Magnitude(Clamped(a));
    ret := IntegerToDer(TAG_INTEGER, buf[4 - len..], o);
  }

  lemma MagnitudeOf(a: int)
    ensures Magnitude(Clamped(a)) == if a > 0 then Digits(256, Clamped(a)) else [0]
    ensures Digits(256, 0) == [] && (a > 0 ==> Digits(256, a) != [])
  {
  }

  // ----- sequences of integers -----

  predicate Encodable(nums: seq<int>) { forall i :: 0 <= i < |nums| ==> -1 != nums[i] <= INT_MAX }

  lemma {:induction false} ContentsOfBoth(a: seq<int>, b: seq<int>)
    ensures Contents(a + b) == Contents(a) + Contents(b)
  {
    hide IntBytes, Clamped;
    if a == [] {
      assert a + b == b;
    } else {
      assert (a + b)[1..] == a[1..] + b && (a + b)[0] == a[0];
      ContentsOfBoth(a[1..], b);
    }
  }

  lemma ContentsNext(nums: seq<int>, i: nat)
    requires i < |nums|
    ensures Contents(nums[..i + 1]) == Contents(nums[..i]) + IntBytes(Clamped(nums[i]))
    ensures |Contents(nums[..i + 1])| <= |Contents(nums)|
  {
    hide IntBytes, Clamped;
    ContentsOfBoth(nums[..i], [nums[i]]);
    assert nums[..i + 1] == nums[..i] + [nums[i]];
    assert Contents([nums[i]]) == IntBytes(Clamped(nums[i])) + Contents([nums[i]][1..]) && [nums[i]][1..] == [];
    ContentsOfBoth(nums[..i + 1], nums[i + 1..]);
    assert nums == nums[..i + 1] + nums[i + 1..];
  }

  /** One pass over the integers; the source has it twice, first with NULL. */
  method IntsToDer(nums: seq<int>, o: Out) returns (ret: int)
    requires (forall i :: 0 <= i < |nums| ==> nums[i] <= INT_MAX) && o.Ok() && Fits(o.Now(), |Contents(nums)|)
    modifies o.Frame()
    ensures o.Ok() && ret == if Encodable(nums) then 1 else -1
    ensures ret == 1 ==> o.Now() == Plus(old(o.Now()), Contents(nums))
  {
    hide IntBytes;
    ghost var s := o.Now();
    assert nums[..0] == [];
    PlusNothing(s);
    for i := 0 to |nums|
      invariant o.Ok() && Encodable(nums[..i]) && Fits(s, |Contents(nums[..i])|)
        && o.Now() == Plus(s, Contents(nums[..i]))
    {
      ContentsNext(nums, i);
      PlusPlus(s, Contents(nums[..i]), IntBytes(Clamped(nums[i])));
      var r := IntToDer(nums[i], o);
      if r != 1 { return -1; }
    }
    assert nums[..|nums|] == nums;
    ret := 1;
  }

  lemma DryCounts(s: Snapshot, b: Octets)
    requires s.dry
    ensures Fits(s, |b|) && Plus(s, b).count == s.count + |b|
  {
  }

  lemma TypeParts(s: Snapshot, tag: octet, d: Octets)
    requires Fits(s, |TypeBytes(tag, d)|)
    ensures Fits(s, 1 + |LengthBytes(|d|)|) && Fits(Plus(s, [tag] + LengthBytes(|d|)), |d|)
    ensures Plus(Plus(s, [tag] + LengthBytes(|d|)), d) == Plus(s, TypeBytes(tag, d))
  {
    hide LengthBytes, Plus;
    PlusPlus(s, [tag] + LengthBytes(|d|), d);
  }

  /** asn1_sequence_of_int_to_der: a dry run counts the octets of the integers for the header. */
  method SequenceOfIntToDer(nums: seq<int>, o: Out) returns (ret: int)
    requires (forall i :: 0 <= i < |nums| ==> nums[i] <= INT_MAX) && o.Ok()
      && Fits(o.Now(), |TypeBytes(TAG_SEQUENCE, Contents(nums))|)
    modifies o.Frame()
    ensures o.Ok() && ret == if Encodable(nums) then 1 else -1
    ensures o.Now() == if ret == 1 then Plus(old(o.Now()), TypeBytes(TAG_SEQUENCE, Contents(nums))) else old(o.Now())
  {
    hide LengthBytes, Contents, Plus, Fits, TypeBytes;
    var len := new Out(null);
    DryCounts(len.Now(), Contents(nums));
    ret := IntsToDer(nums, len);
    if ret != 1 { return -1; }
    TypeParts(o.Now(), TAG_SEQUENCE, Contents(nums));
    HeaderToDer(TAG_SEQUENCE, len.outlen, o);
    ret := IntsToDer(nums, o);
  }

  // ----- object identifiers -----

  function Reversed(s: Octets): (r: Octets)
    ensures |r| == |s|
  {
    if s == [] then [] else Reversed(s[1..]) + [s[0]]
  }

  lemma {:induction false} ReversedNext(s: Octets, x: octet)
    ensures Reversed(s + [x]) == [x] + Reversed(s)
  {
    if s == [] {
      assert [x][1..] == [];
    } else {
      assert (s + [x])[1..] == s[1..] + [x];
      ReversedNext(s[1..], x);
    }
  }

  /** The loops of asn1_oid_node_to_base128 that fill the buffer, least significant octet first */
  method NodeOctets(a: nat) returns (buf: array<octet>, n: nat)
    requires a < TWO32
    ensures fresh(buf) && n <= buf.Length && Reversed(buf[..n]) == NodeBytes(a)
  {
    buf := new octet[5];
    buf[0] := a % 128;
    n := 1;
    var v: nat := a / 128;
    NodeStart(a);
    ghost var s := [a % 128];
    assert buf[..1] == s;
    while v != 0
      invariant 1 <= n <= 5 && v < PowerLeft(n) && buf[..n] == s
      invariant More(v) + Reversed(s) == NodeBytes(a)
    {
      hide NodeBytes, Reversed, More;
      LessLeft(v, n);
      NodeStep(v, s);
      s := s + [0x80 + v % 128];
      buf[n] := 0x80 + v % 128;
      n := n + 1;
      v := v / 128;
    }
  }

  /** What may be left of a 32-bit number after n steps */
  function PowerLeft(n: nat): nat {
    if n == 1 then 0x200_0000 else if n == 2 then 0x4_0000 else if n == 3 then 0x800 else if n == 4 then 0x10 else 1
  }

  lemma LessLeft(v: nat, n: nat)
    requires 0 < v < PowerLeft(n) && 1 <= n <= 5
    ensures n < 5 && v / 128 < PowerLeft(n + 1)
  {
  }

  lemma NodeStart(a: nat)
    ensures NodeBytes(a) == More(a / 128) + Reversed([a % 128])
    ensures More(0) == []
  {
    assert [a % 128][1..] == [];
  }

  lemma NodeStep(v: nat, s: Octets)
    requires v != 0
    ensures More(v) + Reversed(s) == More(v / 128) + Reversed(s + [0x80 + v % 128])
  {
    ReversedNext(s, 0x80 + v % 128);
    assert More(v) == More(v / 128) + [0x80 + v % 128];
  }

  /** asn1_oid_node_to_base128 */
  method NodeToDer(a: nat, o: Out)
    requires a < TWO32 && o.Ok() && Fits(o.Now(), |NodeBytes(a)|)
    modifies o.Frame()
    ensures o.Ok() && o.Now() == Plus(old(o.Now()), NodeBytes(a))
  {
    hide NodeBytes, Plus, Fits;
    ghost var s := o.Now();
    var buf, n := NodeOctets(a);
    ghost var all, done := buf[..n], [];
    PlusNothing(s);
    assert NodeBytes(a) == [] + Reversed(all) && all[..n] == all;
    while n > 0
      invariant n <= |all| && buf.Length >= |all| && buf[..|all|] == all
      invariant o.Ok() && FitsAll(s, done, all[..n]) && o.Now() == Plus(s, done)
        && done + Reversed(all[..n]) == NodeBytes(a)
    {
      PutNext(s, done, all, n);
      n := n - 1;
      assert buf[n] == all[n];
      o.Put(buf[n]);
      done := done + [all[n]];
    }
    assert all[..0] == [] && done + Reversed([]) == done;
  }

  predicate FitsAll(s: Snapshot, done: Octets, rest: Octets) { Fits(s, |done| + |rest|) && Fits(s, |done|) }

  lemma PutNext(s: Snapshot, done: Octets, all: Octets, n: nat)
    requires 0 < n <= |all| && FitsAll(s, done, all[..n])
    ensures var x := all[n - 1];
      && Fits(Plus(s, done), 1) && Plus(Plus(s, done), [x]) == Plus(s, done + [x])
         && FitsAll(s, done + [x], all[..n - 1])
      && done + Reversed(all[..n]) == done + [x] + Reversed(all[..n - 1])
  {
    var x := all[n - 1];
    PlusPlus(s, done, [x]);
    assert all[..n] == all[..n - 1] + [x];
    ReversedNext(all[..n - 1], x);
  }

  /** asn1_object_identifier_to_octets: -1 for fewer than two nodes, or more than 32. Its loop writes without
      asking for a buffer, and its first octet sets the count to one, so it needs a buffer and an empty count. */
  method OidToOctets(nodes: seq<nat>, o: Out) returns (ret: int)
    requires o.buf != null && o.outlen == 0
    requires Nodes(nodes) && o.Ok() && (2 <= |nodes| <= 32 ==> Fits(o.Now(), |OidOctets(nodes)|))
    modifies o.Frame()
    ensures o.Ok() && ret == if 2 <= |nodes| <= 32 then 1 else -1
    ensures o.Now() == if ret == 1 then Plus(old(o.Now()), OidOctets(nodes)) else old(o.Now())
  {
    if |nodes| < 2 || |nodes| > 32 { return -1; }
    hide NodesBytes, Plus;
    ghost var s, first, rest := o.Now(), [(nodes[0] * 40 + nodes[1]) % 256], nodes[2..];
    PlusPlus(s, first, NodesBytes(rest));
    o.Put((nodes[0] * 40 + nodes[1]) % 256);
    ghost var t := o.Now();
    PlusNothing(t);
    NoNodes();
    assert rest[..0] == [];
    for i := 0 to |nodes| - 2
      invariant Fits(t, |NodesBytes(rest)|) && |NodesBytes(rest[..i])| <= |NodesBytes(rest)|
      invariant o.Ok() && o.Now() == Plus(t, NodesBytes(rest[..i]))
    {
      NodesNext(rest, i);
      PlusPlus(t, NodesBytes(rest[..i]), NodeBytes(rest[i]));
      assert nodes[i + 2] == rest[i];
      NodeToDer(nodes[i + 2], o);
    }
    assert rest[..|rest|] == rest;
    ret := 1;
  }

  lemma NoNodes()
    ensures NodesBytes([]) == []
  {
  }

  lemma {:induction false} NodesOfBoth(a: seq<nat>, b: seq<nat>)
    ensures NodesBytes(a + b) == NodesBytes(a) + NodesBytes(b)
  {
    hide NodeBytes;
    if a == [] {
      assert a + b == b;
    } else {
      assert (a + b)[1..] == a[1..] + b && (a + b)[0] == a[0];
      NodesOfBoth(a[1..], b);
    }
  }

  lemma NodesNext(nodes: seq<nat>, i: nat)
    requires i < |nodes|
    ensures NodesBytes(nodes[..i + 1]) == NodesBytes(nodes[..i]) + NodeBytes(nodes[i])
    ensures |NodesBytes(nodes[..i + 1])| <= |NodesBytes(nodes)|
  {
    hide NodeBytes;
    NodesOfBoth(nodes[..i], [nodes[i]]);
    assert nodes[..i + 1] == nodes[..i] + [nodes[i]];
    assert NodesBytes([nodes[i]]) == NodeBytes(nodes[i]) + NodesBytes([nodes[i]][1..]) && [nodes[i]][1..] == [];
    NodesOfBoth(nodes[..i + 1], nodes[i + 1..]);
    assert nodes == nodes[..i + 1] + nodes[i + 1..];
  }

  /** asn1_object_identifier_to_der: the octets go through a buffer of 32; with a number of nodes that
      cannot be encoded they are empty. */
  method OidToDer(nodes: seq<nat>, o: Out)
    requires Nodes(nodes) && (2 <= |nodes| <= 32 ==> |OidOctets(nodes)| <= 32)
    requires o.Ok()
      && Fits(o.Now(), |TypeBytes(TAG_OBJECT_IDENTIFIER, if 2 <= |nodes| <= 32 then OidOctets(nodes) else [])|)
    modifies o.Frame()
    ensures o.Ok()
    ensures o.Now() == Plus(old(o.Now()),
      TypeBytes(TAG_OBJECT_IDENTIFIER, if 2 <= |nodes| <= 32 then OidOctets(nodes) else []))
  {
    hide LengthBytes, OidOctets, TypeBytes;
    ghost var d := if 2 <= |nodes| <= 32 then OidOctets(nodes) else [];
    var buf := new octet[32];
    var octets := new Out(buf);
    var _ := OidToOctets(nodes, octets);
    assert buf[..octets.outlen] == d;
    TypeParts(o.Now(), TAG_OBJECT_IDENTIFIER, d);
    HeaderToDer(TAG_OBJECT_IDENTIFIER, octets.outlen, o);
    o.PutData(buf[..octets.outlen]);
  }

  // ----- input -----

  /** The pair in, inlen: a pointer into some input, and how much of it is left. */
  class In {
    const data: Octets
    var at: nat
    var inlen: nat

    constructor (data: Octets)
      ensures this.data == data && Ok() && Rest() == data
    {
      this.data, at, inlen := data, 0, |data|;
    }

    predicate Ok()
      reads this
    {
      at + inlen <= |data|
    }

    function Rest(): (r: Octets)
      requires Ok()
      reads this
      ensures |r| == inlen && (inlen > 0 ==> r[0] == data[at])
    {
      data[at..at + inlen]
    }

    /** **in */
    function Head(): (b: octet)
      requires Ok() && inlen > 0
      reads this
      ensures b == Rest()[0]
    {
      data[at]
    }

    /** *(*in)++, with (*inlen)-- */
    method Next() returns (b: octet)
      requires Ok() && inlen > 0
      modifies this
      ensures Ok() && b == old(Rest())[0] && Rest() == old(Rest())[1..]
    {
      b := Head();
      Advance(1);
    }

    /** n octets, i behind the pointer */
    function Behind(i: nat, n: nat): (r: Octets)
      requires Ok() && i + n <= inlen
      reads this
      ensures r == Rest()[i..i + n]
    {
      var r := data[at + i..at + i + n];
      assert forall k :: 0 <= k < n ==> r[k] == Rest()[i + k];
      r
    }

    method Advance(n: nat)
      requires Ok() && n <= inlen
      modifies this
      ensures Ok() && Rest() == old(Rest())[n..]
    {
      at, inlen := at + n, inlen - n;
    }

    /** asn1_data_from_der */
    method Take(n: nat) returns (ret: int, d: Octets)
      requires Ok()
      modifies this
      ensures Ok() && ret == if old(inlen) < n then -1 else 1
      ensures ret == 1 ==> d == old(Rest())[..n] && Rest() == old(Rest())[n..]
      ensures ret != 1 ==> Rest() == old(Rest())
    {
      if inlen < n { return -1, []; }
      d := data[at..at + n];
      Advance(n);
      ret := 1;
    }
  }

  /** GETU32 */
  function GetU32(buf: Octets): nat
    requires |buf| == 4
  {
    var a: nat, b: nat, c: nat, d: nat := buf[0], buf[1], buf[2], buf[3];
    a * 0x100_0000 + b * 0x1_0000 + c * 0x100 + d
  }

  lemma GetIsValue(s: Octets)
    requires |s| <= 4
    ensures GetU32(seq(4 - |s|, _ => 0) + s) == Value(256, s)
  {
    var z := seq(4 - |s|, _ => 0);
    var b := z + s;
    ValueTrim(256, b, |z|);
    assert b[|z|..] == s;
    ValueOfFour(b);
  }

  lemma ValueOfFour(b: Octets)
    requires |b| == 4
    ensures Value(256, b) == GetU32(b)
  {
    assert b == [] + [b[0]] + [b[1]] + [b[2]] + [b[3]];
    ValueNext(256, [], b[0]);
    ValueNext(256, [] + [b[0]], b[1]);
    ValueNext(256, [] + [b[0]] + [b[1]], b[2]);
    ValueNext(256, [] + [b[0]] + [b[1]] + [b[2]], b[3]);
  }

  /** asn1_tag_from_der */
  method TagFromDer(tag: octet, input: In) returns (ret: int)
    requires input.Ok()
    modifies input
    ensures input.Ok() && ret == (if old(input.Rest()) == [] || old(input.Rest())[0] != tag then 0 else 1)
    ensures input.Rest() == if ret == 1 then old(input.Rest())[1..] else old(input.Rest())
  {
    if input.inlen == 0 { return 0; }
    if input.Head() != tag { return 0; }
    input.Advance(1);
    ret := 1;
  }

  /** asn1_length_from_der: -1 for no length, -2 for one that exceeds the input. */
  method LengthFromDer(input: In) returns (ret: int, len: nat)
    requires input.Ok()
    modifies input
    ensures input.Ok()
    ensures ParseLength(old(input.Rest())).NoLength? ==> ret == -1 && input.Rest() == old(input.Rest())
    ensures ParseLength(old(input.Rest())).Length? ==>
      && len == ParseLength(old(input.Rest())).len
         && input.Rest() == old(input.Rest())[ParseLength(old(input.Rest())).used..]
      && ret == if input.inlen < len then -2 else 1
  {
    hide In.Rest, In.Ok, Value, GetU32;
    len := 0;
    if input.inlen <= 0 { return -1, 0; }
    var b := input.Head();
    if b < 128 {
      len := b;
      input.Advance(1);
    } else {
      var nbytes := b % 128;
      if nbytes < 1 || nbytes > 4 { return -1, 0; }
      if input.inlen - 1 < nbytes { return -1, 0; }
      var bytes := input.Behind(1, nbytes);
      GetIsValue(bytes);
      len := GetU32(seq(4 - nbytes, _ => 0) + bytes);
      input.Advance(1 + nbytes);
    }
    ret := if input.inlen < len then -2 else 1;
  }

  /** asn1_type_from_der */
  method TypeFromDer(tag: octet, input: In) returns (ret: int, d: Octets)
    requires input.Ok()
    modifies input
    ensures input.Ok() && var p := ParseType(tag, old(input.Rest()));
      ret == p.ret && input.Rest() == p.rest && (ret == 1 ==> d == p.value)
  {
    hide ParseLength;
    d := [];
    ret := TagFromDer(tag, input);
    if ret != 1 { return; }
    var r, len := LengthFromDer(input);
    if r != 1 { return -1, []; }
    r, d := input.Take(len);
    if r != 1 { return -1, []; }
  }

  /** The octets of an integer, without a zero that only keeps it from reading as negative */
  method Unpad(copy: In, n: nat) returns (ret: int, a: Octets)
    requires copy.Ok() && 0 < n <= copy.inlen
    modifies copy
    ensures copy.Ok() && ret == Unpadded(old(copy.Rest())[..n]).0
    ensures ret == 1 ==> a == Unpadded(old(copy.Rest())[..n]).1 && copy.Rest() == old(copy.Rest())[n..]
  {
    hide In.Rest, In.Ok;
    UnpaddedIs(copy.Rest(), n);
    var len := n;
    if copy.Head() >= 128 { return -255, []; }
    if copy.Head() == 0 && len > 1 {
      copy.Advance(1);
      len := len - 1;
    }
    if copy.Head() == 0 && len > 1 { return -1, []; }
    var _, d := copy.Take(len);
    ret, a := 1, d;
  }

  /** asn1_integer_from_der_ex: it works on copies of the pointers, and stores them when it succeeds. */
  method IntegerFromDer(tag: octet, input: In) returns (ret: int, a: Octets)
    requires input.Ok()
    modifies input
    ensures input.Ok() && var p := ParseInteger(tag, old(input.Rest()));
      ret == p.ret && input.Rest() == p.rest && (ret == 1 ==> a == p.value)
  {
    hide ParseLength, Unpadded, In.Rest, In.Ok;
    ghost var s := input.Rest();
    var copy := new In(input.Behind(0, input.inlen));
    assert s[0..|s|] == s && copy.Rest() == s;
    var t := TagFromDer(tag, copy);
    if t != 1 { return 0, []; }
    var r, len := LengthFromDer(copy);
    if r != 1 || len <= 0 { return -1, []; }
    ret, a := Unpad(copy, len);
    if ret == 1 {
      SuffixIs(s, copy.Rest(), |s| - copy.inlen);
      input.Advance(input.inlen - copy.inlen);
    }
  }

  lemma SuffixIs(s: Octets, t: Octets, n: nat)
    requires n <= |s| && t == s[n..]
    ensures s[|s| - |t|..] == t
  {
  }

  lemma UnpaddedIs(t: Octets, len: nat)
    requires 0 < len <= |t|
    ensures t[..len][0] == t[0]
    ensures len > 1 ==> t[..len][1..] == t[1..][..len - 1] && t[len..] == t[1..][len - 1..] && t[1..][0] == t[1]
  {
  }

  /** asn1_int_from_der */
  method IntFromDer(input: In) returns (ret: int, a: int)
    requires input.Ok()
    modifies input
    ensures input.Ok() && var p := ParseInt(old(input.Rest())); ret == p.ret && a == p.value && input.Rest() == p.rest
  {
    hide ParseInteger, Value, Signed;
    var r, p := IntegerFromDer(TAG_INTEGER, input);
    if r != 1 { return r, -1; }
    if |p| > 8 { return -1, -1; }
    var val := Low32(p);
    SignedOfLow(Value(256, p));
    ret, a := 1, Signed(val);
  }

  /** The loop over the octets, in 32 bits */
  method Low32(p: Octets) returns (val: nat)
    ensures val == Value(256, p) % TWO32
  {
    hide Value;
    val := 0;
    NoOctets();
    assert p[..0] == [];
    for i := 0 to |p|
      invariant val == Value(256, p[..i]) % TWO32
    {
      assert p[..i + 1] == p[..i] + [p[i]];
      ValueNext(256, p[..i], p[i]);
      LowBits(Value(256, p[..i]), p[i]);
      val := (val * 256 + p[i]) % TWO32;
    }
    assert p[..|p|] == p;
  }

  lemma NoOctets()
    ensures Value(256, []) == 0
  {
  }

  lemma LowBits(v: nat, b: octet)
    ensures (v % TWO32 * 256 + b) % TWO32 == (v * 256 + b) % TWO32
  {
  }

  lemma SignedOfLow(v: nat)
    ensures Signed(v % TWO32) == Signed(v)
  {
  }

  /** asn1_sequence_of_int_from_der */
  method SequenceOfIntFromDer(input: In) returns (ret: int, nums: seq<int>)
    requires input.Ok()
    modifies input
    ensures input.Ok() && var p := ParseSequenceOfInt(old(input.Rest()));
      ret == p.ret && input.Rest() == p.rest && (ret == 1 ==> nums == p.value)
  {
    hide ParseType, ParseInt;
    nums := [];
    ghost var s := input.Rest();
    var r, d := TypeFromDer(TAG_SEQUENCE, input);
    if r != 1 { return r, []; }
    var inner := new In(d);
    assert [] + ParseInts(d).1 == ParseInts(d).1;
    assert input.Rest() == ParseType(TAG_SEQUENCE, s).rest;
    while inner.inlen > 0
      invariant inner.Ok() && input.Ok() && input.Rest() == ParseType(TAG_SEQUENCE, s).rest
      invariant ParseInts(d) == Before(nums, ParseInts(inner.Rest()))
      decreases inner.inlen
    {
      ghost var left := inner.Rest();
      IntsNext(nums, left);
      var one, num := IntFromDer(inner);
      if one != 1 { return -1, []; }
      nums := nums + [num];
    }
    assert inner.Rest() == [];
    ret := 1;
  }

  function Before(a: seq<int>, q: (int, seq<int>)): (int, seq<int>) { (q.0, a + q.1) }

  lemma IntsNext(nums: seq<int>, s: Octets)
    requires s != []
    ensures var p := ParseInt(s);
      Before(nums, ParseInts(s)) == if p.ret != 1 then (-1, nums) else Before(nums + [p.value], ParseInts(p.rest))
  {
    hide ParseInt;
    var p := ParseInt(s);
    assert nums + [] == nums;
    if p.ret == 1 { Regroup(nums, p.value, ParseInts(p.rest).1); }
  }

  lemma Regroup(nums: seq<int>, x: int, more: seq<int>)
    ensures nums + ([x] + more) == nums + [x] + more
  {
  }

  // ----- object identifiers -----

  /** The loop that reads a node's octets, up to the first without the high bit */
  method ReadNode(input: In) returns (ok: bool, buf: Octets)
    requires input.Ok()
    modifies input
    ensures input.Ok() && (ok <==> NodeLength(old(input.Rest()), 5) != 0)
    ensures ok ==> var n := NodeLength(old(input.Rest()), 5);
      buf == old(input.Rest())[..n] && input.Rest() == old(input.Rest())[n..]
  {
    hide NodeLength, In.Rest, In.Ok;
    ghost var s, n: nat := input.Rest(), 0;
    buf := [];
    while true
      invariant input.Ok() && n == |buf| <= 5 && n <= |s| && buf == s[..n] && input.Rest() == s[n..]
      invariant NodeLength(s, 5) == Later(n, NodeLength(s[n..], 5 - n))
      decreases 5 - n
    {
      NodeLengthStep(s[n..], 5 - n);
      OneOn(s, n);
      if input.inlen < 1 || |buf| >= 5 { return false, []; }
      var b := input.Next();
      buf, n := buf + [b], n + 1;
      if b < 128 { return true, buf; }
    }
  }

  /** asn1_oid_node_from_base128 */
  method NodeFromBase128(input: In) returns (ret: int, a: nat)
    requires input.Ok()
    modifies input
    ensures input.Ok() && ret == ParseNode(old(input.Rest())).ret
    ensures ret == 1 ==> a == ParseNode(old(input.Rest())).value && input.Rest() == ParseNode(old(input.Rest())).rest
  {
    hide NodeValue, NodeLength, In.Rest, In.Ok;
    var ok, buf := ReadNode(input);
    if !ok || (|buf| == 5 && buf[0] / 16 % 8 != 0) { return -1, 0; }
    a := NodeOf(buf);
    ret := 1;
  }

  lemma OneOn(s: Octets, n: nat)
    requires n <= |s|
    ensures n < |s| ==> s[n..] != [] && s[n..][0] == s[n] && s[n..][1..] == s[n + 1..] && s[..n + 1] == s[..n] + [s[n]]
  {
  }

  function Later(n: nat, k: nat): nat { if k == 0 then 0 else n + k }

  lemma NodeLengthStep(s: Octets, n: nat)
    ensures n == 0 || s == [] ==> NodeLength(s, n) == 0
    ensures n > 0 && s != [] && s[0] < 128 ==> NodeLength(s, n) == 1
    ensures n > 0 && s != [] && s[0] >= 128 ==> NodeLength(s, n) == Later(1, NodeLength(s[1..], n - 1))
  {
  }

  /** The shifts that put the low bits together; at most 32 of them are set. */
  method NodeOf(buf: Octets) returns (a: nat)
    requires |buf| <= 5 && (|buf| == 5 ==> buf[0] / 16 % 8 == 0)
    ensures a == NodeValue(buf)
  {
    hide NodeValue;
    a := 0;
    NodeOfNothing();
    assert buf[..0] == [];
    for i := 0 to |buf|
      invariant a == NodeValue(buf[..i]) && a < LimitAt(|buf|, i)
    {
      assert buf[..i + 1] == buf[..i] + [buf[i]];
      NodeValueNext(buf[..i], buf[i]);
      NoOverflow(a, buf[i], |buf|, i);
      a := (a * 128 + buf[i] % 128) % TWO32;
    }
    assert buf[..|buf|] == buf;
  }

  /** A bound of the value after i of n octets */
  function LimitAt(n: nat, i: nat): nat {
    if i == 0 then 1 else if i == 1 then (if n == 5 then 16 else 128)
      else if i == 2 then (if n == 5 then 0x800 else 0x4000)
    else if i == 3 then (if n == 5 then 0x4_0000 else 0x20_0000)
      else if i == 4 then (if n == 5 then 0x200_0000 else 0x1000_0000)
    else TWO32
  }

  lemma NoOverflow(a: nat, b: octet, n: nat, i: nat)
    requires i < n <= 5 && a < LimitAt(n, i) && (n == 5 && i == 0 ==> b / 16 % 8 == 0)
    ensures a * 128 + b % 128 < LimitAt(n, i + 1) <= TWO32
  {
  }

  lemma NodeOfNothing()
    ensures NodeValue([]) == 0
  {
  }

  /** asn1_object_identifier_from_octets */
  method OidFromOctets(octets: Octets) returns (ret: int, nodes: seq<nat>)
    ensures ret == ParseOid(octets).0 && (ret == 1 ==> nodes == ParseOid(octets).1)
  {
    hide ParseNode;
    if |octets| < 1 { return -1, []; }
    var input := new In(octets[1..]);
    nodes := [octets[0] / 40, octets[0] % 40];
    ghost var first := nodes;
    var count := 2;
    while input.inlen > 0
      invariant input.Ok() && count >= 2
      invariant ParseOid(octets) == (ParseNodes(input.Rest(), count).0, nodes + ParseNodes(input.Rest(), count).1)
      decreases input.inlen
    {
      ghost var s := input.Rest();
      NodesStep(nodes, s, count);
      if count > 32 { return -1, []; }
      var r, val := NodeFromBase128(input);
      if r < 0 { return -1, []; }
      nodes := nodes + [val];
      count := count + 1;
    }
    assert input.Rest() == [] && nodes + [] == nodes;
    ret := 1;
  }

  lemma NodesStep(nodes: seq<nat>, s: Octets, count: nat)
    requires s != []
    ensures var p := ParseNode(s);
      && (count > 32 || p.ret != 1 ==> ParseNodes(s, count).0 == -1)
      && (count <= 32 && p.ret == 1 ==>
        && ParseNodes(s, count).0 == ParseNodes(p.rest, count + 1).0
        && nodes + ParseNodes(s, count).1 == nodes + [p.value] + ParseNodes(p.rest, count + 1).1)
    ensures ParseNode(s).ret == 1 || ParseNode(s).ret == -1
  {
    var p := ParseNode(s);
    if count <= 32 && p.ret == 1 { Regrouped(nodes, p.value, ParseNodes(p.rest, count + 1).1); }
  }

  lemma Regrouped(nodes: seq<nat>, x: nat, more: seq<nat>)
    ensures nodes + ([x] + more) == nodes + [x] + more
  {
  }

  /** asn1_object_identifier_from_der */
  method OidFromDer(input: In) returns (ret: int, nodes: seq<nat>)
    requires input.Ok()
    modifies input
    ensures input.Ok() && var p := ParseOidType(TAG_OBJECT_IDENTIFIER, old(input.Rest()));
      ret == p.ret && input.Rest() == p.rest && (ret == 1 ==> nodes == p.value)
  {
    hide ParseType, ParseOid;
    var r, d := TypeFromDer(TAG_OBJECT_IDENTIFIER, input);
    if r != 1 { return r, []; }
    var q, found := OidFromOctets(d);
    if q != 1 { return -1, []; }
    ret, nodes := 1, found;
  }

  // ----- there and back -----

  /** A dry run sizes the buffer, and a real run fills it exactly. */
  method Encoded(nums: seq<int>) returns (ret: int, bytes: Octets)
    requires forall i :: 0 <= i < |nums| ==> nums[i] <= INT_MAX
    ensures ret == if Encodable(nums) then 1 else -1
    ensures ret == 1 ==> bytes == TypeBytes(TAG_SEQUENCE, Contents(nums))
  {
    ghost var want := TypeBytes(TAG_SEQUENCE, Contents(nums));
    hide TypeBytes, Contents, Plus;
    var dry := new Out(null);
    DryCounts(dry.Now(), want);
    ret := SequenceOfIntToDer(nums, dry);
    if ret != 1 { return -1, []; }
    var buf := new octet[dry.outlen];
    var o := new Out(buf);
    ghost var start := o.Now();
    assert buf[0..] == buf[..] && start.done == [];
    ret := SequenceOfIntToDer(nums, o);
    FilledExactly(start, want);
    assert buf[..o.pos] == want && o.pos == |want|;
    bytes := buf[..];
  }

  lemma FilledExactly(s: Snapshot, b: Octets)
    requires !s.dry && s.done == [] && |s.ahead| == |b|
    ensures Fits(s, |b|) && Plus(s, b).done == b && Plus(s, b).ahead == []
  {
  }

  /** Any list of ints, encoded and decoded. It is refused exactly when it holds -1. Otherwise the decoder leaves
      what follows, and gives the list back with zeros for its negative numbers: the list itself exactly when it
      has none. */
  method SequenceThereAndBack(nums: seq<int>, tail: Octets)
    returns (encoded: int, decoded: int, back: seq<int>, rest: Octets)
    requires (forall i :: 0 <= i < |nums| ==> nums[i] <= INT_MAX) && |Contents(nums)| < TWO32
    ensures encoded == if -1 in nums then -1 else 1
    ensures encoded == 1 ==> decoded == 1 && back == ClampAll(nums) && rest == tail
    ensures encoded == 1 ==>
      |back| == |nums| && forall i :: 0 <= i < |nums| ==> back[i] == if nums[i] > 0 then nums[i] else 0
    ensures encoded == 1 ==> (back == nums <==> forall i :: 0 <= i < |nums| ==> nums[i] >= 0)
  {
    hide TypeBytes, Contents, ParseSequenceOfInt;
    var bytes;
    encoded, bytes := Encoded(nums);
    if encoded != 1 { return -1, 0, [], []; }
    var input := new In(bytes + tail);
    NegativeBecomeZero(nums, tail);
    decoded, back := SequenceOfIntFromDer(input);
    rest := input.Rest();
  }

  method EncodedOid(nodes: seq<nat>) returns (bytes: Octets)
    requires 2 <= |nodes| <= 32 && Nodes(nodes) && |OidOctets(nodes)| <= 32
    ensures bytes == TypeBytes(TAG_OBJECT_IDENTIFIER, OidOctets(nodes))
  {
    hide TypeBytes, OidOctets, Plus;
    ghost var want := TypeBytes(TAG_OBJECT_IDENTIFIER, OidOctets(nodes));
    var dry := new Out(null);
    DryCounts(dry.Now(), want);
    OidToDer(nodes, dry);
    var buf := new octet[dry.outlen];
    var o := new Out(buf);
    ghost var start := o.Now();
    assert buf[0..] == buf[..] && start.done == [];
    OidToDer(nodes, o);
    FilledExactly(start, want);
    assert buf[..o.pos] == want && o.pos == |want|;
    bytes := buf[..];
  }

  /** The same for object identifiers, where the first two nodes fit in one octet. */
  method OidThereAndBack(nodes: seq<nat>, tail: Octets) returns (ret: int, back: seq<nat>, rest: Octets)
    requires 2 <= |nodes| <= 32 && Nodes(nodes) && |OidOctets(nodes)| <= 32
    requires nodes[1] < 40 && nodes[0] * 40 + nodes[1] <= 255
    ensures ret == 1 && back == nodes && rest == tail
  {
    hide TypeBytes, OidOctets, ParseOidType;
    var bytes := EncodedOid(nodes);
    var input := new In(bytes + tail);
    OidTypeRoundTrip(TAG_OBJECT_IDENTIFIER, nodes, tail);
    ret, back := OidFromDer(input);
    rest := input.Rest();
  }
}
