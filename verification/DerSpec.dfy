/** DER encodings of asn1.c as byte strings: lengths, integers, sequences of integers and object
    identifiers, with the decoders as functions, and why they undo each other. */
module DerSpec {
  import opened OctetStrings
  import opened Positional

  const TAG_INTEGER: octet := 2
  const TAG_OBJECT_IDENTIFIER: octet := 6
  const TAG_SEQUENCE: octet := 0x30

  const TWO31: nat := 0x8000_0000
  const TWO32: nat := 0x1_0000_0000

  /** A return code, a value that is meant when the code is 1, and the input that is left. */
  datatype Parsed<T> = Parsed(ret: int, value: T, rest: Octets)

  // ----- big-endian numbers -----

  /** The low k octets of v. */
  function Be(v: nat, k: nat): (s: Octets)
    ensures |s| == k
  {
    if k == 0 then [] else Be(v / 256, k - 1) + [v % 256]
  }

  lemma {:induction false} BeValue(v: nat, k: nat)
    requires v < Pow(256, k)
    ensures Value(256, Be(v, k)) == v
  {
    if k != 0 {
      assert v / 256 < Pow(256, k - 1);
      BeValue(v / 256, k - 1);
      assert Be(v, k)[..k - 1] == Be(v / 256, k - 1);
    }
  }

  lemma SmallPowers()
    ensures Pow(256, 0) == 1 && Pow(256, 1) == 256 && Pow(256, 2) == 65536 && Pow(256, 3) == 0x100_0000
      && Pow(256, 4) == TWO32
  {
    assert Pow(256, 1) == 256 * Pow(256, 0);
    assert Pow(256, 2) == 256 * Pow(256, 1);
    assert Pow(256, 3) == 256 * Pow(256, 2);
    assert Pow(256, 4) == 256 * Pow(256, 3);
  }

  // ----- lengths -----

  /** How many octets asn1_length_to_der uses behind the first. */
  function LengthSize(len: nat): nat {
    if len < 128 then 0 else if len < 256 then 1 else if len < 65536 then 2 else if len < 0x100_0000 then 3 else 4
  }

  function LengthBytes(len: nat): (s: Octets)
    ensures |s| == 1 + LengthSize(len)
  {
    if len < 128 then [len] else [0x80 + LengthSize(len)] + Be(len, LengthSize(len))
  }

  datatype Length = NoLength | Length(len: nat, used: nat)

  /** The length octets at the start of the input; NoLength for none, too many of them, or too few left. */
  function ParseLength(s: Octets): (r: Length)
    ensures r.Length? ==> 1 <= r.used <= |s|
  {
    if s == [] then NoLength
    else if s[0] < 128 then Length(s[0], 1)
    else
      var n := s[0] - 128;
      if n < 1 || n > 4 || |s| - 1 < n then NoLength else Length(Value(256, s[1..1 + n]), 1 + n)
  }

  /** Exactly the lengths below 2^32 come back; larger ones are cut to 32 bits. */
  lemma LengthRoundTrip(len: nat, tail: Octets)
    ensures ParseLength(LengthBytes(len) + tail) == Length(len, |LengthBytes(len)|) <==> len < TWO32
  {
    SmallPowers();
    var n := LengthSize(len);
    if len >= 128 {
      var s := LengthBytes(len) + tail;
      assert s[1..1 + n] == Be(len, n);
      if len < TWO32 {
        BeValue(len, n);
      } else {
        ValueBelow(256, Be(len, n));
      }
    }
  }

  /** Section 10.1 of ITU-T X.690: no other encoding of the length that the decoder accepts is shorter. */
  lemma LengthIsShortest(s: Octets)
    requires ParseLength(s).Length?
    ensures |LengthBytes(ParseLength(s).len)| <= ParseLength(s).used
  {
    SmallPowers();
    if s[0] >= 128 {
      ValueBelow(256, s[1..1 + (s[0] - 128)]);
    }
  }

  // ----- tag, length and value -----

  function TypeBytes(tag: octet, d: Octets): Octets { [tag] + LengthBytes(|d|) + d }

  /** asn1_type_from_der; a failure may have consumed the tag and the length. */
  function ParseType(tag: octet, s: Octets): Parsed<Octets> {
    if s == [] || s[0] != tag then Parsed(0, [], s)
    else match ParseLength(s[1..])
      case NoLength => Parsed(-1, [], s[1..])
      case Length(len, used) =>
        var t := s[1 + used..];
        if |t| < len then Parsed(-1, [], t) else Parsed(1, t[..len], t[len..])
  }

  lemma TypeRoundTrip(tag: octet, d: Octets, tail: Octets)
    requires |d| < TWO32
    ensures ParseType(tag, TypeBytes(tag, d) + tail) == Parsed(1, d, tail)
  {
    var s := TypeBytes(tag, d) + tail;
    var l := LengthBytes(|d|);
    assert s[1..] == l + (d + tail);
    LengthRoundTrip(|d|, d + tail);
    assert s[1 + |l|..] == d + tail;
  }

  // ----- integers -----

  /** Without leading zeros, but not empty. */
  function Strip(a: Octets): (r: Octets)
    ensures a != [] ==> r != [] && |r| <= |a| && (|r| > 1 ==> r[0] != 0)
  {
    if |a| > 1 && a[0] == 0 then Strip(a[1..]) else a
  }

  function Padded(a: Octets): Octets { if a != [] && a[0] >= 128 then [0] + a else a }

  function IntegerBytes(tag: octet, a: Octets): Octets { TypeBytes(tag, Padded(Strip(a))) }

  /** The content of an integer without its padding: -255 for a negative one, -1 for too much padding. */
  function Unpadded(d: Octets): (r: (int, Octets))
    requires d != []
    ensures r.0 == 1 ==> r.1 != []
  {
    if d[0] >= 128 then (-255, [])
    else
      var a := if d[0] == 0 && |d| > 1 then d[1..] else d;
      if a[0] == 0 && |a| > 1 then (-1, []) else (1, a)
  }

  /** asn1_integer_from_der_ex: it supports no negative integers, and consumes nothing when it fails. */
  function ParseInteger(tag: octet, s: Octets): (p: Parsed<Octets>)
    ensures p.ret == 1 ==> |p.rest| < |s|
    ensures p.ret != 1 ==> p.rest == s
  {
    if s == [] || s[0] != tag then Parsed(0, [], s)
    else match ParseLength(s[1..])
      case NoLength => Parsed(-1, [], s)
      case Length(len, used) =>
        var t := s[1 + used..];
        if |t| < len || len == 0 then Parsed(-1, [], s)
        else
          var c := Unpadded(t[..len]);
          if c.0 != 1 then Parsed(c.0, [], s) else Parsed(1, c.1, t[len..])
  }

  lemma IntegerOf(tag: octet, d: Octets, tail: Octets)
    requires d != [] && |d| < TWO32 && Unpadded(d).0 == 1
    ensures ParseInteger(tag, TypeBytes(tag, d) + tail) == Parsed(1, Unpadded(d).1, tail)
  {
    hide LengthBytes, ParseLength, Unpadded;
    var s := TypeBytes(tag, d) + tail;
    var l := LengthBytes(|d|);
    assert s[1..] == l + (d + tail);
    LengthRoundTrip(|d|, d + tail);
    var t := s[1 + |l|..];
    assert t == d + tail;
    assert t[..|d|] == d && t[|d|..] == tail;
  }

  lemma IntegerRoundTrip(tag: octet, a: Octets, tail: Octets)
    requires a != [] && |a| + 1 < TWO32
    ensures ParseInteger(tag, IntegerBytes(tag, a) + tail) == Parsed(1, Strip(a), tail)
  {
    PaddingRoundTrip(Strip(a));
    hide Strip, Padded, Unpadded, ParseInteger, TypeBytes;
    IntegerOf(tag, Padded(Strip(a)), tail);
  }

  lemma PaddingRoundTrip(b: Octets)
    requires b != [] && (|b| > 1 ==> b[0] != 0)
    ensures Padded(b) != [] && |Padded(b)| <= |b| + 1 && Unpadded(Padded(b)) == (1, b)
  {
    assert ([0] + b)[1..] == b;
  }

  /** The magnitude of an int that is not negative. */
  function Magnitude(a: nat): (r: Octets)
    ensures r != []
  {
    if a == 0 then [0] else DigitsAreOctets(a); Digits(256, a)
  }

  lemma {:induction false} DigitsAreOctets(a: nat)
    ensures forall i :: 0 <= i < |Digits(256, a)| ==> Digits(256, a)[i] < 256
    ensures a != 0 ==> Digits(256, a) != []
  {
    if a != 0 { DigitsAreOctets(a / 256); }
  }

  lemma {:induction false} DigitsValue(a: nat)
    ensures Value(256, Digits(256, a)) == a && Shortest(Digits(256, a)) && (a != 0 ==> Digits(256, a) != [])
  {
    if a != 0 {
      DigitsValue(a / 256);
      ValueNext(256, Digits(256, a / 256), a % 256);
      DigitsNext(a);
    }
  }

  lemma DigitsNext(a: nat)
    requires a != 0
    ensures Digits(256, a) == Digits(256, a / 256) + [a % 256] && a == a / 256 * 256 + a % 256
      && (a / 256 == 0 ==> a % 256 != 0)
  {
  }

  lemma ValueNext(base: nat, s: seq<nat>, x: nat)
    ensures Value(base, s + [x]) == Value(base, s) * base + x
  {
    assert (s + [x])[..|s|] == s;
  }

  function IntBytes(a: nat): Octets { IntegerBytes(TAG_INTEGER, Magnitude(a)) }

  /** A 32-bit unsigned value as an int. */
  function Signed(v: nat): int { if v % TWO32 < TWO31 then v % TWO32 else v % TWO32 - TWO32 }

  /** asn1_int_from_der_ex; one that is too long has been consumed. */
  function ParseInt(s: Octets): (p: Parsed<int>)
    ensures p.ret == 1 ==> |p.rest| < |s|
  {
    var p := ParseInteger(TAG_INTEGER, s);
    if p.ret != 1 then Parsed(p.ret, -1, s)
    else if |p.value| > 8 then Parsed(-1, -1, p.rest) else Parsed(1, Signed(Value(256, p.value)), p.rest)
  }

  lemma {:induction false} DigitCount(a: nat, k: nat)
    requires a < Pow(256, k)
    ensures |Digits(256, a)| <= k
  {
    if a != 0 && k != 0 { DigitCount(a / 256, k - 1); }
  }

  lemma MagnitudeIs(a: nat)
    requires a < TWO32
    ensures Strip(Magnitude(a)) == Magnitude(a) && |Magnitude(a)| <= 4 && Value(256, Magnitude(a)) == a
  {
    SmallPowers();
    DigitsValue(a);
    DigitCount(a, 4);
    if a == 0 { assert Value(256, [0]) == Value(256, []) * 256 + 0; }
  }

  lemma SmallIsSigned(a: nat)
    requires a < TWO31
    ensures Signed(a) == a
  {
  }

  lemma IntRoundTrip(a: nat, tail: Octets)
    requires a < TWO31
    ensures ParseInt(IntBytes(a) + tail) == Parsed(1, a, tail)
  {
    MagnitudeIs(a);
    SmallIsSigned(a);
    hide Strip, ParseInteger, IntegerBytes, Value, Magnitude, Signed;
    IntegerRoundTrip(TAG_INTEGER, Magnitude(a), tail);
  }

  // ----- sequences of integers -----

  /** asn1_int_to_der writes a negative number other than -1 as zero. */
  function Clamped(a: int): nat { if a > 0 then a else 0 }

  function Contents(nums: seq<int>): (r: Octets) {
    if nums == [] then [] else IntBytes(Clamped(nums[0])) + Contents(nums[1..])
  }

  /** The integers a string consists of, with code 1; or those before the first that fails. */
  function ParseInts(d: Octets): (int, seq<int>)
    decreases |d|
  {
    if d == [] then (1, [])
    else
      var p := ParseInt(d);
      if p.ret != 1 then (-1, []) else var q := ParseInts(p.rest); (q.0, [p.value] + q.1)
  }

  function ParseSequenceOfInt(s: Octets): Parsed<seq<int>> {
    var p := ParseType(TAG_SEQUENCE, s);
    if p.ret != 1 then Parsed(p.ret, [], p.rest)
    else var q := ParseInts(p.value); Parsed(q.0, q.1, p.rest)
  }

  predicate Ints(nums: seq<int>) { forall i :: 0 <= i < |nums| ==> 0 <= nums[i] < TWO31 }

  lemma {:induction false} IntsRoundTrip(nums: seq<int>)
    requires Ints(nums)
    ensures ParseInts(Contents(nums)) == (1, nums)
  {
    if nums != [] {
      IntRoundTrip(nums[0], Contents(nums[1..]));
      IntsRoundTrip(nums[1..]);
      assert [nums[0]] + nums[1..] == nums;
      assert IntBytes(nums[0]) != [];
    }
  }

  /** The list comes back, and what follows it is left. */
  lemma SequenceRoundTrip(nums: seq<int>, tail: Octets)
    requires Ints(nums) && |Contents(nums)| < TWO32
    ensures ParseSequenceOfInt(TypeBytes(TAG_SEQUENCE, Contents(nums)) + tail) == Parsed(1, nums, tail)
  {
    TypeRoundTrip(TAG_SEQUENCE, Contents(nums), tail);
    IntsRoundTrip(nums);
  }

  function ClampAll(nums: seq<int>): (r: seq<int>)
    ensures |r| == |nums| && forall i :: 0 <= i < |r| ==> r[i] == Clamped(nums[i])
  {
    seq(|nums|, i requires 0 <= i < |nums| => Clamped(nums[i]))
  }

  lemma {:induction false} SameContents(nums: seq<int>)
    ensures Contents(ClampAll(nums)) == Contents(nums)
  {
    hide IntBytes;
    if nums != [] {
      SameContents(nums[1..]);
      assert ClampAll(nums)[1..] == ClampAll(nums[1..]);
    }
  }

  /** The integers that stand for a list with negative ones decode to zeros in their places. (The encoder does not
      get this far with a list that holds -1.) */
  lemma NegativeBecomeZero(nums: seq<int>, tail: Octets)
    requires (forall i :: 0 <= i < |nums| ==> nums[i] < TWO31) && |Contents(nums)| < TWO32
    ensures ParseSequenceOfInt(TypeBytes(TAG_SEQUENCE, Contents(nums)) + tail) == Parsed(1, ClampAll(nums), tail)
    ensures ClampAll(nums) == nums <==> forall i :: 0 <= i < |nums| ==> nums[i] >= 0
  {
    SameContents(nums);
    SequenceRoundTrip(ClampAll(nums), tail);
    hide Clamped;
    ClampedIsSame(nums);
  }

  lemma ClampedIsSame(nums: seq<int>)
    ensures ClampAll(nums) == nums <==> forall i :: 0 <= i < |nums| ==> nums[i] >= 0
  {
    var c := ClampAll(nums);
    if c == nums {
      forall i | 0 <= i < |nums| ensures nums[i] >= 0 { assert c[i] == nums[i]; }
    }
  }

  // ----- object identifiers -----

  /** A node in base 128, most significant first; all octets but the last have their high bit set. */
  function NodeBytes(a: nat): (r: Octets)
    ensures r != []
  {
    if a < 128 then [a] else More(a / 128) + [a % 128]
  }

  function More(a: nat): Octets {
    if a == 0 then [] else More(a / 128) + [0x80 + a % 128]
  }

  /** The octets up to the first without the high bit, at most n of them. */
  function NodeLength(s: Octets, n: nat): (r: nat)
    ensures r <= n && (r != 0 ==> r <= |s| && s[r - 1] < 128)
  {
    if n == 0 || s == [] then 0
    else if s[0] < 128 then 1
    else var k := NodeLength(s[1..], n - 1); if k == 0 then 0 else k + 1
  }

  /** The value of base-128 octets without their high bits. */
  function NodeValue(s: Octets): nat {
    if s == [] then 0 else NodeValue(s[..|s| - 1]) * 128 + s[|s| - 1] % 128
  }

  /** asn1_oid_node_from_base128: at most five octets, and no more than 32 bits. */
  function ParseNode(s: Octets): (p: Parsed<nat>)
    ensures p.ret == 1 ==> |p.rest| < |s|
  {
    var n := NodeLength(s, 5);
    if n == 0 || (n == 5 && s[0] / 16 % 8 != 0) then Parsed(-1, 0, s) else Parsed(1, NodeValue(s[..n]), s[n..])
  }

  lemma MoreNext(a: nat)
    requires a != 0
    ensures More(a) == More(a / 128) + [0x80 + a % 128] && a == a / 128 * 128 + (0x80 + a % 128) % 128
      && (a / 128 == 0 ==> a % 128 != 0)
  {
  }

  lemma {:induction false} MoreValue(a: nat)
    ensures NodeValue(More(a)) == a
  {
    if a != 0 {
      MoreValue(a / 128);
      MoreNext(a);
      hide More;
      NodeValueNext(More(a / 128), 0x80 + a % 128);
    }
  }

  lemma {:induction false} MoreHigh(a: nat)
    ensures (forall i :: 0 <= i < |More(a)| ==> More(a)[i] >= 128) && (a != 0 ==> More(a) != [] && More(a)[0] != 0x80)
  {
    if a != 0 {
      MoreHigh(a / 128);
      MoreNext(a);
    }
  }

  lemma NodeValueNext(s: Octets, x: octet)
    ensures NodeValue(s + [x]) == NodeValue(s) * 128 + x % 128
  {
    assert (s + [x])[..|s|] == s;
  }

  lemma MoreSize(a: nat)
    ensures a < 0x1000_0000 ==> |More(a)| <= 4
    ensures a < 0x20_0000 ==> |More(a)| <= 3
    ensures a < TWO32 ==> |More(a)| <= 5
    ensures a < TWO32 && |More(a)| == 5 ==> More(a)[0] == 0x80 + a / 0x1000_0000 && a / 0x1000_0000 < 16
  {
    var b := a / 128;
    var c := b / 128;
    var d := c / 128;
    var e := d / 128;
    assert More(a) == if a == 0 then [] else More(b) + [0x80 + a % 128];
    assert More(b) == if b == 0 then [] else More(c) + [0x80 + b % 128];
    assert More(c) == if c == 0 then [] else More(d) + [0x80 + c % 128];
    assert More(d) == if d == 0 then [] else More(e) + [0x80 + d % 128];
    assert More(e) == if e == 0 then [] else More(e / 128) + [0x80 + e % 128];
    assert a < TWO32 ==> e < 16 && More(e / 128) == [];
  }

  lemma NodeLengthNext(s: Octets, n: nat)
    requires n > 0 && s != [] && s[0] >= 128 && NodeLength(s[1..], n - 1) != 0
    ensures NodeLength(s, n) == NodeLength(s[1..], n - 1) + 1
  {
  }

  lemma {:induction false} NodeLengthIs(s: Octets, last: octet, tail: Octets, n: nat)
    requires |s| < n && last < 128 && forall i :: 0 <= i < |s| ==> s[i] >= 128
    ensures NodeLength(s + [last] + tail, n) == |s| + 1
  {
    if s != [] {
      var t := s + [last] + tail;
      assert t[1..] == s[1..] + [last] + tail && t[0] == s[0];
      NodeLengthIs(s[1..], last, tail, n - 1);
      NodeLengthNext(t, n);
    }
  }

  /** Section 8.19.2 of X.690: the fewest octets, so no leading 0x80; and every 32-bit node comes back. */
  lemma NodeRoundTrip(a: nat, tail: Octets)
    requires a < TWO32
    ensures ParseNode(NodeBytes(a) + tail) == Parsed(1, a, tail) && |NodeBytes(a)| <= 5 && NodeBytes(a)[0] != 0x80
  {
    var high, last: octet := if a < 128 then [] else More(a / 128), a % 128;
    assert NodeBytes(a) == high + [last];
    HighPart(a, high);
    if |high| == 4 { FifthOctet(a); }
    hide More, NodeValue, NodeLength, NodeBytes;
    NodeLengthIs(high, last, tail, 5);
    var s, n := high + [last] + tail, |high| + 1;
    assert s[..n] == high + [last] && s[n..] == tail;
    NodeValueNext(high, last);
    assert NodeValue(high) * 128 + last % 128 == a;
    assert n == 5 ==> s[0] == high[0];
  }

  lemma HighPart(a: nat, high: Octets)
    requires a < TWO32 && high == if a < 128 then [] else More(a / 128)
    ensures |high| <= 4 && NodeValue(high) == a / 128 && (forall i :: 0 <= i < |high| ==> high[i] >= 128)
    ensures a >= 128 ==> high != [] && high[0] != 0x80
  {
    MoreValue(a / 128);
    MoreHigh(a / 128);
    MoreSize(a / 128);
  }

  lemma FifthOctet(a: nat)
    requires a < TWO32 && 128 <= a && |More(a / 128)| == 4
    ensures More(a / 128)[0] / 16 % 8 == 0
  {
    var b := a / 128;
    var c := b / 128;
    var d := c / 128;
    var e := d / 128;
    assert More(b) == More(c) + [0x80 + b % 128];
    assert More(c) == if c == 0 then [] else More(d) + [0x80 + c % 128];
    assert More(d) == if d == 0 then [] else More(e) + [0x80 + d % 128];
    assert More(e) == if e == 0 then [] else More(e / 128) + [0x80 + e % 128];
    assert e < 16 && More(e / 128) == [];
  }

  const ASN1_OID_MAX_NODES: nat := 32

  function NodesBytes(nodes: seq<nat>): Octets {
    if nodes == [] then [] else NodeBytes(nodes[0]) + NodesBytes(nodes[1..])
  }

  /** asn1_object_identifier_to_octets */
  function OidOctets(nodes: seq<nat>): Octets
    requires |nodes| >= 2
  {
    [(nodes[0] * 40 + nodes[1]) % 256] + NodesBytes(nodes[2..])
  }

  /** The nodes of the octets, when there are no more than the decoder takes: it stops behind the 33rd. */
  function ParseNodes(s: Octets, count: nat): (int, seq<nat>)
    decreases |s|
  {
    if s == [] then (1, [])
    else if count > 32 then (-1, [])
    else
      var p := ParseNode(s);
      if p.ret != 1 then (-1, []) else var q := ParseNodes(p.rest, count + 1); (q.0, [p.value] + q.1)
  }

  /** asn1_object_identifier_from_octets */
  function ParseOid(s: Octets): (int, seq<nat>) {
    if s == [] then (-1, []) else var q := ParseNodes(s[1..], 2); (q.0, [s[0] / 40, s[0] % 40] + q.1)
  }

  predicate Nodes(nodes: seq<nat>) { forall i :: 0 <= i < |nodes| ==> nodes[i] < TWO32 }

  lemma {:induction false} NodesRoundTrip(nodes: seq<nat>, count: nat)
    requires Nodes(nodes) && count + |nodes| <= 33
    ensures ParseNodes(NodesBytes(nodes), count) == (1, nodes)
  {
    if nodes != [] {
      NodeRoundTrip(nodes[0], NodesBytes(nodes[1..]));
      NodesRoundTrip(nodes[1..], count + 1);
      assert [nodes[0]] + nodes[1..] == nodes;
      assert NodeBytes(nodes[0]) != [];
    }
  }

  lemma {:induction false} NodesRefused(nodes: seq<nat>, count: nat)
    requires Nodes(nodes) && nodes != [] && count + |nodes| > 33
    ensures ParseNodes(NodesBytes(nodes), count).0 == -1
  {
    var rest := nodes[1..];
    assert NodesBytes(nodes) == NodeBytes(nodes[0]) + NodesBytes(rest) && NodeBytes(nodes[0]) != [];
    if count <= 32 {
      NodeRoundTrip(nodes[0], NodesBytes(rest));
      NodesRefused(rest, count + 1);
    }
  }

  /** The decoder tests the count before it stores, so it accepts one node more than ASN1_OID_MAX_NODES, and
      never two more. */
  lemma OneNodeTooMany(nodes: seq<nat>)
    requires |nodes| >= 2 && Nodes(nodes)
    ensures var p := ParseOid(OidOctets(nodes));
      && (p.0 == 1 <==> |nodes| <= ASN1_OID_MAX_NODES + 1)
      && (p.0 == 1 ==> |p.1| == |nodes|)
  {
    var s := OidOctets(nodes);
    assert s[1..] == NodesBytes(nodes[2..]);
    if |nodes| <= 33 { NodesRoundTrip(nodes[2..], 2); } else { NodesRefused(nodes[2..], 2); }
  }

  /** An object identifier comes back exactly when its first two nodes fit in the first octet, with a
      second node below 40. */
  lemma OidRoundTrip(nodes: seq<nat>)
    requires 2 <= |nodes| <= 32 && Nodes(nodes)
    ensures ParseOid(OidOctets(nodes)) == (1, nodes) <==> nodes[1] < 40 && nodes[0] * 40 + nodes[1] <= 255
  {
    NodesRoundTrip(nodes[2..], 2);
    hide ParseNodes, NodesBytes;
    var s := OidOctets(nodes);
    assert s[1..] == NodesBytes(nodes[2..]);
    FirstTwo(nodes[0], nodes[1]);
    SameNodes(nodes, s[0] / 40, s[0] % 40);
  }

  lemma FirstTwo(a: nat, b: nat)
    ensures var x := (a * 40 + b) % 256; (x / 40 == a && x % 40 == b) <==> b < 40 && a * 40 + b <= 255
  {
  }

  lemma SameNodes(nodes: seq<nat>, a: nat, b: nat)
    requires |nodes| >= 2
    ensures [a, b] + nodes[2..] == nodes <==> a == nodes[0] && b == nodes[1]
  {
    var got := [a, b] + nodes[2..];
    assert nodes == [nodes[0], nodes[1]] + nodes[2..];
    assert got[0] == a && got[1] == b;
  }

  /** asn1_object_identifier_from_der_ex */
  function ParseOidType(tag: octet, s: Octets): Parsed<seq<nat>> {
    var p := ParseType(tag, s);
    if p.ret != 1 then Parsed(p.ret, [], p.rest)
    else var q := ParseOid(p.value); Parsed(if q.0 == 1 then 1 else -1, q.1, p.rest)
  }

  lemma OidTypeRoundTrip(tag: octet, nodes: seq<nat>, tail: Octets)
    requires 2 <= |nodes| <= 32 && Nodes(nodes) && |OidOctets(nodes)| <= 32
    requires nodes[1] < 40 && nodes[0] * 40 + nodes[1] <= 255
    ensures ParseOidType(tag, TypeBytes(tag, OidOctets(nodes)) + tail) == Parsed(1, nodes, tail)
  {
    TypeRoundTrip(tag, OidOctets(nodes), tail);
    OidRoundTrip(nodes);
  }

  // ----- failures -----

  /** A decoder is meant to leave the input alone when it does not succeed. asn1_integer_from_der_ex does; the
      others do so exactly when the tag is not there, but for asn1_int_from_der_ex, which only takes an integer
      that is too long. */
  lemma FailureKeepsInput(tag: octet, s: Octets)
    ensures ParseInteger(tag, s).ret != 1 ==> ParseInteger(tag, s).rest == s
    ensures ParseType(tag, s).ret != 1 ==> (ParseType(tag, s).rest == s <==> s == [] || s[0] != tag)
    ensures ParseOidType(tag, s).ret != 1 ==> (ParseOidType(tag, s).rest == s <==> s == [] || s[0] != tag)
    ensures ParseSequenceOfInt(s).ret != 1 ==>
      (ParseSequenceOfInt(s).rest == s <==> s == [] || s[0] != TAG_SEQUENCE)
    ensures ParseInt(s).ret != 1 ==>
      (ParseInt(s).rest == s <==> ParseInteger(TAG_INTEGER, s).ret == 1 ==> |ParseInteger(TAG_INTEGER, s).value| <= 8)
  {
    hide ParseInts, ParseOid, ParseInteger;
    TypeConsumes(tag, s);
    TypeConsumes(TAG_SEQUENCE, s);
  }

  lemma TypeConsumes(tag: octet, s: Octets)
    ensures if s == [] || s[0] != tag then ParseType(tag, s) == Parsed(0, [], s) else |ParseType(tag, s).rest| < |s|
  {
  }

  /** The shortest inputs that are lost: a tag alone, and a sequence or an object identifier of wrong contents */
  lemma InputsLost()
    ensures ParseType(TAG_SEQUENCE, [TAG_SEQUENCE]) == Parsed(-1, [], [])
    ensures ParseSequenceOfInt([TAG_SEQUENCE, 1, 0]).ret == -1 && ParseSequenceOfInt([TAG_SEQUENCE, 1, 0]).rest == []
    ensures ParseOidType(TAG_OBJECT_IDENTIFIER, [TAG_OBJECT_IDENTIFIER, 0]) == Parsed(-1, [], [])
  {
    assert [TAG_SEQUENCE][1..] == [] && [TAG_SEQUENCE, 1, 0][1..] == [1, 0] && [TAG_SEQUENCE, 1, 0][2..] == [0];
    assert [TAG_OBJECT_IDENTIFIER, 0][1..] == [0] && [TAG_OBJECT_IDENTIFIER, 0][2..] == [];
    assert ParseInt([0]).ret == 0;
  }
}
