/** The encodings of DerSpec octet by octet, by ITU-T X.690, and what the decoders take for what. */
module DerMeaning {
  import opened DerSpec
  import opened OctetStrings
  import opened Positional

  // ----- what is written -----

  /** Section 10.1: a length below 128 is one octet; others have their number of octets in the first one, and
      are big-endian without leading zeros. Lengths are cut to 32 bits. */
  lemma LengthMeans(len: nat, s: Octets)
    requires s == LengthBytes(len)
    ensures len < 128 ==> s == [len]
    ensures 128 <= len ==> 2 <= |s| <= 5 && s[0] == 0x7f + |s| && Value(256, s[1..]) == len % TWO32
    ensures 128 <= len < TWO32 ==> s[1] != 0
  {
    if 128 <= len {
      var k := LengthSize(len);
      SmallPowers();
      BeMeans(len, k);
      assert s[1..] == Be(len, k);
      if len < TWO32 { BeStart(len, k); }
    }
  }

  lemma {:induction false} BeMeans(v: nat, k: nat)
    ensures Value(256, Be(v, k)) == v % Pow(256, k)
  {
    if k == 0 {
    } else {
      BeMeans(v / 256, k - 1);
      ValueNext(256, Be(v / 256, k - 1), v % 256);
      LowDigit(v, Pow(256, k - 1));
    }
  }

  lemma LowDigit(v: nat, p: nat)
    requires 1 <= p
    ensures v % (256 * p) == v / 256 % p * 256 + v % 256
  {
    var q, r := v / 256 / p, v / 256 % p;
    assert v / 256 == q * p + r;
    assert v == q * (256 * p) + (r * 256 + v % 256);
    DivMod(256 * p, q, r * 256 + v % 256);
  }

  lemma {:induction false} BeStart(v: nat, k: nat)
    requires 1 <= k && Pow(256, k - 1) <= v < Pow(256, k)
    ensures Be(v, k)[0] != 0
  {
    if k == 1 {
      assert Be(v / 256, 0) == [];
    } else {
      assert Pow(256, k - 2) <= v / 256 < Pow(256, k - 1);
      BeStart(v / 256, k - 1);
    }
  }

  /** Section 8.3: the contents c of an integer stand for the same number as a; they are not negative as two's
      complement, and their first nine bits are not all zero. */
  lemma IntegerMeans(tag: octet, a: Octets) returns (c: Octets)
    requires a != []
    ensures IntegerBytes(tag, a) == [tag] + LengthBytes(|c|) + c
    ensures c != [] && c[0] < 128 && (|c| > 1 && c[0] == 0 ==> c[1] >= 128)
    ensures Value(256, c) == Value(256, a) && |c| <= |a| + 1
  {
    hide LengthBytes, Value;
    var b := Strip(a);
    c := Padded(b);
    StripMeans(a);
    if b[0] >= 128 { ValueTrim(256, c, 1); }
  }

  lemma {:induction false} StripMeans(a: Octets)
    requires a != []
    ensures Value(256, Strip(a)) == Value(256, a)
  {
    hide Value;
    if |a| > 1 && a[0] == 0 {
      ValueTrim(256, a, 1);
      StripMeans(a[1..]);
    }
  }

  /** The encoding of an int: tag 2, one octet of length, and the number. */
  lemma IntMeans(a: nat) returns (c: Octets)
    requires a < TWO31
    ensures IntBytes(a) == [2, |c|] + c && 1 <= |c| <= 5
    ensures Value(256, c) == a && c[0] < 128 && (|c| > 1 && c[0] == 0 ==> c[1] >= 128)
  {
    hide Value, Strip;
    MagnitudeIs(a);
    c := IntegerMeans(TAG_INTEGER, Magnitude(a));
    assert LengthBytes(|c|) == [|c|];
  }

  /** The contents of a sequence are the encodings of its elements, a negative one as zero, in order. */
  lemma ContentsMean(x: int, nums: seq<int>)
    ensures Contents([]) == []
    ensures Contents([x] + nums) == IntBytes(if x > 0 then x else 0) + Contents(nums)
    ensures TypeBytes(TAG_SEQUENCE, Contents(nums)) == [0x30] + LengthBytes(|Contents(nums)|) + Contents(nums)
  {
    assert ([x] + nums)[1..] == nums;
  }

  /** Section 8.19.2: a node in base 128, the high bit set on all octets but the last. */
  lemma NodeMeans(a: nat, s: Octets)
    requires s == NodeBytes(a)
    ensures s != [] && s[|s| - 1] < 128 && forall i :: 0 <= i < |s| - 1 ==> s[i] >= 128
    ensures NodeValue(s) == a && (|s| > 1 ==> s[0] != 0x80)
  {
    hide More, NodeValue;
    var last: octet := a % 128;
    if a < 128 {
      NodeValueNext([], last);
      EmptyNode();
      assert [] + [last] == s;
    } else {
      MoreHigh(a / 128);
      MoreValue(a / 128);
      NodeValueNext(More(a / 128), last);
      assert s == More(a / 128) + [last];
    }
  }

  lemma EmptyNode()
    ensures NodeValue([]) == 0
  {
  }

  lemma {:induction false} NodeValueMeans(x: octet, s: Octets)
    ensures NodeValue([]) == 0 && NodeValue([x] + s) == x % 128 * Pow(128, |s|) + NodeValue(s)
  {
    if s == [] {
      assert [x][..0] == [];
      assert [x] + s == [x];
    } else {
      var front, last := s[..|s| - 1], s[|s| - 1];
      NodeValueMeans(x, front);
      NodeValueNext([x] + front, last);
      NodeValueNext(front, last);
      assert s == front + [last] && [x] + s == [x] + front + [last];
      OneMore(x % 128, Pow(128, |front|), 128, NodeValue(front), last % 128);
      assert Pow(128, |s|) == 128 * Pow(128, |front|);
      hide NodeValue, Pow;
    }
  }

  /** Section 8.19.4: the first two nodes share an octet. */
  lemma OidMeans(a: nat, b: nat, x: nat, nodes: seq<nat>)
    ensures OidOctets([a, b]) == [(40 * a + b) % 256]
    ensures OidOctets([a, b] + nodes + [x]) == OidOctets([a, b] + nodes) + NodeBytes(x)
    ensures var d := OidOctets([a, b] + nodes);
      TypeBytes(TAG_OBJECT_IDENTIFIER, d) == [6] + LengthBytes(|d|) + d
  {
    hide NodeBytes;
    assert ([a, b] + nodes)[2..] == nodes && ([a, b] + nodes + [x])[2..] == nodes + [x];
    LastNode(nodes, x);
  }

  lemma {:induction false} LastNode(nodes: seq<nat>, x: nat)
    ensures NodesBytes(nodes + [x]) == NodesBytes(nodes) + NodeBytes(x)
  {
    hide NodeBytes;
    if nodes == [] {
      assert [x][1..] == [] && [] + [x] == [x];
    } else {
      LastNode(nodes[1..], x);
      assert (nodes + [x])[1..] == nodes[1..] + [x];
    }
  }

  // ----- what is read -----

  /** Length octets: one below 128, or 128 + k and k octets, k from 1 to 4. Nothing else is a length. */
  lemma LengthReads(x: octet, digits: Octets, tail: Octets)
    ensures ParseLength([]) == NoLength
    ensures x < 128 ==> ParseLength([x] + tail) == Length(x, 1)
    ensures 128 <= x && 1 <= |digits| <= 4 && x == 128 + |digits| ==>
      ParseLength([x] + digits + tail) == Length(Value(256, digits), 1 + |digits|)
    ensures x == 128 || 132 < x ==> ParseLength([x] + tail) == NoLength
    ensures 128 <= x && |tail| < x - 128 ==> ParseLength([x] + tail) == NoLength
  {
    if 128 <= x && x == 128 + |digits| {
      assert ([x] + digits + tail)[1..1 + |digits|] == digits;
    }
  }

  /** What has the tag asked for, a length l and that many octets is read; there is no other way to succeed. */
  lemma TypeReads(tag: octet, s: Octets, l: Octets, d: Octets, tail: Octets)
    requires ParseLength(l + d + tail) == Length(|d|, |l|)
    ensures ParseType(tag, [tag] + l + d + tail) == Parsed(1, d, tail)
    ensures s == [] || s[0] != tag ==> ParseType(tag, s) == Parsed(0, [], s)
    ensures s != [] && s[0] == tag && ParseLength(s[1..]).NoLength? ==> ParseType(tag, s) == Parsed(-1, [], s[1..])
  {
    hide ParseLength;
    var t := [tag] + l + d + tail;
    assert t[1..] == l + d + tail && t[1 + |l|..] == d + tail;
  }

  lemma TooShort(tag: octet, l: Octets, d: Octets, n: nat)
    requires ParseLength(l + d) == Length(n, |l|) && |d| < n
    ensures ParseType(tag, [tag] + l + d) == Parsed(-1, [], d)
    ensures ParseInteger(tag, [tag] + l + d) == Parsed(-1, [], [tag] + l + d)
  {
    hide ParseLength;
    var t := [tag] + l + d;
    assert t[1..] == l + d && t[1 + |l|..] == d;
  }

  /** The contents c of an integer: negative ones are refused with -255, and so are no contents and two zero
      octets in front of others, with -1; one zero octet in front is dropped. */
  lemma IntegerReads(tag: octet, s: Octets, l: Octets, c: Octets, tail: Octets)
    requires ParseLength(l + c + tail) == Length(|c|, |l|) && s == [tag] + l + c + tail
    ensures c == [] ==> ParseInteger(tag, s) == Parsed(-1, [], s)
    ensures c != [] && c[0] >= 128 ==> ParseInteger(tag, s) == Parsed(-255, [], s)
    ensures |c| >= 3 && c[0] == 0 == c[1] ==> ParseInteger(tag, s) == Parsed(-1, [], s)
    ensures c != [] && c[0] < 128 && !(|c| >= 3 && c[0] == 0 == c[1]) ==>
      ParseInteger(tag, s) == Parsed(1, if |c| > 1 && c[0] == 0 then c[1..] else c, tail)
  {
    hide ParseLength;
    assert s[1..] == l + c + tail && s[1 + |l|..] == c + tail;
    assert (c + tail)[..|c|] == c && (c + tail)[|c|..] == tail;
  }

  /** An int is the number of the octets, of which there may be eight, brought into 32 bits. */
  lemma IntReads(s: Octets, p: Parsed<Octets>, v: nat)
    requires p == ParseInteger(2, s) && p.ret == 1 && v == Value(256, p.value)
    ensures |p.value| > 8 ==> ParseInt(s) == Parsed(-1, -1, p.rest)
    ensures |p.value| <= 8 ==> ParseInt(s).ret == 1 && ParseInt(s).rest == p.rest
    ensures |p.value| <= 8 ==>
      -0x8000_0000 <= ParseInt(s).value < 0x8000_0000 && (ParseInt(s).value - v) % 0x1_0000_0000 == 0
  {
    hide ParseInteger, Value;
  }

  /** A sequence is read integer by integer. */
  lemma IntsRead(d: Octets, x: int, rest: Octets)
    ensures ParseInts([]) == (1, [])
    ensures d != [] && ParseInt(d) == Parsed(1, x, rest) ==>
      ParseInts(d).0 == ParseInts(rest).0 && ParseInts(d).1 == [x] + ParseInts(rest).1
    ensures d != [] && ParseInt(d).ret != 1 ==> ParseInts(d) == (-1, [])
  {
    hide ParseInt;
  }

  lemma SequenceReads(s: Octets, p: Parsed<Octets>)
    requires p == ParseType(0x30, s)
    ensures p.ret != 1 ==> ParseSequenceOfInt(s) == Parsed(p.ret, [], p.rest)
    ensures p.ret == 1 ==> ParseSequenceOfInt(s) == Parsed(ParseInts(p.value).0, ParseInts(p.value).1, p.rest)
  {
    hide ParseType, ParseInts;
  }

  /** A node is read from at most five octets, the first below 128 being the last one; of five octets the first
      may only hold four bits. */
  lemma NodeReads(high: Octets, last: octet, tail: Octets, s: Octets)
    requires |high| <= 4 && (forall i :: 0 <= i < |high| ==> high[i] >= 128) && last < 128
    requires s == high + [last] + tail
    ensures |high| == 4 && high[0] >= 144 ==> ParseNode(s) == Parsed(-1, 0, s)
    ensures !(|high| == 4 && high[0] >= 144) ==> ParseNode(s) == Parsed(1, NodeValue(high + [last]), tail)
  {
    hide NodeLength, NodeValue;
    NodeLengthIs(high, last, tail, 5);
    assert s[..|high| + 1] == high + [last] && s[|high| + 1..] == tail;
    if |high| == 4 {
      assert s[0] == high[0];
      FourBits(s[0]);
    }
  }

  lemma FourBits(x: octet)
    requires x >= 128
    ensures x / 16 % 8 == 0 <==> x < 144
  {
  }

  lemma NoNode(s: Octets)
    requires forall i :: 0 <= i < |s| && i < 5 ==> s[i] >= 128
    ensures ParseNode(s) == Parsed(-1, 0, s)
  {
    NoEnd(s, 5);
  }

  lemma {:induction false} NoEnd(s: Octets, n: nat)
    requires forall i :: 0 <= i < |s| && i < n ==> s[i] >= 128
    ensures NodeLength(s, n) == 0
  {
    if n != 0 && s != [] { NoEnd(s[1..], n - 1); }
  }

  /** The first octet of an identifier gives two nodes, and the others one each. */
  lemma OidReads(x: octet, s: Octets, count: nat, a: nat, rest: Octets)
    ensures ParseOid([]) == (-1, [])
    ensures ParseOid([x] + s) == (ParseNodes(s, 2).0, [x / 40, x % 40] + ParseNodes(s, 2).1)
    ensures ParseNodes([], count) == (1, [])
    ensures s != [] && count <= 32 && ParseNode(s) == Parsed(1, a, rest) ==>
      ParseNodes(s, count) == (ParseNodes(rest, count + 1).0, [a] + ParseNodes(rest, count + 1).1)
    ensures s != [] && (count > 32 || ParseNode(s).ret != 1) ==> ParseNodes(s, count) == (-1, [])
  {
    hide ParseNode;
    assert ([x] + s)[1..] == s;
  }
}
