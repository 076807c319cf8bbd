/** What base-58 texts are: the alphabet, the accepted texts and the number that text and bytes share. */
module Base58Meaning {
  import opened Base58
  import opened OctetStrings
  import opened Options
  import opened Positional

  /** The digits ascend with their characters. */
  lemma AlphabetAscends(d: nat, e: nat)
    requires d < e < 58
    ensures Alphabet(d) < Alphabet(e)
  {
    if d + 1 < e {
      AlphabetAscends(d, e - 1);
    }
    NextCharacter(e - 1);
  }

  lemma NextCharacter(d: nat)
    requires d < 57
    ensures Alphabet(d) < Alphabet(d + 1)
  {
  }

  /** They are the digits and the letters but 0, I, O and l. */
  lemma AlphabetIs(c: char)
    ensures MapBase58(c) != -1 <==>
      ('0' <= c <= '9' || 'A' <= c <= 'Z' || 'a' <= c <= 'z') && c != '0' && c != 'I' && c != 'O' && c != 'l'
    ensures MapBase58(c) != -1 ==> 0 <= MapBase58(c) < 58 && Alphabet(MapBase58(c)) == c
    ensures IsSpace(c) <==> c == ' ' || c == '\t' || c == '\n' || c as int == 11 || c as int == 12 || c == '\r'
  {
    AlphabetInverse(0, c);
  }

  /** The text of v: a '1' for each of the z zero bytes in front, and then the digits of the number the other
      bytes stand for, the first of them not zero. */
  lemma EncodedMeans(v: seq<octet>, z: nat) returns (u: string)
    requires z <= |v| && (forall i :: 0 <= i < z ==> v[i] == 0) && (z < |v| ==> v[z] != 0)
    ensures Encoded(v) == Repeat('1', z) + u
    ensures (forall i :: 0 <= i < |u| ==> MapBase58(u[i]) != -1) && (u != [] ==> u[0] != '1')
    ensures Value(58, DigitsOf(u)) == Value(256, v[z..])
  {
    hide Alphabet, MapBase58, Value, Digits, Text, DigitsOf, Trimmed;
    LeadingIs(0, v, z);
    var d := Digits(58, Value(256, v[z..]));
    u := Text(d);
    DigitsIsShortest(58, Value(256, v[z..]));
    DigitsOfText(d);
    if d != [] { AlphabetInverse(d[0], '1'); }
  }

  /** A text between spaces is accepted when all of it is digits; the z ones in front become zero bytes, and the
      bytes behind them, the first one not zero, stand for the number of the other digits. */
  lemma DecodedMeans(a: string, t: string, b: string, z: nat)
    requires (forall i :: 0 <= i < |a| ==> IsSpace(a[i])) && (forall i :: 0 <= i < |b| ==> IsSpace(b[i]))
    requires '\0' !in t && (t != [] ==> !IsSpace(t[0]) && !IsSpace(t[|t| - 1]))
    requires z <= |t| && (forall i :: 0 <= i < z ==> t[i] == '1') && (z < |t| ==> t[z] != '1')
    ensures var r := Decoded(a + t + b); r.Some? <==> forall i :: 0 <= i < |t| ==> MapBase58(t[i]) != -1
    ensures
      var r := Decoded(a + t + b);
      r.Some? ==>
        && z <= |r.value| && InRange(256, r.value)
        && (forall i :: 0 <= i < z ==> r.value[i] == 0) && (z < |r.value| ==> r.value[z] != 0)
        && Value(256, r.value[z..]) == Value(58, DigitsOf(t[z..]))
  {
    hide Alphabet, MapBase58, Value, Digits, DigitsOf, IsSpace, TrimLeft, TrimRight;
    TrimmedIs(a, t, b);
    LeadingIs('1', t, z);
    if AllDigits(t) {
      var n := Value(58, DigitsOf(t[z..]));
      DigitsIsShortest(256, n);
      assert (Repeat(0, z) + Digits(256, n))[z..] == Digits(256, n);
    }
  }

  lemma TrimmedIs(a: string, t: string, b: string)
    requires (forall i :: 0 <= i < |a| ==> IsSpace(a[i])) && (forall i :: 0 <= i < |b| ==> IsSpace(b[i]))
    requires '\0' !in t && (t != [] ==> !IsSpace(t[0]) && !IsSpace(t[|t| - 1]))
    ensures Trimmed(a + t + b) == t
  {
    hide TrimLeft, TrimRight, CString;
    var s := a + t + b;
    assert '\0' !in s by {
      forall i | 0 <= i < |s| ensures s[i] != '\0' {
        if |a| <= i < |a| + |t| { assert s[i] == t[i - |a|]; }
      }
    }
    NothingToCut(s);
    if t == [] {
      assert forall i :: 0 <= i < |s| ==> IsSpace(s[i]);
      TrimLeftIs(s, |s|);
      TrimRightIs([], 0);
    } else {
      TrimLeftIs(s, |a|);
      assert s[|a|..] == t + b;
      TrimRightIs(t + b, |t|);
    }
  }

  /** Nothing behind a NUL counts. */
  lemma UpToNul(s: string, rest: string)
    requires '\0' !in s
    ensures Decoded(s + ['\0'] + rest) == Decoded(s)
  {
    CutAt(s, rest);
    NothingToCut(s);
  }

  lemma {:induction false} CutAt(s: string, rest: string)
    requires '\0' !in s
    ensures CString(s + ['\0'] + rest) == s
  {
    if s == [] {
    } else {
      assert (s + ['\0'] + rest)[1..] == s[1..] + ['\0'] + rest;
      assert forall c :: c in s[1..] ==> c in s;
      assert s[0] in s;
      CutAt(s[1..], rest);
    }
  }
}
