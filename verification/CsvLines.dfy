/** What the lines of a text are, independently of any buffer. */
module CsvLines {
  const NEWLINE: char := '\n'
  const NUL: char := '\0'
  const CR: char := '\r'

  /** The text before the first newline, or all of it. */
  function RawLine(u: string): (r: string)
    ensures |r| <= |u| && r == u[..|r|] && NEWLINE !in r
    ensures |r| < |u| ==> u[|r|] == NEWLINE
  {
    if u == [] || u[0] == NEWLINE then [] else [u[0]] + RawLine(u[1..])
  }

  /** What follows the first line; the newline of the last line is optional. */
  function Rest(u: string): (r: string)
    requires u != []
    ensures |r| < |u|
  {
    var n := |RawLine(u)|;
    if n == |u| then [] else u[n + 1..]
  }

  /** A single carriage return at the end is dropped. */
  function StripCr(line: string): string {
    if line != [] && line[|line| - 1] == CR then line[..|line| - 1] else line
  }

  /** What a C program sees of a string: the part before the first NUL. */
  function CString(s: string): (r: string)
    ensures |r| <= |s| && r == s[..|r|] && NUL !in r && (|r| < |s| ==> s[|r|] == NUL)
  {
    if s == [] || s[0] == NUL then [] else [s[0]] + CString(s[1..])
  }

  /** The lines of a text as the reader's client sees them. */
  function Lines(u: string): seq<string>
    decreases |u|
  {
    if u == [] then [] else [CString(StripCr(RawLine(u)))] + Lines(Rest(u))
  }

  /** The UTF-8 byte order mark */
  predicate HasBom(file: string) { |file| >= 3 && file[..3] == ['\U{EF}', '\U{BB}', '\U{BF}'] }

  function Text(file: string): string { if HasBom(file) then file[3..] else file }

  predicate AllShort(u: string, limit: nat)
    decreases |u|
  {
    u != [] ==> |RawLine(u)| < limit && AllShort(Rest(u), limit)
  }

  /** The lines before the first one that is too long. */
  function LinesUpTo(u: string, limit: nat): seq<string>
    decreases |u|
  {
    if u == [] || |RawLine(u)| >= limit then [] else [CString(StripCr(RawLine(u)))] + LinesUpTo(Rest(u), limit)
  }

  lemma {:induction false} ShortLinesAreAll(u: string, limit: nat)
    requires AllShort(u, limit)
    ensures LinesUpTo(u, limit) == Lines(u)
    decreases |u|
  {
    if u != [] { ShortLinesAreAll(Rest(u), limit); }
  }

  // ----- the lines of a text put together from lines -----

  datatype Ending = Unix | Windows

  function EndingText(e: Ending): string { match e case Unix => [NEWLINE] case Windows => [CR, NEWLINE] }

  /** A line as a program writes it: no newline, no NUL, and not ending in a carriage return. */
  predicate Plain(line: string) {
    NEWLINE !in line && NUL !in line && (line != [] ==> line[|line| - 1] != CR)
  }

  predicate AllPlain(lines: seq<string>) { forall i :: 0 <= i < |lines| ==> Plain(lines[i]) }

  lemma TailPlain(lines: seq<string>)
    requires AllPlain(lines) && lines != []
    ensures Plain(lines[0]) && AllPlain(lines[1..])
  {
  }

  function Written(lines: seq<string>, ends: seq<Ending>): string
    requires |ends| == |lines|
  {
    if lines == [] then [] else lines[0] + EndingText(ends[0]) + Written(lines[1..], ends[1..])
  }

  lemma {:induction false} RawLineOf(line: string, u: string)
    requires NEWLINE !in line && (u == [] || u[0] == NEWLINE)
    ensures RawLine(line + u) == line
  {
    if line == [] {
      assert line + u == u;
    } else {
      assert (line + u)[1..] == line[1..] + u;
      RawLineOf(line[1..], u);
    }
  }

  /** The first line is at least as long as any start of the text without a newline. */
  lemma {:induction false} NoNewlineYet(s: string, tail: string)
    requires NEWLINE !in s
    ensures |RawLine(s + tail)| >= |s|
  {
    if s != [] {
      assert (s + tail)[1..] == s[1..] + tail;
      NoNewlineYet(s[1..], tail);
    }
  }

  lemma {:induction false} NoNul(s: string)
    requires NUL !in s
    ensures CString(s) == s
  {
    if s != [] { NoNul(s[1..]); }
  }

  lemma {:induction false} CStringCut(s: string, tail: string)
    ensures CString(s + [NUL] + tail) == CString(s)
  {
    if s == [] {
      assert s + [NUL] + tail == [NUL] + tail;
    } else if s[0] != NUL {
      assert (s + [NUL] + tail)[1..] == s[1..] + [NUL] + tail;
      CStringCut(s[1..], tail);
    }
  }

  lemma FirstLine(line: string, e: Ending, u: string)
    requires Plain(line)
    ensures RawLine(line + EndingText(e) + u) == line + (if e.Windows? then [CR] else [])
    ensures StripCr(line + (if e.Windows? then [CR] else [])) == line
    ensures line + EndingText(e) + u != [] && Rest(line + EndingText(e) + u) == u
  {
    var raw := line + (if e.Windows? then [CR] else []);
    var all := line + EndingText(e) + u;
    assert all == raw + ([NEWLINE] + u);
    RawLineOf(raw, [NEWLINE] + u);
    assert all[|raw| + 1..] == u;
  }

  lemma LinesCons(line: string, e: Ending, u: string)
    requires Plain(line)
    ensures Lines(line + EndingText(e) + u) == [line] + Lines(u)
  {
    FirstLine(line, e, u);
    NoNul(line);
    hide RawLine, Rest, StripCr, CString;
  }

  /** Reading back what was written gives the lines, whatever the line endings. */
  lemma {:induction false} LinesOfWritten(lines: seq<string>, ends: seq<Ending>)
    requires |ends| == |lines| && AllPlain(lines)
    ensures Lines(Written(lines, ends)) == lines
  {
    if lines != [] {
      LinesCons(lines[0], ends[0], Written(lines[1..], ends[1..]));
      LinesOfWritten(lines[1..], ends[1..]);
    }
  }

  /** The newline of a last line that is not empty may be missing. */
  lemma {:induction false} LastNewlineOptional(lines: seq<string>, ends: seq<Ending>, last: string)
    requires |ends| == |lines| && AllPlain(lines)
    requires Plain(last) && last != []
    ensures Lines(Written(lines, ends) + last) == lines + [last]
  {
    if lines == [] {
      OnlyLine(last);
      assert Written(lines, ends) + last == last;
    } else {
      hide Lines, AllPlain, Plain, EndingText;
      TailPlain(lines);
      Regroup(lines[0], EndingText(ends[0]), Written(lines[1..], ends[1..]), last);
      LinesCons(lines[0], ends[0], Written(lines[1..], ends[1..]) + last);
      LastNewlineOptional(lines[1..], ends[1..], last);
      FrontAgain(lines, last);
    }
  }

  lemma FrontAgain(lines: seq<string>, last: string)
    requires lines != []
    ensures [lines[0]] + (lines[1..] + [last]) == lines + [last]
  {
  }

  lemma Regroup(a: string, b: string, c: string, d: string)
    ensures a + b + c + d == a + b + (c + d)
  {
  }

  lemma OnlyLine(last: string)
    requires Plain(last) && last != []
    ensures Lines(last) == [last]
  {
    RawLineOf(last, []);
    NoNul(last);
    assert last + [] == last;
    assert Rest(last) == [] && Lines([]) == [];
  }
}
