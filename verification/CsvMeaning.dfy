/** The lines of a text one by one, without the functions that cut them. */
module CsvMeaning {
  import opened CsvLines

  /** The first line: what is before the first newline, or all of the text; its newline is skipped. Reading stops
      at a line that reaches the limit. */
  lemma LinesMean(u: string, limit: nat) returns (raw: string, rest: string, x: string)
    requires u != []
    ensures '\n' !in raw && (u == raw + ['\n'] + rest || (u == raw && rest == []))
    ensures x == CString(StripCr(raw)) && Lines(u) == [x] + Lines(rest) && Lines([]) == []
    ensures LinesUpTo(u, limit) == (if |raw| < limit then [x] + LinesUpTo(rest, limit) else [])
    ensures LinesUpTo([], limit) == [] && AllShort([], limit)
    ensures AllShort(u, limit) <==> |raw| < limit && AllShort(rest, limit)
  {
    hide CString, StripCr, RawLine;
    raw, rest := RawLine(u), Rest(u);
    x := CString(StripCr(raw));
    if |raw| < |u| { assert u == u[..|raw|] + [u[|raw|]] + u[|raw| + 1..]; }
  }

  /** What is seen of a line is what is before its first NUL, without a carriage return at its end. */
  lemma LineMeans(raw: string, x: string)
    requires x == CString(StripCr(raw))
    ensures |x| <= |raw| && x == raw[..|x|] && '\0' !in x
    ensures |x| == |raw| ==> raw == [] || raw[|raw| - 1] != '\r'
    ensures |x| < |raw| ==> raw[|x|] == '\0' || (|x| == |raw| - 1 && raw[|x|] == '\r')
  {
  }

  /** A byte order mark in front is no part of the text. */
  lemma TextMeans(file: string)
    ensures Text(file) == if |file| >= 3 && file[0] as int == 0xef && file[1] as int == 0xbb && file[2] as int == 0xbf
      then file[3..] else file
  {
  }
}
