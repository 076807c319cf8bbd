/** Lists of lists, put together. */
module Lists {

  lemma SliceOfSlice<T>(s: seq<T>, at: nat, n: nat, lo: nat, hi: nat)
    requires at + n <= |s| && lo <= hi <= n
    ensures s[at..at + n][lo..hi] == s[at + lo..at + hi]
  {
    var part := s[at..at + n];
    assert forall i :: lo <= i < hi ==> part[i] == s[at + i];
  }

  function Flatten<T>(parts: seq<seq<T>>): seq<T> {
    if parts == [] then [] else parts[0] + Flatten(parts[1..])
  }

  lemma TailInTwo<T>(s: seq<T>, a: nat, b: nat)
    requires a <= b <= |s|
    ensures s[a..] == s[a..b] + s[b..]
  {
  }

  lemma TailInThree<T>(s: seq<T>, a: nat, b: nat)
    requires a <= b < |s|
    ensures s[a..] == s[a..b] + [s[b]] + s[b + 1..]
  {
    TailInTwo(s, a, b + 1);
    assert s[a..b + 1] == s[a..b] + [s[b]];
  }

  lemma {:induction false} FlattenSplit<T>(a: seq<seq<T>>, b: seq<seq<T>>)
    ensures Flatten(a + b) == Flatten(a) + Flatten(b)
  {
    if a == [] {
      assert a + b == b;
    } else {
      assert (a + b)[1..] == a[1..] + b;
      FlattenSplit(a[1..], b);
    }
  }

  /** Where the elements of each list stand */
  lemma {:induction false} FlattenAt<T>(parts: seq<seq<T>>, k: nat, i: nat)
    requires k < |parts| && i < |parts[k]|
    ensures |Flatten(parts[..k])| + i < |Flatten(parts)|
    ensures Flatten(parts)[|Flatten(parts[..k])| + i] == parts[k][i]
  {
    assert parts == parts[..k] + parts[k..] && parts[k..][0] == parts[k];
    FlattenSplit(parts[..k], parts[k..]);
  }

  lemma FlattenNext<T>(parts: seq<seq<T>>, next: seq<T>)
    ensures Flatten(parts + [next]) == Flatten(parts) + next
  {
    FlattenSplit(parts, [next]);
    assert [next][1..] == [];
  }

  /** A list of lists by its last element */
  lemma FlattenLast<T>(parts: seq<seq<T>>)
    requires parts != []
    ensures Flatten(parts) == Flatten(parts[..|parts| - 1]) + parts[|parts| - 1]
  {
    FlattenNext(parts[..|parts| - 1], parts[|parts| - 1]);
    assert parts == parts[..|parts| - 1] + [parts[|parts| - 1]];
  }
}
