/** A finite set of keys in ascending order. */
module KeySets {
  type Key = int

  lemma NonEmpty(s: set<Key>)
    ensures s == {} || exists y :: y in s
  {
    if forall y :: y !in s {
      var none: set<Key> := {};
      assert forall y :: y in s <==> y in none;
      assert s == none;
    }
  }

  lemma {:induction false} HasLeast(s: set<Key>)
    requires s != {}
    ensures exists m :: m in s && forall x :: x in s ==> m <= x
  {
    NonEmpty(s);
    var y :| y in s;
    if s != {y} {
      var rest := s - {y};
      NonEmpty(rest);
      HasLeast(rest);
      var m :| m in rest && forall x :: x in rest ==> m <= x;
      var least := if m < y then m else y;
      assert forall x :: x in s ==> x == y || x in rest;
      assert least in s && forall x :: x in s ==> least <= x;
    }
  }

  ghost function Least(s: set<Key>): (m: Key)
    requires s != {}
    ensures m in s && forall x :: x in s ==> m <= x
  {
    HasLeast(s);
    var m :| m in s && forall x :: x in s ==> m <= x;
    m
  }

  ghost function InOrder(s: set<Key>): (r: seq<Key>)
    ensures forall i, j :: 0 <= i < j < |r| ==> r[i] < r[j]
    ensures forall x :: x in r <==> x in s
    decreases |s|
  {
    if s == {} then []
    else
      var m := Least(s);
      var rest := InOrder(s - {m});
      assert forall i :: 0 <= i < |rest| ==> rest[i] in rest;
      [m] + rest
  }
}
