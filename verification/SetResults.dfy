/** What the ordered set operators show, key by key and column by column, without a word on how it is computed. */
module SetResults {
  import opened KeySets
  import opened Options
  import opened OrderedSets
  import opened StreamOps

  predicate Carries(trait_: Row -> Key, s: seq<Row>, key: Key) { exists j :: 0 <= j < |s| && trait_(s[j]) == key }

  /** Which keys the operator shows */
  predicate Selects(kind: SetOp, traits: seq<Row -> Key>, ins: Streams, key: Key)
    requires |traits| == |ins| && 1 <= |ins|
  {
    match kind
    case U => exists k :: 0 <= k < |ins| && Carries(traits[k], ins[k], key)
    case I => forall k :: 0 <= k < |ins| ==> Carries(traits[k], ins[k], key)
    case D => Carries(traits[0], ins[0], key) && forall k :: 1 <= k < |ins| ==> !Carries(traits[k], ins[k], key)
  }

  /** Row j of stream k carries the key, and gives column c of the row shown for it: in a union the first
      stream that carries the key, in a difference the first stream, in an intersection the last stream that
      has the column. */
  ghost predicate Gives(kind: SetOp, traits: seq<Row -> Key>, ins: Streams, key: Key, k: nat, j: nat, c: int)
    requires |traits| == |ins| && k < |ins| && j < |ins[k]|
  {
    traits[k](ins[k][j]) == key && c in ins[k][j] && match kind
    case U => forall l :: 0 <= l < k ==> !Carries(traits[l], ins[l], key)
    case I => forall l, m :: k < l < |ins| && 0 <= m < |ins[l]| && traits[l](ins[l][m]) == key ==> c !in ins[l][m]
    case D => k == 0
  }

  lemma KeysAre(trait_: Row -> Key, s: seq<Row>, key: Key)
    ensures key in KeysOf(trait_, s) <==> Carries(trait_, s, key)
  {
    if key in KeysOf(trait_, s) { var r :| r in s && trait_(r) == key; }
    if j :| 0 <= j < |s| && trait_(s[j]) == key { assert s[j] in s; }
  }

  lemma WantedAre(kind: SetOp, traits: seq<Row -> Key>, ins: Streams, key: Key)
    requires |traits| == |ins| && 1 <= |ins|
    ensures key in Wanted(kind, traits, ins) <==> Selects(kind, traits, ins, key)
  {
    forall k | 0 <= k < |ins| ensures key in KeysOf(traits[k], ins[k]) <==> Carries(traits[k], ins[k], key) {
      KeysAre(traits[k], ins[k], key);
    }
    hide Carries;
    match kind
    case U =>
      if key in Wanted(kind, traits, ins) {
        var k, r :| 0 <= k < |ins| && r in ins[k] && traits[k](r) == key;
        assert key in KeysOf(traits[k], ins[k]);
      }
      if k :| 0 <= k < |ins| && Carries(traits[k], ins[k], key) {
        assert key in KeysOf(traits[k], ins[k]);
        var r :| r in ins[k] && traits[k](r) == key;
      }
    case I =>
    case D =>
  }

  /** In an ascending stream there is one row for a key. */
  lemma {:induction false} FindIs(trait_: Row -> Key, s: seq<Row>, j: nat)
    requires Ascending(trait_, s) && j < |s|
    ensures Find(trait_, s, trait_(s[j])) == Some(s[j])
  {
    assert s[j] in s;
    var r := Find(trait_, s, trait_(s[j]));
    var i :| 0 <= i < |s| && s[i] == r.value;
  }

  /** A column that a row gives is a column of the shown row. */
  lemma GivenIsShown(kind: SetOp, traits: seq<Row -> Key>, ins: Streams, key: Key, k: nat, j: nat, c: int, row: Row)
    requires AllAscending(traits, ins) && k < |ins| && j < |ins[k]| && Gives(kind, traits, ins, key, k, j, c)
    requires Selects(kind, traits, ins, key) && Agrees(kind, row, HeadsFor(traits, ins, key))
    ensures c in ins[k][j] && c in row && row[c] == ins[k][j][c]
  {
    var heads := HeadsFor(traits, ins, key);
    FindIs(traits[k], ins[k], j);
    assert heads[k] == Some(ins[k][j]);
    forall l | 0 <= l < |ins| ensures heads[l].Some? <==> Carries(traits[l], ins[l], key) {
      KeysAre(traits[l], ins[l], key);
    }
    hide Carries;
    match kind
    case U => assert FirstWithValue(heads, 0) == k;
    case D =>
    case I =>
      assert AllHeads(heads);
      forall l | k < l < |ins| ensures c !in heads[l].value {
        assert heads[l].value in ins[l];
        var m :| 0 <= m < |ins[l]| && ins[l][m] == heads[l].value;
      }
  }

  lemma SelectedKeys(kind: SetOp, traits: seq<Row -> Key>, ins: Streams)
    requires |traits| == |ins| && 1 <= |ins|
    ensures forall x :: x in InOrder(Wanted(kind, traits, ins)) <==> Selects(kind, traits, ins, x)
  {
    hide Wanted, Selects;
    forall x ensures x in InOrder(Wanted(kind, traits, ins)) <==> Selects(kind, traits, ins, x) {
      WantedAre(kind, traits, ins, x);
    }
  }

  /** Every column that some row gives is a column of the row shown for the key. */
  ghost predicate RowHolds(kind: SetOp, traits: seq<Row -> Key>, ins: Streams, key: Key, row: Row)
    requires |traits| == |ins|
  {
    forall k: nat, j: nat, c :: k < |ins| && j < |ins[k]| && Gives(kind, traits, ins, key, k, j, c) ==>
      c in ins[k][j] && c in row && row[c] == ins[k][j][c]
  }

  lemma RowIsHeld(kind: SetOp, traits: seq<Row -> Key>, ins: Streams, key: Key, row: Row)
    requires AllAscending(traits, ins) && 1 <= |ins| && Selects(kind, traits, ins, key)
    requires Agrees(kind, row, HeadsFor(traits, ins, key))
    ensures RowHolds(kind, traits, ins, key, row)
  {
    assert |traits| == |ins|;
    hide Agrees, Gives, Selects, HeadsFor, AllAscending;
    forall k: nat, j: nat, c | k < |ins| && j < |ins[k]| && Gives(kind, traits, ins, key, k, j, c)
      ensures c in ins[k][j] && c in row && row[c] == ins[k][j][c]
    {
      GivenIsShown(kind, traits, ins, key, k, j, c, row);
    }
  }

  /** The keys that are shown, and what their rows hold. */
  lemma ShownAre(kind: SetOp, traits: seq<Row -> Key>, ins: Streams, values: seq<Row>) returns (keys: seq<Key>)
    requires AllAscending(traits, ins) && 1 <= |ins| && ShowsWanted(kind, traits, ins, values)
    ensures |keys| == |values| && forall i, j :: 0 <= i < j < |keys| ==> keys[i] < keys[j]
    ensures forall x :: x in keys <==> Selects(kind, traits, ins, x)
    ensures forall i :: 0 <= i < |keys| ==> RowHolds(kind, traits, ins, keys[i], values[i])
  {
    assert |traits| == |ins|;
    hide Wanted, Agrees, RowHolds, Selects, HeadsFor, AllAscending;
    keys := InOrder(Wanted(kind, traits, ins));
    SelectedKeys(kind, traits, ins);
    forall i | 0 <= i < |keys| ensures RowHolds(kind, traits, ins, keys[i], values[i]) {
      assert keys[i] in keys;
      RowIsHeld(kind, traits, ins, keys[i], values[i]);
    }
  }
}
