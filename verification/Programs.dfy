/** Whole programs: a graph is built, run by the engine, and its output read. */
module Programs {
  import opened Dataflow
  import opened HpdaEngine
  import opened OperatorMeaning
  import opened OrderedSets
  import opened SetResults
  import opened StreamOps

  /** The output of a filter on a concat of sources holds every row that passes the filter once, first those of the
      first source, each with its place. */
  method RunFilterOverConcat(engine: Engine, o: nat) returns (values: seq<Row>, ghost at: seq<Place>)
    requires engine.Valid() && FilterOverConcat(engine.fs, o) && engine.fs[o].op.values == []
    modifies engine
    ensures |at| == |values|
    ensures forall i :: 0 <= i < |at| ==> var fs := old(engine.fs);
      var keep, sources := fs[fs[o].preds[0]].op.keep, fs[fs[fs[o].preds[0]].preds[0]].preds;
      && at[i].list < |sources| && at[i].index < |fs[sources[at[i].list]].op.data|
      && values[i] == fs[sources[at[i].list]].op.data[at[i].index] && keep(values[i])
    ensures forall i, j :: 0 <= i < j < |at| ==>
      at[i].list < at[j].list || (at[i].list == at[j].list && at[i].index < at[j].index)
    ensures var fs := old(engine.fs);
      var keep, sources := fs[fs[o].preds[0]].op.keep, fs[fs[fs[o].preds[0]].preds[0]].preds;
      forall k: nat, n: nat :: k < |sources| && n < |fs[sources[k]].op.data| && keep(fs[sources[k]].op.data[n]) ==>
        Place(k, n) in at
  {
    hide Future, InForest, EndsInOutputs;
    ghost var rows := Future(engine.fs, engine.plan, o);
    at := FilterOverConcatRows(engine.fs, engine.plan, o);
    var ok := engine.Run();
    values := engine.fs[o].op.values;
    assert values == [] + rows == rows;
  }

  /** The output of a set operator on sources in ascending order holds one row for every key it selects, in
      ascending order of the keys, with the columns that the sources give it. */
  method RunSetOperator(engine: Engine, o: nat, ghost kind: SetOp, ghost traits: seq<Row -> Key>, ghost out: Row)
    returns (values: seq<Row>, ghost keys: seq<Key>)
    requires engine.Valid() && SetOverSources(engine.fs, o, kind, traits, out) && engine.fs[o].op.values == []
    requires AllAscending(traits, SourceLists(engine.fs, engine.fs[o].preds[0]))
    modifies engine
    ensures |keys| == |values| && forall i, j :: 0 <= i < j < |keys| ==> keys[i] < keys[j]
    ensures var ins := SourceLists(old(engine.fs), old(engine.fs)[o].preds[0]);
      && (forall x :: x in keys <==> Selects(kind, traits, ins, x))
      && forall i :: 0 <= i < |keys| ==> RowHolds(kind, traits, ins, keys[i], values[i])
  {
    hide Future, Wanted, ByKey, ShowsWanted, InForest, AllAscending, Selects, RowHolds;
    ghost var fs, ins := engine.fs, SourceLists(engine.fs, engine.fs[o].preds[0]);
    SetOverSourcesMeans(fs, engine.plan, o, kind, traits, out);
    ghost var rows := Future(fs, engine.plan, o);
    var ok := engine.Run();
    values := engine.fs[o].op.values;
    assert values == [] + rows == rows;
    keys := ShownAre(kind, traits, ins, values);
  }
}
