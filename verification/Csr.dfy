/** SparseCSRMBuilder of xgboost_matrix_csr.h, in both modes. */
module Csr {
  import opened Sorting

  /** Where the segment of row i starts: the budgets of the rows before it. */
  function Start(budget: seq<nat>, i: nat): nat
    requires i <= |budget|
  {
    if i == 0 then 0 else Start(budget, i - 1) + budget[i - 1]
  }

  lemma {:induction false} StartGrows(budget: seq<nat>, i: nat, j: nat)
    requires i <= j <= |budget|
    ensures Start(budget, i) <= Start(budget, j)
    ensures (forall k :: i <= k < j ==> budget[k] == 0) ==> Start(budget, i) == Start(budget, j)
  {
    if i < j { StartGrows(budget, i, j - 1); }
  }

  lemma StartNext(budget: seq<nat>, i: nat)
    requires i < |budget|
    ensures Start(budget, i) + budget[i] <= Start(budget, |budget|)
  {
    StartGrows(budget, i + 1, |budget|);
  }

  /** Row i has elements announced. */
  predicate Active(budget: seq<nat>, i: int) { 0 <= i < |budget| && budget[i] != 0 }

  /** What the pointer behind row i says: where its next element goes; with an active list the pointer
      behind an inactive row marks the start of the next row if that one is active. */
  predicate PointerOk(rptr: seq<nat>, budget: seq<nat>, counts: seq<nat>, useAcList: bool, i: nat)
    requires i < |budget| == |counts| && |rptr| == |budget| + 1
  {
    rptr[i + 1] == if !useAcList || Active(budget, i) then Start(budget, i) + counts[i]
      else if Active(budget, i + 1) then Start(budget, i + 1) else 0
  }

  /** The elements of row i stand in its segment, in the order they were pushed. */
  predicate RowOk<T(==)>(findex: seq<T>, budget: seq<nat>, pushed: seq<seq<T>>, i: nat)
    requires i < |budget| == |pushed|
  {
    && |pushed[i]| <= budget[i]
    && Start(budget, i) + |pushed[i]| <= |findex|
    && findex[Start(budget, i)..Start(budget, i) + |pushed[i]|] == pushed[i]
  }

  /** A row as long as announced stands between its pointer and the next one. */
  lemma Segment<T>(rptr: seq<nat>, findex: seq<T>, budget: seq<nat>, counts: seq<nat>, pushed: seq<seq<T>>,
                   useAcList: bool, r: nat)
    requires r < |budget| == |pushed| == |counts| && |rptr| == |budget| + 1 && rptr[0] == 0
    requires counts == budget && |pushed[r]| == budget[r] && (useAcList ==> Active(budget, r))
    requires RowOk(findex, budget, pushed, r) && PointerOk(rptr, budget, counts, useAcList, r)
    requires r > 0 ==> PointerOk(rptr, budget, counts, useAcList, r - 1)
    ensures rptr[r] <= rptr[r + 1] <= |findex| && findex[rptr[r]..rptr[r + 1]] == pushed[r]
  {
  }

  function Counts<T>(pushed: seq<seq<T>>): (c: seq<nat>)
    ensures |c| == |pushed| && forall i :: 0 <= i < |c| ==> c[i] == |pushed[i]|
  {
    seq(|pushed|, i requires 0 <= i < |pushed| => |pushed[i]|)
  }

  function NoCounts(n: nat): (c: seq<nat>)
    ensures |c| == n && forall i :: 0 <= i < n ==> c[i] == 0
  {
    seq(n, _ => 0)
  }

  /** Pushing an element changes one pointer and one place. */
  lemma PushHere<T>(findex: seq<T>, budget: seq<nat>, pushed: seq<seq<T>>, r: nat, x: T)
    requires r < |budget| == |pushed| && |findex| == Start(budget, |budget|)
    requires RowOk(findex, budget, pushed, r) && |pushed[r]| < budget[r]
    ensures Start(budget, r) + |pushed[r]| < |findex|
    ensures RowOk(findex[Start(budget, r) + |pushed[r]| := x], budget, pushed[r := pushed[r] + [x]], r)
  {
    hide Start;
    StartNext(budget, r);
    UpdateBehind(findex, Start(budget, r) + |pushed[r]|, x, Start(budget, r));
  }

  lemma UpdateBehind<T>(s: seq<T>, p: nat, x: T, at: nat)
    requires at <= p < |s|
    ensures s[p := x][at..p + 1] == s[at..p] + [x]
  {
  }

  /** Segments of different rows do not overlap. */
  lemma Apart(budget: seq<nat>, r: nat, m: nat, i: nat, n: nat)
    requires r < |budget| && i < |budget| && i != r && m < budget[r] && n <= budget[i]
    ensures Start(budget, r) + m < Start(budget, i) || Start(budget, i) + n <= Start(budget, r) + m
  {
    if i < r { StartGrows(budget, i + 1, r); } else { StartGrows(budget, r + 1, i); }
  }

  lemma UpdateOutside<T>(s: seq<T>, p: nat, x: T, at: nat, n: nat)
    requires p < |s| && at + n <= |s| && (p < at || at + n <= p)
    ensures s[p := x][at..at + n] == s[at..at + n]
  {
  }

  lemma PushElsewhere<T>(findex: seq<T>, budget: seq<nat>, pushed: seq<seq<T>>, r: nat, x: T, i: nat)
    requires r < |budget| == |pushed| && i < |budget| && i != r && Start(budget, r) + |pushed[r]| < |findex|
    requires RowOk(findex, budget, pushed, i) && |pushed[r]| < budget[r]
    ensures RowOk(findex[Start(budget, r) + |pushed[r]| := x], budget, pushed[r := pushed[r] + [x]], i)
  {
    hide Start;
    Apart(budget, r, |pushed[r]|, i, |pushed[i]|);
    UpdateOutside(findex, Start(budget, r) + |pushed[r]|, x, Start(budget, i), |pushed[i]|);
  }

  /** Between two neighbours of the sorted list no row is active. */
  lemma NotInList(list: seq<nat>, budget: seq<nat>, i: nat, k: nat)
    requires Increasing(list) && i <= |list| && k < |budget| && forall r: nat :: r in list <==> Active(budget, r)
    requires (i < |list| ==> k < list[i]) && (0 < i ==> list[i - 1] < k)
    ensures budget[k] == 0
  {
    forall j | 0 <= j < |list| ensures list[j] != k { }
    assert k !in list;
  }

  class Builder<T(==)> {
    var rptr: seq<nat>
    var findex: seq<T>
    var aclist: seq<nat>
    const useAcList: bool
    /** How many elements are announced for every row, and the elements pushed so far. */
    ghost var budget: seq<nat>
    ghost var pushed: seq<seq<T>>

    /** With an active list the row pointers are those of an earlier use, and must be zero. */
    constructor (rptr: seq<nat>, useAcList: bool)
      ensures this.useAcList == useAcList && this.rptr == rptr && aclist == []
    {
      this.rptr, this.useAcList, this.aclist, this.findex := rptr, useAcList, [], [];
    }

    ghost predicate ListOk()
      reads this
    {
      useAcList ==> AllDifferent(aclist) && forall i: nat :: i in aclist <==> Active(budget, i)
    }

    /** Between InitBudget and InitStorage. */
    ghost predicate Budgeting()
      reads this
    {
      && |rptr| == |budget| + 1 && rptr[0] == 0 && ListOk()
      && forall i :: 0 <= i < |budget| ==> rptr[i + 1] == budget[i]
    }

    /** Between InitStorage and Cleanup. */
    ghost predicate Pushing()
      reads this
    {
      && |rptr| == |budget| + 1 && |pushed| == |budget| && rptr[0] == 0 && ListOk()
      && |findex| == Start(budget, |budget|)
      && (forall i: nat :: i < |budget| ==> PointerOk(rptr, budget, Counts(pushed), useAcList, i))
      && (forall i: nat :: i < |budget| ==> RowOk(findex, budget, pushed, i))
    }

    /** InitBudget */
    method InitBudget(nrows: nat)
      requires useAcList ==> |rptr| == nrows + 1 && aclist == [] && forall i :: 0 <= i < |rptr| ==> rptr[i] == 0
      modifies this
      ensures Budgeting() && budget == seq(nrows, _ => 0)
    {
      if !useAcList {
        rptr := seq(nrows + 1, _ => 0);
      } else {
        Cleanup();
      }
      budget := seq(nrows, _ => 0);
    }

    /** AddBudget; the row pointers grow with the greatest row. */
    method AddBudget(rowId: nat, nelem: nat)
      requires Budgeting() && 1 <= nelem
      modifies this
      ensures Budgeting() && |budget| == if rowId < old(|budget|) then old(|budget|) else rowId + 1
      ensures forall i :: 0 <= i < |budget| ==>
        budget[i] == (if i < old(|budget|) then old(budget)[i] else 0) + if i == rowId then nelem else 0
    {
      if |rptr| < rowId + 2 {
        rptr := rptr + seq(rowId + 2 - |rptr|, _ => 0);
        budget := budget + seq(rowId + 1 - |budget|, _ => 0);
      }
      if useAcList {
        if rptr[rowId + 1] == 0 {
          assert !Active(budget, rowId);
          assert rowId !in aclist;
          aclist := aclist + [rowId];
        }
      }
      rptr := rptr[rowId + 1 := rptr[rowId + 1] + nelem];
      budget := budget[rowId := budget[rowId] + nelem];
    }

    /** InitStorage */
    method InitStorage(zero: T)
      requires Budgeting()
      modifies this
      ensures Pushing() && budget == old(budget) && forall i :: 0 <= i < |pushed| ==> pushed[i] == []
      ensures forall k :: 0 <= k < |findex| ==> findex[k] == zero
      ensures useAcList ==> Increasing(aclist)
    {
      hide PointerOk;
      var start := 0;
      if !useAcList {
        start := PlainPointers();
      } else {
        SortNatOk(aclist);
        aclist := SortNat(aclist);
        start := ActivePointers();
      }
      findex := seq(start, _ => zero);
      pushed := seq(|budget|, _ => []);
      assert Counts(pushed) == NoCounts(|budget|);
      forall i: nat | i < |budget| ensures RowOk(findex, budget, pushed, i) { StartGrows(budget, i, |budget|); }
    }

    method PlainPointers() returns (start: nat)
      requires |rptr| == |budget| + 1 && rptr[0] == 0 && !useAcList
      requires forall i :: 0 <= i < |budget| ==> rptr[i + 1] == budget[i]
      modifies this`rptr
      ensures |rptr| == |budget| + 1 && rptr[0] == 0 && start == Start(budget, |budget|)
      ensures forall i: nat :: i < |budget| ==> PointerOk(rptr, budget, NoCounts(|budget|), useAcList, i)
    {
      start := 0;
      for i := 1 to |rptr|
        invariant |rptr| == |budget| + 1 && rptr[0] == 0 && start == Start(budget, i - 1)
        invariant forall j: nat :: j < i - 1 ==> rptr[j + 1] == Start(budget, j)
        invariant forall j :: i - 1 <= j < |budget| ==> rptr[j + 1] == budget[j]
      {
        var rlen := rptr[i];
        rptr := rptr[i := start];
        start := start + rlen;
      }
    }

    method ActivePointers() returns (start: nat)
      requires |rptr| == |budget| + 1 && rptr[0] == 0 && Increasing(aclist) && useAcList
      requires forall i :: 0 <= i < |budget| ==> rptr[i + 1] == budget[i]
      requires forall i: nat :: i in aclist <==> Active(budget, i)
      modifies this`rptr
      ensures |rptr| == |budget| + 1 && rptr[0] == 0 && start == Start(budget, |budget|)
      ensures forall i: nat :: i < |budget| ==> PointerOk(rptr, budget, NoCounts(|budget|), useAcList, i)
    {
      start := 0;
      ghost var past: nat := 0;
      for i := 0 to |aclist|
        invariant |rptr| == |budget| + 1 && rptr[0] == 0 && past <= |budget| && start == Start(budget, past)
        invariant past == if i == 0 then 0 else aclist[i - 1] + 1
        invariant 0 < i ==> Active(budget, past - 1)
        invariant forall j: nat :: j < past ==> PointerOk(rptr, budget, NoCounts(|budget|), useAcList, j)
        invariant forall j :: past <= j < |budget| ==> rptr[j + 1] == budget[j]
      {
        var ridx := aclist[i];
        assert ridx in aclist;
        assert past <= ridx;
        forall k | past <= k < ridx ensures budget[k] == 0 { NotInList(aclist, budget, i, k); }
        StartGrows(budget, past, ridx);
        ghost var before := rptr;
        var rlen := rptr[ridx + 1];
        rptr := rptr[ridx + 1 := start];
        if i == 0 || ridx != aclist[i - 1] + 1 {
          rptr := rptr[ridx := start];
        }
        forall j: nat | j <= ridx ensures PointerOk(rptr, budget, NoCounts(|budget|), useAcList, j) {
          if j < past { assert PointerOk(before, budget, NoCounts(|budget|), useAcList, j); }
        }
        start := start + rlen;
        past := ridx + 1;
      }
      forall k | past <= k < |budget| ensures budget[k] == 0 { NotInList(aclist, budget, |aclist|, k); }
      StartGrows(budget, past, |budget|);
    }

    /** PushElem */
    method PushElem(rowId: nat, elem: T)
      requires Pushing() && rowId < |budget| && |pushed[rowId]| < budget[rowId]
      modifies this`rptr, this`findex, this`pushed
      ensures Pushing() && pushed == old(pushed)[rowId := old(pushed)[rowId] + [elem]]
      ensures |findex| == old(|findex|)
        && forall k :: 0 <= k < |findex| ==> findex[k] == elem || findex[k] == old(findex)[k]
    {
      hide RowOk;
      assert PointerOk(rptr, budget, Counts(pushed), useAcList, rowId);
      PushHere(findex, budget, pushed, rowId, elem);
      var rp := rptr[rowId + 1];
      ghost var before, places, was := rptr, findex, pushed;
      findex := findex[rp := elem];
      rptr := rptr[rowId + 1 := rp + 1];
      pushed := pushed[rowId := pushed[rowId] + [elem]];
      forall i: nat | i < |budget|
        ensures PointerOk(rptr, budget, Counts(pushed), useAcList, i) && RowOk(findex, budget, pushed, i)
      {
        assert PointerOk(before, budget, Counts(was), useAcList, i);
        if i != rowId { PushElsewhere(places, budget, was, rowId, elem, i); }
      }
    }

    /** Once every announced element has been pushed, the segment of a row (an active one, with an
        active list) holds exactly its elements, in the order they were pushed. */
    lemma SegmentIs(r: nat)
      requires Pushing() && r < |budget| && (useAcList ==> Active(budget, r))
      requires forall i :: 0 <= i < |budget| ==> |pushed[i]| == budget[i]
      ensures rptr[r] <= rptr[r + 1] <= |findex| && findex[rptr[r]..rptr[r + 1]] == pushed[r]
    {
      assert Counts(pushed) == budget;
      Segment(rptr, findex, budget, Counts(pushed), pushed, useAcList, r);
    }

    /** With an active list, the pointers at and behind an active row. */
    lemma ActiveBounds(r: nat)
      requires Pushing() && useAcList && Active(budget, r)
      requires forall j :: 0 <= j < |budget| ==> |pushed[j]| == budget[j]
      ensures rptr[r] == Start(budget, r) && rptr[r + 1] == Start(budget, r + 1) <= |findex| && rptr[r] < rptr[r + 1]
    {
      assert PointerOk(rptr, budget, Counts(pushed), useAcList, r);
      if r > 0 { assert PointerOk(rptr, budget, Counts(pushed), useAcList, r - 1); }
      StartGrows(budget, r + 1, |budget|);
    }

    /** After all elements have been pushed every pointer stands at the end of its row's segment. */
    lemma EndOf(i: nat)
      requires Pushing() && !useAcList && i < |rptr|
      requires forall j :: 0 <= j < |budget| ==> |pushed[j]| == budget[j]
      ensures rptr[i] == Start(budget, i)
    {
      if i > 0 { assert PointerOk(rptr, budget, Counts(pushed), useAcList, i - 1); }
    }

    /** Cleanup: the pointers at and behind the listed rows are zero again. */
    method Cleanup()
      requires useAcList && (forall i :: 0 <= i < |aclist| ==> aclist[i] + 1 < |rptr|)
      modifies this`rptr, this`aclist
      ensures aclist == [] && |rptr| == old(|rptr|)
      ensures old(aclist) == [] ==> rptr == old(rptr)
      ensures forall i: nat :: i < |rptr| ==> rptr[i] == old(rptr)[i] || rptr[i] == 0
      ensures forall i: nat :: i in old(aclist) ==> rptr[i] == 0 && rptr[i + 1] == 0
    {
      for i := 0 to |aclist|
        invariant aclist == old(aclist) && |rptr| == old(|rptr|)
        invariant i == 0 ==> rptr == old(rptr)
        invariant forall k: nat :: k < |rptr| ==> rptr[k] == old(rptr)[k] || rptr[k] == 0
        invariant forall j :: 0 <= j < i ==> rptr[aclist[j]] == 0 && rptr[aclist[j] + 1] == 0
      {
        var ridx := aclist[i];
        rptr := rptr[ridx := 0];
        rptr := rptr[ridx + 1 := 0];
      }
      aclist := [];
    }

    /** Cleanup before InitStorage: no trace is left either. */
    method FinishEarly()
      requires useAcList && Budgeting()
      modifies this`rptr, this`aclist
      ensures aclist == [] && |rptr| == old(|rptr|) && forall i :: 0 <= i < |rptr| ==> rptr[i] == 0
    {
      ghost var list, before := aclist, rptr;
      forall i | 0 <= i < |aclist| ensures aclist[i] + 1 < |rptr| { assert aclist[i] in aclist; }
      Cleanup();
      forall i: nat | i < |rptr| ensures rptr[i] == 0 {
        assert i > 0 && Active(budget, i - 1) ==> i - 1 in list && rptr[i - 1 + 1] == 0;
        assert i > 0 ==> before[i - 1 + 1] == budget[i - 1];
      }
    }

    /** Cleanup after a complete use: no trace is left in the row pointers. */
    method Finish()
      requires useAcList && Pushing()
      modifies this`rptr, this`aclist
      ensures aclist == [] && |rptr| == old(|rptr|) && forall i :: 0 <= i < |rptr| ==> rptr[i] == 0
    {
      ghost var list, before := aclist, rptr;
      forall i | 0 <= i < |aclist| ensures aclist[i] + 1 < |rptr| { assert aclist[i] in aclist; }
      Cleanup();
      forall i: nat | i < |rptr| ensures rptr[i] == 0 {
        if i > 0 { assert PointerOk(before, budget, Counts(pushed), useAcList, i - 1); }
        assert Active(budget, i) ==> i in list;
        assert i > 0 && Active(budget, i - 1) ==> i - 1 in list && rptr[i - 1 + 1] == 0;
      }
    }
  }
}
