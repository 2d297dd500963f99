/**
 * The two greedy steps LRS drives, sequential forward selection (SFS) and
 * sequential backward selection (SBS), and the counted loops that call them.
 *
 * The step bodies evaluate every candidate by cross validation and are not part
 * of this model.  What is kept is the contract the orchestration relies on:
 * an SFS step takes one index g out of the pool `available` and moves it from
 * the matching to-remove set to the matching selected set; an SBS step makes
 * the reverse move.  Which g is taken is the cross-validation oracle's choice,
 * so it is left arbitrary here, and every property below holds whatever the
 * oracle picks.  With an empty pool the step has nothing to pick: it returns
 * -1 and changes nothing.
 */
module GreedySearch {
  import opened FeatureIndex

  /** The five index sets the search threads through its steps. */
  datatype SearchSets = SearchSets(
    available: set<int>,
    catSelected: set<int>,
    numSelected: set<int>,
    catToRemove: set<int>,
    numToRemove: set<int>)

  /** The arguments one step was called with, besides the shared sets. */
  datatype StepCall =
    | SFSCall(limit: int)
    | SBSCall(limit: int, maxDecrease: real)

  /** How often `for (int i = 0; i < bound; i++)` runs its body. */
  function Steps(bound: int): nat
  {
    if bound < 0 then 0 else bound
  }

  function Min(a: int, b: int): int
  {
    if a < b then a else b
  }

  /** n calls with the same arguments. */
  function Repeat(call: StepCall, n: nat): (r: seq<StepCall>)
    ensures |r| == n
    ensures forall k :: 0 <= k < n ==> r[k] == call
  {
    if n == 0 then [] else Repeat(call, n - 1) + [call]
  }

  /** Selected and to-remove sets partition both local index ranges. */
  ghost predicate Valid(st: SearchSets, nCat: nat, nNum: nat)
  {
    && Partitions(st.catSelected, st.catToRemove, nCat)
    && Partitions(st.numSelected, st.numToRemove, nNum)
  }

  /** The pool of an SFS phase: exactly the features still to be removed. */
  ghost predicate ForwardReady(st: SearchSets, nCat: nat)
  {
    st.available == Global(st.catToRemove, st.numToRemove, nCat)
  }

  /** The pool of an SBS phase: exactly the features still selected. */
  ghost predicate BackwardReady(st: SearchSets, nCat: nat)
  {
    st.available == Global(st.catSelected, st.numSelected, nCat)
  }

  function SelectedCount(st: SearchSets): nat
  {
    |st.catSelected| + |st.numSelected|
  }

  /** Global index g leaves the pool and moves from to-remove to selected. */
  function AdoptFeature(st: SearchSets, g: int, nCat: int): SearchSets
  {
    if g < nCat then
      st.(available := st.available - {g},
          catToRemove := st.catToRemove - {g}, catSelected := st.catSelected + {g})
    else
      st.(available := st.available - {g},
          numToRemove := st.numToRemove - {g - nCat}, numSelected := st.numSelected + {g - nCat})
  }

  /** Global index g leaves the pool and moves from selected to to-remove. */
  function DropFeature(st: SearchSets, g: int, nCat: int): SearchSets
  {
    if g < nCat then
      st.(available := st.available - {g},
          catSelected := st.catSelected - {g}, catToRemove := st.catToRemove + {g})
    else
      st.(available := st.available - {g},
          numSelected := st.numSelected - {g - nCat}, numToRemove := st.numToRemove + {g - nCat})
  }

  /** One SFS step (the abstract step body: the oracle picks any pool member). */
  method SFSSelectFeature(st: SearchSets, nCat: int, limit: int) returns (chosen: int, next: SearchSets)
    ensures st.available == {} ==> chosen == -1 && next == st
    ensures st.available != {} ==> chosen in st.available && next == AdoptFeature(st, chosen, nCat)
  {
    if st.available == {} {
      chosen, next := -1, st;
    } else {
      NonEmptyHasElement(st.available);
      chosen :| chosen in st.available;
      next := AdoptFeature(st, chosen, nCat);
    }
  }

  /** One SBS step (the abstract step body: the oracle picks any pool member). */
  method SBSRemoveFeature(st: SearchSets, nCat: int, limit: int, maxDecrease: real)
    returns (chosen: int, next: SearchSets)
    ensures st.available == {} ==> chosen == -1 && next == st
    ensures st.available != {} ==> chosen in st.available && next == DropFeature(st, chosen, nCat)
  {
    if st.available == {} {
      chosen, next := -1, st;
    } else {
      NonEmptyHasElement(st.available);
      chosen :| chosen in st.available;
      next := DropFeature(st, chosen, nCat);
    }
  }

  /** In an SFS phase one step selects one more feature and keeps the partition. */
  lemma AdoptKeepsForward(st: SearchSets, nCat: nat, nNum: nat, g: int)
    requires Valid(st, nCat, nNum) && ForwardReady(st, nCat) && g in st.available
    ensures Valid(AdoptFeature(st, g, nCat), nCat, nNum)
    ensures ForwardReady(AdoptFeature(st, g, nCat), nCat)
    ensures SelectedCount(AdoptFeature(st, g, nCat)) == SelectedCount(st) + 1
  {
    var cr, nr := st.catToRemove, st.numToRemove;
    assert forall c :: c in cr ==> c < nCat;
    assert forall j :: j in nr ==> 0 <= j;
    GlobalMember(cr, nr, nCat, g);
    GlobalRemove(cr, nr, nCat, g);
    if g < nCat {
      MoveKeepsPartition(st.catSelected, cr, nCat, g);
    } else {
      MoveKeepsPartition(st.numSelected, nr, nNum, g - nCat);
    }
  }

  /** In an SBS phase one step removes one more feature and keeps the partition. */
  lemma DropKeepsBackward(st: SearchSets, nCat: nat, nNum: nat, g: int)
    requires Valid(st, nCat, nNum) && BackwardReady(st, nCat) && g in st.available
    ensures Valid(DropFeature(st, g, nCat), nCat, nNum)
    ensures BackwardReady(DropFeature(st, g, nCat), nCat)
    ensures SelectedCount(DropFeature(st, g, nCat)) == SelectedCount(st) - 1
  {
    var cs, ns := st.catSelected, st.numSelected;
    assert forall c :: c in cs ==> c < nCat;
    assert forall j :: j in ns ==> 0 <= j;
    GlobalMember(cs, ns, nCat, g);
    GlobalRemove(cs, ns, nCat, g);
    if g < nCat {
      MoveBackKeepsPartition(cs, st.catToRemove, nCat, g);
    } else {
      MoveBackKeepsPartition(ns, st.numToRemove, nNum, g - nCat);
    }
  }

  /** Cutting the pool down to the selected side sets up an SBS phase. */
  lemma PoolOfSelected(st: SearchSets, nCat: nat, nNum: nat)
    requires Valid(st, nCat, nNum)
    ensures Valid(st.(available := Global(st.catSelected, st.numSelected, nCat)), nCat, nNum)
    ensures BackwardReady(st.(available := Global(st.catSelected, st.numSelected, nCat)), nCat)
    ensures |Global(st.catSelected, st.numSelected, nCat)| == SelectedCount(st)
    ensures Global(st.catSelected, st.numSelected, nCat) <= Range(0, nCat + nNum)
  {
    SideSizes(st, nCat, nNum);
    GlobalWithinRange(st.catSelected, st.numSelected, nCat, nNum);
  }

  /** Cutting the pool down to the to-remove side sets up an SFS phase. */
  lemma PoolOfRemoved(st: SearchSets, nCat: nat, nNum: nat)
    requires Valid(st, nCat, nNum)
    ensures Valid(st.(available := Global(st.catToRemove, st.numToRemove, nCat)), nCat, nNum)
    ensures ForwardReady(st.(available := Global(st.catToRemove, st.numToRemove, nCat)), nCat)
    ensures |Global(st.catToRemove, st.numToRemove, nCat)| == nCat + nNum - SelectedCount(st)
    ensures Global(st.catToRemove, st.numToRemove, nCat) <= Range(0, nCat + nNum)
  {
    SideSizes(st, nCat, nNum);
    GlobalWithinRange(st.catToRemove, st.numToRemove, nCat, nNum);
  }

  /** Sizes of the two global sides of a partitioned state. */
  lemma SideSizes(st: SearchSets, nCat: nat, nNum: nat)
    requires Valid(st, nCat, nNum)
    ensures |Global(st.catSelected, st.numSelected, nCat)| == SelectedCount(st)
    ensures |Global(st.catToRemove, st.numToRemove, nCat)| == nCat + nNum - SelectedCount(st)
  {
    GlobalSize(st.catSelected, st.numSelected, nCat);
    GlobalSize(st.catToRemove, st.numToRemove, nCat);
  }

  /**
   * The SFS loop's invariant after i calls that started from st: the pool has
   * shrunk by one and the selection grown by one per call, until the pool ran dry.
   */
  ghost predicate SelectedSoFar(st: SearchSets, cur: SearchSets, nCat: nat, nNum: nat, i: nat)
  {
    && Valid(cur, nCat, nNum) && ForwardReady(cur, nCat)
    && cur.available <= st.available
    && st.catSelected <= cur.catSelected && st.numSelected <= cur.numSelected
    && |cur.available| == |st.available| - Min(i, |st.available|)
    && SelectedCount(cur) == SelectedCount(st) + Min(i, |st.available|)
  }

  /** The SBS loop's invariant after i calls that started from st, mirroring SelectedSoFar. */
  ghost predicate RemovedSoFar(st: SearchSets, cur: SearchSets, nCat: nat, nNum: nat, i: nat)
  {
    && Valid(cur, nCat, nNum) && BackwardReady(cur, nCat)
    && cur.available <= st.available
    && st.catToRemove <= cur.catToRemove && st.numToRemove <= cur.numToRemove
    && |cur.available| == |st.available| - Min(i, |st.available|)
    && SelectedCount(cur) == SelectedCount(st) - Min(i, |st.available|)
  }

  /** The SFS loop's invariant survives one more step. */
  lemma ForwardProgress(st: SearchSets, cur: SearchSets, chosen: int, after: SearchSets, nCat: nat, nNum: nat, i: nat)
    requires SelectedSoFar(st, cur, nCat, nNum, i)
    requires cur.available == {} ==> after == cur
    requires cur.available != {} ==> chosen in cur.available && after == AdoptFeature(cur, chosen, nCat)
    ensures SelectedSoFar(st, after, nCat, nNum, i + 1)
  {
    if cur.available != {} {
      AdoptKeepsForward(cur, nCat, nNum, chosen);
    }
  }

  /** The SBS loop's invariant survives one more step. */
  lemma BackwardProgress(st: SearchSets, cur: SearchSets, chosen: int, after: SearchSets, nCat: nat, nNum: nat, i: nat)
    requires RemovedSoFar(st, cur, nCat, nNum, i)
    requires cur.available == {} ==> after == cur
    requires cur.available != {} ==> chosen in cur.available && after == DropFeature(cur, chosen, nCat)
    ensures RemovedSoFar(st, after, nCat, nNum, i + 1)
  {
    if cur.available != {} {
      DropKeepsBackward(cur, nCat, nNum, chosen);
    }
  }

  /**
   * `for (int i = 0; i < count; i++) SFS.SFSSelectFeature(..., limit)`: each
   * call selects one feature until the pool runs dry.
   */
  method SelectFeatures(st: SearchSets, nCat: nat, nNum: nat, count: int, limit: int)
    returns (next: SearchSets, calls: seq<StepCall>)
    requires Valid(st, nCat, nNum) && ForwardReady(st, nCat)
    ensures Valid(next, nCat, nNum) && ForwardReady(next, nCat)
    ensures next.available <= st.available
    ensures st.catSelected <= next.catSelected && st.numSelected <= next.numSelected
    ensures SelectedCount(next) == SelectedCount(st) + Min(Steps(count), |st.available|)
    ensures calls == Repeat(SFSCall(limit), Steps(count))
  {
    next, calls := st, [];
    var i := 0;
    while i < count
      invariant 0 <= i <= Steps(count)
      invariant SelectedSoFar(st, next, nCat, nNum, i)
      invariant calls == Repeat(SFSCall(limit), i)
    {
      var chosen, after := SFSSelectFeature(next, nCat, limit);
      ForwardProgress(st, next, chosen, after, nCat, nNum, i);
      next := after;
      calls := calls + [SFSCall(limit)];
      i := i + 1;
    }
  }

  /**
   * `for (int i = 0; i < count; i++) SBS.SBSRemoveFeature(..., limit, ..., maxDecrease)`:
   * each call removes one feature until the pool runs dry.
   */
  method RemoveFeatures(st: SearchSets, nCat: nat, nNum: nat, count: int, limit: int, maxDecrease: real)
    returns (next: SearchSets, calls: seq<StepCall>)
    requires Valid(st, nCat, nNum) && BackwardReady(st, nCat)
    ensures Valid(next, nCat, nNum) && BackwardReady(next, nCat)
    ensures next.available <= st.available
    ensures st.catToRemove <= next.catToRemove && st.numToRemove <= next.numToRemove
    ensures SelectedCount(next) == SelectedCount(st) - Min(Steps(count), |st.available|)
    ensures calls == Repeat(SBSCall(limit, maxDecrease), Steps(count))
  {
    next, calls := st, [];
    var i := 0;
    while i < count
      invariant 0 <= i <= Steps(count)
      invariant RemovedSoFar(st, next, nCat, nNum, i)
      invariant calls == Repeat(SBSCall(limit, maxDecrease), i)
    {
      var chosen, after := SBSRemoveFeature(next, nCat, limit, maxDecrease);
      BackwardProgress(st, next, chosen, after, nCat, nNum, i);
      next := after;
      calls := calls + [SBSCall(limit, maxDecrease)];
      i := i + 1;
    }
  }
}
