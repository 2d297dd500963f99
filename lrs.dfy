/**
 * Plus-L minus-R feature selection (LRS).  When L > R, L features are added by
 * SFS and R of them are pruned again by SBS, leaving L - R; when L < R, R
 * features are first removed by SBS from the full set and L of the removed
 * ones are added back by SFS, leaving D - R + L of the D features.
 */
module LRSFeatureSelection {
  import opened Common
  import opened FeatureIndex
  import opened GreedySearch

  /** What the search reads of a data set: nCat categorical features, then nNum numeric ones. */
  datatype DataShape = DataShape(numCategorical: nat, numNumeric: nat)
  {
    function NumFeatures(): nat
    {
      numCategorical + numNumeric
    }
  }

  /** The index sets handed to RemoveAttributeTransform: the features it drops. */
  datatype RemoveAttributes = RemoveAttributes(catToRemove: set<int>, numToRemove: set<int>)

  /**
   * The sets as the search sets them up before its first step: the pool holds
   * every global index; with L > R nothing is selected yet, with L < R
   * everything is, and with L == R every set but the pool stays empty.
   */
  function InitialSets(L: int, R: int, nCat: nat, nNum: nat): (st: SearchSets)
    ensures st.available == Range(0, nCat + nNum) && |st.available| == nCat + nNum
    ensures L > R ==> Valid(st, nCat, nNum) && ForwardReady(st, nCat) && SelectedCount(st) == 0
    ensures L < R ==> Valid(st, nCat, nNum) && BackwardReady(st, nCat) && SelectedCount(st) == nCat + nNum
    ensures L == R ==> st == SearchSets(Range(0, nCat + nNum), {}, {}, {}, {})
  {
    PoolSize(nCat, nNum);
    if L > R then
      NothingSelectedStart(nCat, nNum);
      SearchSets(Range(0, nCat + nNum), {}, {}, Range(0, nCat), Range(0, nNum))
    else if L < R then
      AllSelectedStart(nCat, nNum);
      SearchSets(Range(0, nCat + nNum), Range(0, nCat), Range(0, nNum), {}, {})
    else
      SearchSets(Range(0, nCat + nNum), {}, {}, {}, {})
  }

  /** The initial pool holds nCat + nNum indices. */
  lemma PoolSize(nCat: nat, nNum: nat)
    ensures |Range(0, nCat + nNum)| == nCat + nNum
  {
    RangeSize(0, nCat + nNum);
  }

  lemma NothingSelectedStart(nCat: nat, nNum: nat)
    ensures Valid(SearchSets(Range(0, nCat + nNum), {}, {}, Range(0, nCat), Range(0, nNum)), nCat, nNum)
    ensures ForwardReady(SearchSets(Range(0, nCat + nNum), {}, {}, Range(0, nCat), Range(0, nNum)), nCat)
  {
    SplitRange(nCat, nNum);
    RangeAgainstNothing(nCat);
    RangeAgainstNothing(nNum);
  }

  lemma AllSelectedStart(nCat: nat, nNum: nat)
    ensures Valid(SearchSets(Range(0, nCat + nNum), Range(0, nCat), Range(0, nNum), {}, {}), nCat, nNum)
    ensures BackwardReady(SearchSets(Range(0, nCat + nNum), Range(0, nCat), Range(0, nNum), {}, {}), nCat)
    ensures SelectedCount(SearchSets(Range(0, nCat + nNum), Range(0, nCat), Range(0, nNum), {}, {})) == nCat + nNum
  {
    SplitRange(nCat, nNum);
    RangeAgainstNothing(nCat);
    RangeAgainstNothing(nNum);
  }

  /**
   * Restricting the pool between the phases: `available.clear()`, then add the
   * categorical indices and every numeric index shifted by nCat.
   */
  method RestrictTo(cat: set<int>, num: set<int>, nCat: int) returns (available: set<int>)
    ensures available == Global(cat, num, nCat)
  {
    available := {};
    available := available + cat;
    var rest := num;
    while rest != {}
      invariant rest <= num
      invariant available == cat + Shift(num - rest, nCat)
      decreases rest
    {
      NonEmptyHasElement(rest);
      var i :| i in rest;
      ShiftRemove(num - rest + {i}, nCat, i);
      assert num - (rest - {i}) == (num - rest) + {i};
      available := available + {i + nCat};
      rest := rest - {i};
    }
    assert num - rest == num;
  }

  /** The transform drops exactly the features the search did not select. */
  lemma RemovalKeepsSelected(data: DataShape, catSelected: set<int>, numSelected: set<int>, mask: RemoveAttributes)
    requires Partitions(catSelected, mask.catToRemove, data.numCategorical)
    requires Partitions(numSelected, mask.numToRemove, data.numNumeric)
    ensures Range(0, data.NumFeatures()) - Global(mask.catToRemove, mask.numToRemove, data.numCategorical)
         == Global(catSelected, numSelected, data.numCategorical)
    ensures |Range(0, data.NumFeatures()) - Global(mask.catToRemove, mask.numToRemove, data.numCategorical)|
         == |catSelected| + |numSelected|
  {
    ComplementOfGlobal(catSelected, mask.catToRemove, numSelected, mask.numToRemove,
                       data.numCategorical, data.numNumeric);
    GlobalSize(catSelected, numSelected, data.numCategorical);
  }

  /** An LRS feature-selection transform. A field the source leaves null is None. */
  class LRS {
    var finalTransform: Option<RemoveAttributes>
    var catSelected: Option<set<int>>
    var numSelected: Option<set<int>>
    /** The greedy steps the last search called, in order, with their arguments. */
    ghost var stepCalls: seq<StepCall>
    /** The pool the last search restricted itself to between its two phases. */
    ghost var pool: set<int>

    ghost predicate Finished()
      reads this
    {
      catSelected.Some? && numSelected.Some? && finalTransform.Some?
    }

    /** The sets the last search finished with: its restricted pool, the selection and the removal sets. */
    ghost function Outcome(): SearchSets
      reads this
      requires Finished()
    {
      SearchSets(pool, catSelected.value, numSelected.value,
                 finalTransform.value.catToRemove, finalTransform.value.numToRemove)
    }

    /** Selected and removed features split each local index range in two. */
    ghost predicate Partitioned(data: DataShape)
      reads this
      requires Finished()
    {
      Valid(Outcome(), data.numCategorical, data.numNumeric)
    }

    /**
     * Both public constructors (for a classification and for a regression data
     * set) just run the search; neither rejects L == R.
     */
    constructor (L: int, R: int, data: DataShape)
      ensures Finished()
      ensures L == R ==>
                && catSelected == Some({}) && numSelected == Some({})
                && finalTransform == Some(RemoveAttributes({}, {})) && stepCalls == []
      ensures L != R ==> Partitioned(data)
      ensures pool <= Range(0, data.NumFeatures())
      ensures L > R ==> stepCalls == Repeat(SFSCall(L), Steps(L)) + Repeat(SBSCall(L - R, 0.0), Steps(R))
      ensures L > R ==>
                && |pool| == Min(Steps(L), data.NumFeatures())
                && Global(catSelected.value, numSelected.value, data.numCategorical) <= pool
                && SelectedCount(Outcome()) == |pool| - Min(Steps(R), |pool|)
      ensures L < R ==>
                stepCalls == Repeat(SBSCall(data.NumFeatures() - R, 0.0), Steps(R)) + Repeat(SFSCall(R - L), Steps(L))
      ensures L < R ==>
                && |pool| == Min(Steps(R), data.NumFeatures())
                && Global(finalTransform.value.catToRemove, finalTransform.value.numToRemove, data.numCategorical) <= pool
                && SelectedCount(Outcome()) == data.NumFeatures() - |pool| + Min(Steps(L), |pool|)
      ensures 0 <= R < L <= data.NumFeatures() ==> SelectedCount(Outcome()) == L - R
      ensures 0 <= L < R <= data.NumFeatures() ==> SelectedCount(Outcome()) == data.NumFeatures() - R + L
    {
      finalTransform, catSelected, numSelected := None, None, None;
      stepCalls, pool := [], {};
      new;
      Search(L, R, data);
    }

    /** The copy constructor: copies the selection only when there is one. */
    constructor Copy(toClone: LRS)
      ensures toClone.catSelected.Some? ==>
                catSelected == toClone.catSelected && numSelected == toClone.numSelected
                && finalTransform == toClone.finalTransform
      ensures toClone.catSelected.None? ==>
                catSelected.None? && numSelected.None? && finalTransform.None?
    {
      if toClone.catSelected.Some? {
        finalTransform := toClone.finalTransform;
        catSelected := toClone.catSelected;
        numSelected := toClone.numSelected;
      } else {
        finalTransform, catSelected, numSelected := None, None, None;
      }
      stepCalls, pool := [], {};
    }

    method Clone() returns (c: LRS)
      ensures fresh(c)
      ensures catSelected.Some? ==>
                c.catSelected == catSelected && c.numSelected == numSelected
                && c.finalTransform == finalTransform
      ensures catSelected.None? ==>
                c.catSelected.None? && c.numSelected.None? && c.finalTransform.None?
    {
      c := new LRS.Copy(this);
    }

    /** A copy of the selected categorical features; None stands for the exception the source throws on a null field. */
    method GetSelectedCategorical() returns (r: Option<set<int>>)
      ensures r == catSelected
    {
      r := catSelected;
    }

    /** A copy of the selected numeric features; None stands for the exception the source throws on a null field. */
    method GetSelectedNumerical() returns (r: Option<set<int>>)
      ensures r == numSelected
    {
      r := numSelected;
    }

    /**
     * The two-branch search.  The sign of L - R picks the phase order; the
     * limits passed to the steps differ between the branches (L and L - R in
     * one, nF - R and R - L in the other), and with L == R no step runs at all.
     */
    method Search(L: int, R: int, data: DataShape)
      modifies this
      ensures Finished()
      ensures L == R ==>
                && catSelected == Some({}) && numSelected == Some({})
                && finalTransform == Some(RemoveAttributes({}, {})) && stepCalls == []
      ensures L != R ==> Partitioned(data)
      ensures pool <= Range(0, data.NumFeatures())
      ensures L > R ==> stepCalls == Repeat(SFSCall(L), Steps(L)) + Repeat(SBSCall(L - R, 0.0), Steps(R))
      ensures L > R ==>
                && |pool| == Min(Steps(L), data.NumFeatures())
                && Global(catSelected.value, numSelected.value, data.numCategorical) <= pool
                && SelectedCount(Outcome()) == |pool| - Min(Steps(R), |pool|)
      ensures L < R ==>
                stepCalls == Repeat(SBSCall(data.NumFeatures() - R, 0.0), Steps(R)) + Repeat(SFSCall(R - L), Steps(L))
      ensures L < R ==>
                && |pool| == Min(Steps(R), data.NumFeatures())
                && Global(finalTransform.value.catToRemove, finalTransform.value.numToRemove, data.numCategorical) <= pool
                && SelectedCount(Outcome()) == data.NumFeatures() - |pool| + Min(Steps(L), |pool|)
      ensures 0 <= R < L <= data.NumFeatures() ==> SelectedCount(Outcome()) == L - R
      ensures 0 <= L < R <= data.NumFeatures() ==> SelectedCount(Outcome()) == data.NumFeatures() - R + L
    {
      var st: SearchSets;
      var calls: seq<StepCall>;
      ghost var restricted: set<int>;
      if L > R {
        st, calls, restricted := PlusLMinusR(L, R, data);
      } else if L < R {
        st, calls, restricted := MinusRPlusL(L, R, data);
      } else {
        st, calls, restricted := InitialSets(L, R, data.numCategorical, data.numNumeric), [], {};
      }
      catSelected := Some(st.catSelected);
      numSelected := Some(st.numSelected);
      finalTransform := Some(RemoveAttributes(st.catToRemove, st.numToRemove));
      stepCalls := calls;
      pool := restricted;
    }
  }

  /**
   * The L > R branch: L SFS steps (limit L) over the whole pool, the pool cut
   * down to what they selected, then R SBS steps (limit L - R, threshold 0.0).
   */
  method PlusLMinusR(L: int, R: int, data: DataShape)
    returns (st: SearchSets, calls: seq<StepCall>, pool: set<int>)
    requires L > R
    ensures Valid(st, data.numCategorical, data.numNumeric)
    ensures calls == Repeat(SFSCall(L), Steps(L)) + Repeat(SBSCall(L - R, 0.0), Steps(R))
    ensures |pool| == Min(Steps(L), data.NumFeatures()) && pool <= Range(0, data.NumFeatures())
    ensures Global(st.catSelected, st.numSelected, data.numCategorical) <= pool
    ensures SelectedCount(st) == |pool| - Min(Steps(R), |pool|)
  {
    // The arguments every SBS step of the pruning phase receives.
    var prune := SBSCall(L - R, 0.0);
    var grown, added := AddFirst(L, R, data);
    pool := grown.available;
    var removed;
    st, removed := RemoveFeatures(grown, data.numCategorical, data.numNumeric, R, prune.limit, prune.maxDecrease);
    calls := added + removed;
  }

  /**
   * The first half of the L > R branch: L SFS steps from nothing selected, then
   * the pool cleared and refilled with the selected features.
   */
  method AddFirst(L: int, R: int, data: DataShape) returns (st: SearchSets, calls: seq<StepCall>)
    requires L > R
    ensures Valid(st, data.numCategorical, data.numNumeric) && BackwardReady(st, data.numCategorical)
    ensures |st.available| == SelectedCount(st) == Min(Steps(L), data.NumFeatures())
    ensures st.available <= Range(0, data.NumFeatures())
    ensures calls == Repeat(SFSCall(L), Steps(L))
  {
    var grown;
    grown, calls := AddAll(L, R, data);
    var available := RestrictTo(grown.catSelected, grown.numSelected, data.numCategorical);
    PoolOfSelected(grown, data.numCategorical, data.numNumeric);
    st := grown.(available := available);
  }

  /** L SFS steps (limit L) over the full pool, starting from nothing selected. */
  method AddAll(L: int, R: int, data: DataShape) returns (st: SearchSets, calls: seq<StepCall>)
    requires L > R
    ensures Valid(st, data.numCategorical, data.numNumeric)
    ensures SelectedCount(st) == Min(Steps(L), data.NumFeatures())
    ensures calls == Repeat(SFSCall(L), Steps(L))
  {
    var start := InitialSets(L, R, data.numCategorical, data.numNumeric);
    st, calls := SelectFeatures(start, data.numCategorical, data.numNumeric, L, L);
  }

  /**
   * The L < R branch: R SBS steps (limit nF - R, threshold 0.0) over the whole
   * pool, the pool cut down to what they removed, then L SFS steps (limit R - L).
   */
  method MinusRPlusL(L: int, R: int, data: DataShape)
    returns (st: SearchSets, calls: seq<StepCall>, pool: set<int>)
    requires L < R
    ensures Valid(st, data.numCategorical, data.numNumeric)
    ensures calls == Repeat(SBSCall(data.NumFeatures() - R, 0.0), Steps(R)) + Repeat(SFSCall(R - L), Steps(L))
    ensures |pool| == Min(Steps(R), data.NumFeatures()) && pool <= Range(0, data.NumFeatures())
    ensures Global(st.catToRemove, st.numToRemove, data.numCategorical) <= pool
    ensures SelectedCount(st) == data.NumFeatures() - |pool| + Min(Steps(L), |pool|)
  {
    // The arguments every SFS step of the regrowing phase receives.
    var regrow := SFSCall(R - L);
    var pruned, removed := RemoveFirst(L, R, data);
    pool := pruned.available;
    var added;
    st, added := SelectFeatures(pruned, data.numCategorical, data.numNumeric, L, regrow.limit);
    calls := removed + added;
  }

  /**
   * The first half of the L < R branch: R SBS steps from everything selected,
   * then the pool cleared and refilled with the removed features.
   */
  method RemoveFirst(L: int, R: int, data: DataShape) returns (st: SearchSets, calls: seq<StepCall>)
    requires L < R
    ensures Valid(st, data.numCategorical, data.numNumeric) && ForwardReady(st, data.numCategorical)
    ensures |st.available| == Min(Steps(R), data.NumFeatures())
    ensures st.available <= Range(0, data.NumFeatures())
    ensures SelectedCount(st) == data.NumFeatures() - |st.available|
    ensures calls == Repeat(SBSCall(data.NumFeatures() - R, 0.0), Steps(R))
  {
    var pruned;
    pruned, calls := RemoveAll(L, R, data);
    var available := RestrictTo(pruned.catToRemove, pruned.numToRemove, data.numCategorical);
    PoolOfRemoved(pruned, data.numCategorical, data.numNumeric);
    st := pruned.(available := available);
  }

  /** R SBS steps (limit nF - R, threshold 0.0) over the full pool, starting from everything selected. */
  method RemoveAll(L: int, R: int, data: DataShape) returns (st: SearchSets, calls: seq<StepCall>)
    requires L < R
    ensures Valid(st, data.numCategorical, data.numNumeric)
    ensures SelectedCount(st) == data.NumFeatures() - Min(Steps(R), data.NumFeatures())
    ensures calls == Repeat(SBSCall(data.NumFeatures() - R, 0.0), Steps(R))
  {
    // The arguments every SBS step of this phase receives.
    var prune := SBSCall(data.NumFeatures() - R, 0.0);
    var start := InitialSets(L, R, data.numCategorical, data.numNumeric);
    st, calls := RemoveFeatures(start, data.numCategorical, data.numNumeric, R, prune.limit, prune.maxDecrease);
  }

  /** The evaluator a factory was given. */
  datatype Evaluator = ClassifierEvaluator | RegressorEvaluator

  datatype LRSFactory = LRSFactory(evaluator: Evaluator, featuresToAdd: int, featuresToRemove: int)

  /** The RuntimeException "L and R must be different". */
  datatype ConfigurationError = LAndRMustDiffer

  /** Both factory constructors: equal counts fail before anything is stored. */
  function NewFactory(evaluator: Evaluator, toAdd: int, toRemove: int): (r: Result<LRSFactory, ConfigurationError>)
    ensures r.Err? <==> toAdd == toRemove
    ensures r.Ok? ==>
              && r.value.evaluator == evaluator
              && r.value.featuresToAdd == toAdd && r.value.featuresToRemove == toRemove
  {
    if toAdd == toRemove then Err(LAndRMustDiffer) else Ok(LRSFactory(evaluator, toAdd, toRemove))
  }
}
