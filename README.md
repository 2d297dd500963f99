# LRS feature selection and IntList, modelled in Dafny

This project models two sequential, stateful pieces of JSAT (the Java Statistical
Analysis Tool):

* **Plus-L minus-R selection (LRS)** — `jsat.datatransform.featureselection.LRS`.
  The search keeps five integer sets: `available` (the pool the current phase may
  move), `catSelected`/`numSelected` and `catToRemove`/`numToRemove`. Categorical
  features are indexed `[0, nCat)`; a numeric feature is stored by its local index
  `j` and has global index `j + nCat`. The sign of `L - R` picks one of two linear
  phase orders. Each phase calls a greedy step (`SFS.SFSSelectFeature` or
  `SBS.SBSRemoveFeature`) a fixed number of times. Between the phases the pool is
  cut down to what the first phase produced. The step bodies are not part of this
  model. They run cross validation, so the model gives them the contract the
  search relies on: an SFS step takes one index `g` out of the pool and moves it
  from the matching to-remove set to the matching selected set, and an SBS step
  makes the reverse move. The choice of `g` is arbitrary (Dafny's `:|`), so every
  property is proved for every choice the cross-validation oracle could make.
  Each step call is recorded with its arguments, so the step counts and limits
  can be stated.
* **`IntList`** — `jsat.utils.IntList`, a growable `int` list. The backing array
  `data` holds the list in its first `end` slots. Appending doubles the capacity
  when it is full. `get`, `set` and positional `add` check their index.

Modules: `Common` (Option, Result), `FeatureIndex` (index ranges and the
categorical/numeric encoding), `GreedySearch` (the abstract steps and the counted
loops that call them), `LRSFeatureSelection` (the class `LRS`, its search and
the factory check), `IntLists` (the class `IntList`).

Where the constructors differ from the class comment: the comment
(`LRS.java:24`) says `L = R` is not allowed, but only the two factory
constructors check this (`LRS.java:191`, `LRS.java:207`). The `LRS`
constructors (`LRS.java:58-76`) run `search` directly, and with `L == R`
neither of its branches applies. The model reproduces that: no step runs, all
four sets stay empty and the removal transform drops nothing.

## Model

| member | source | states |
|---|---|---|
| `FeatureIndex.RangeSize` | JSAT/src/jsat/datatransform/featureselection/LRS.java:123 | `addRange(s, 0, n, 1)` adds exactly `n` indices |
| `FeatureIndex.SplitRange` | JSAT/src/jsat/datatransform/featureselection/LRS.java:114-131 | `[0, nCat)` plus the numeric range shifted by `nCat` is exactly the global range `[0, nF)` |
| `FeatureIndex.GlobalSize` | JSAT/src/jsat/datatransform/featureselection/LRS.java:139-142 | categorical indices and shifted numeric indices never collide, so the pool has `|cat| + |num|` members |
| `FeatureIndex.GlobalWithinRange` | JSAT/src/jsat/datatransform/featureselection/LRS.java:139-142 | local indices inside `[0, nCat)` and `[0, nNum)` have global indices inside `[0, nCat + nNum)`, so a restricted pool never leaves the feature range |
| `FeatureIndex.ComplementOfGlobal` | JSAT/src/jsat/datatransform/featureselection/LRS.java:173 | when selected and to-remove sets partition both ranges, the global indices outside the removal sets are exactly the selected ones |
| `FeatureIndex.PartitionCovers` | JSAT/src/jsat/datatransform/featureselection/LRS.java:173 | two disjoint sets inside `[0, n)` whose sizes add up to `n` cover all of `[0, n)` |
| `FeatureIndex.MoveKeepsPartition` | JSAT/src/jsat/datatransform/featureselection/LRS.java:134-137 | moving one index from the to-remove side to the selected side keeps the partition and grows the selected side by one |
| `FeatureIndex.MoveBackKeepsPartition` | JSAT/src/jsat/datatransform/featureselection/LRS.java:144-147 | the reverse move keeps the partition and shrinks the selected side by one |
| `GreedySearch.SFSSelectFeature` | JSAT/src/jsat/datatransform/featureselection/LRS.java:135-137 | assumed step contract: with a non-empty pool it takes some pool index and moves it from to-remove to selected; with an empty pool it returns -1 and changes nothing |
| `GreedySearch.SBSRemoveFeature` | JSAT/src/jsat/datatransform/featureselection/LRS.java:145-147 | assumed step contract: the reverse move, from selected to to-remove |
| `GreedySearch.AdoptKeepsForward` | JSAT/src/jsat/datatransform/featureselection/LRS.java:134-137 | an SFS step keeps both partitions, keeps the pool equal to the to-remove side, and adds exactly one selected feature |
| `GreedySearch.DropKeepsBackward` | JSAT/src/jsat/datatransform/featureselection/LRS.java:144-147 | an SBS step keeps both partitions, keeps the pool equal to the selected side, and removes exactly one selected feature |
| `GreedySearch.PoolOfSelected` | JSAT/src/jsat/datatransform/featureselection/LRS.java:139-142 | cutting the pool down to the selected features readies an SBS phase; the pool is as large as the selection and lies inside `[0, nF)` |
| `GreedySearch.PoolOfRemoved` | JSAT/src/jsat/datatransform/featureselection/LRS.java:161-164 | cutting the pool down to the removed features readies an SFS phase; the pool holds `nF` minus the selection and lies inside `[0, nF)` |
| `GreedySearch.ForwardProgress` | JSAT/src/jsat/datatransform/featureselection/LRS.java:134-137 | one more SFS call keeps the phase's invariant: the pool shrinks by one while it is non-empty, and the selection grows by one |
| `GreedySearch.BackwardProgress` | JSAT/src/jsat/datatransform/featureselection/LRS.java:155-158 | one more SBS call keeps the phase's invariant: the pool shrinks by one while it is non-empty, and the selection shrinks by one |
| `GreedySearch.SelectFeatures` | JSAT/src/jsat/datatransform/featureselection/LRS.java:134-137 | `count` SFS calls with limit `limit`; the selection grows by `min(count, pool size)`, only grows, and the partition holds throughout |
| `GreedySearch.RemoveFeatures` | JSAT/src/jsat/datatransform/featureselection/LRS.java:155-158 | `count` SBS calls with the given limit and threshold; the selection shrinks by `min(count, pool size)`, the to-remove sets only grow, and the partition holds |
| `LRSFeatureSelection.InitialSets` | JSAT/src/jsat/datatransform/featureselection/LRS.java:117-131 | the pool is `[0, nF)`; with `L > R` nothing is selected and the pool equals the to-remove side; with `L < R` (lines 151-152) everything is selected and the pool equals the selected side; with `L == R` all four sets are empty |
| `LRSFeatureSelection.RestrictTo` | JSAT/src/jsat/datatransform/featureselection/LRS.java:139-142 | the restricted pool is exactly `cat ∪ {j + nCat : j ∈ num}` (also used for lines 161-164) |
| `LRSFeatureSelection.PlusLMinusR` | JSAT/src/jsat/datatransform/featureselection/LRS.java:128-148 | `L > R`: L SFS calls (limit L), then R SBS calls (limit L-R, threshold 0.0); the pool after phase 1 is a subset of `[0, nF)` with `min(L, nF)` features; the final selection is a subset of that pool, of size `|pool| - min(R, |pool|)` |
| `LRSFeatureSelection.AddAll` | JSAT/src/jsat/datatransform/featureselection/LRS.java:128-137 | the first phase of `L > R` from nothing selected: L SFS calls with limit L that select `min(L, nF)` features |
| `LRSFeatureSelection.AddFirst` | JSAT/src/jsat/datatransform/featureselection/LRS.java:128-142 | the first phase of `L > R` followed by the pool cut: the new pool is exactly the `min(L, nF)` selected features, all inside `[0, nF)` |
| `LRSFeatureSelection.MinusRPlusL` | JSAT/src/jsat/datatransform/featureselection/LRS.java:149-171 | `L < R`: R SBS calls (limit nF-R, threshold 0.0), then L SFS calls (limit R-L); the pool after phase 1 is a subset of `[0, nF)` with `min(R, nF)` features; only they can be added back; the final size is `nF - |pool| + min(L, |pool|)` |
| `LRSFeatureSelection.RemoveAll` | JSAT/src/jsat/datatransform/featureselection/LRS.java:149-158 | the first phase of `L < R` from everything selected: R SBS calls with limit `nF - R` and threshold 0.0 that leave `nF - min(R, nF)` features |
| `LRSFeatureSelection.RemoveFirst` | JSAT/src/jsat/datatransform/featureselection/LRS.java:149-164 | the first phase of `L < R` followed by the pool cut: the new pool is exactly the `min(R, nF)` removed features, all inside `[0, nF)` |
| `LRSFeatureSelection.LRS.Search` | JSAT/src/jsat/datatransform/featureselection/LRS.java:112-174 | sets all three fields; with `L == R` no step runs and nothing is selected or removed; otherwise the partition holds; the pool between the phases lies inside `[0, nF)` and bounds the final selection (`L > R`) or the final removals (`L < R`); the final size is `L - R` when `0 <= R < L <= nF` and `nF - R + L` when `0 <= L < R <= nF`, as the class comment (lines 19-23) promises |
| `LRSFeatureSelection.LRS.constructor` | JSAT/src/jsat/datatransform/featureselection/LRS.java:58-76 | both public constructors run the search and accept `L == R`; everything `Search` promises holds of the new object: the step log, the pool inside `[0, nF)` bounding the final selection or removals, the partition and the sizes |
| `LRSFeatureSelection.RemovalKeepsSelected` | JSAT/src/jsat/datatransform/featureselection/LRS.java:173 | the removal sets handed to the transform drop exactly the unselected features, and it keeps as many as were selected |
| `LRSFeatureSelection.LRS.Copy` | JSAT/src/jsat/datatransform/featureselection/LRS.java:38-46 | copies the transform and both selections when `catSelected` is non-null, and leaves all three null otherwise |
| `LRSFeatureSelection.LRS.Clone` | JSAT/src/jsat/datatransform/featureselection/LRS.java:84-88 | a fresh object with the same selection and transform, or with all three fields null when the receiver has no selection |
| `LRSFeatureSelection.LRS.GetSelectedCategorical` | JSAT/src/jsat/datatransform/featureselection/LRS.java:96-99 | returns the selected categorical set and changes nothing, so repeated calls agree |
| `LRSFeatureSelection.LRS.GetSelectedNumerical` | JSAT/src/jsat/datatransform/featureselection/LRS.java:107-110 | returns the selected numeric set and changes nothing |
| `LRSFeatureSelection.NewFactory` | JSAT/src/jsat/datatransform/featureselection/LRS.java:189-212 | fails exactly when `toAdd == toRemove` and otherwise stores the evaluator and both counts |
| `IntLists.IntList.constructor` | JSAT/src/jsat/utils/IntList.java:24-27 | an empty list of capacity 10 |
| `IntLists.IntList.WithCapacity` | JSAT/src/jsat/utils/IntList.java:33-37 | an empty list whose capacity is the requested one |
| `IntLists.IntList.FromCollection` | JSAT/src/jsat/utils/IntList.java:39-43 | capacity `c.size()`, contents the non-null elements of `c` in order |
| `IntLists.IntList.Set` | JSAT/src/jsat/utils/IntList.java:51-57 | in range: returns the old value and writes only that slot, size unchanged; `index >= size` or negative: the matching exception and nothing changes |
| `IntLists.IntList.Add` | JSAT/src/jsat/utils/IntList.java:89-94 | appends `e` after all old elements, which stay unchanged, and returns true; capacity becomes the grown capacity |
| `IntLists.IntList.AddBoxed` | JSAT/src/jsat/utils/IntList.java:97-102 | null returns false and leaves the list alone; otherwise as `Add` |
| `IntLists.IntList.GetI` | JSAT/src/jsat/utils/IntList.java:109-113 | succeeds exactly for `0 <= index < size` with the element there; `index >= size` gives IndexOutOfBounds |
| `IntLists.IntList.BoundsCheck` | JSAT/src/jsat/utils/IntList.java:121-125 | passes exactly when `index < size` |
| `IntLists.IntList.Size` | JSAT/src/jsat/utils/IntList.java:128-131 | the number of elements in the list |
| `IntLists.IntList.EnlargeIfNeeded` | JSAT/src/jsat/utils/IntList.java:133-137 | afterwards `end + i` fits, capacity never shrinks, the old slots are preserved and the new ones are zero, and the array is replaced only when it was too small |
| `IntLists.GrownCapacity` | JSAT/src/jsat/utils/IntList.java:133-137 | the settled capacity holds `need`, is at least the old one, and is less than `2 * need` whenever it grew |
| `IntLists.GrowthIsLeastDoubling` | JSAT/src/jsat/utils/IntList.java:133-137 | from a positive capacity the loop stops at the first doubling that is large enough |
| `IntLists.ZeroCapacityNeverGrows` | JSAT/src/jsat/utils/IntList.java:133-137 | from capacity 0 every number of doublings is still 0, so the loop guard never fails |
| `IntLists.RepairedCapacity` | JSAT/src/jsat/utils/IntList.java:133-137 | the growth loop with the step `max(1, 2 * capacity)` settles from every capacity on one that holds `need` and is at least the old one |
| `IntLists.RepairedAgreesWhenPositive` | JSAT/src/jsat/utils/IntList.java:133-137 | from a positive capacity the repaired loop ends on exactly the capacity the original loop reaches |
| `IntLists.RepairedFromZero` | JSAT/src/jsat/utils/IntList.java:133-137 | from capacity 0 the repaired loop ends where the original would from capacity 1 |
| `IntLists.IntList.EnlargeIfNeededRepaired` | JSAT/src/jsat/utils/IntList.java:133-137 | the repaired growth needs no positive capacity: afterwards `end + i` fits, the capacity is the repaired one, the old slots are preserved and the new ones are zero |
| `IntLists.IntList.Insert` | JSAT/src/jsat/utils/IntList.java:70-76 | as written: element at `index`, old `[index, end-1)` shifted right, size unchanged, old last element pushed past `end`; the capacity becomes the grown one and the array is the old one or a fresh one; out-of-range index raises and leaves the contents alone |
| `IntLists.InsertedAsWrittenKeepsSize` | JSAT/src/jsat/utils/IntList.java:70-76 | the as-written result has the old size, one less than a real insertion, and ends at the old second-to-last element |
| `IntLists.InsertAsWrittenDropsLast` | JSAT/src/jsat/utils/IntList.java:70-76 | on `[1, 2]`, `add(0, 7)` leaves `[7, 1]` where an insertion gives `[7, 1, 2]` |
| `IntLists.IntList.InsertCorrected` | JSAT/src/jsat/utils/IntList.java:70-76 | with the missing `end++`: the contents become a real insertion of `element` at `index`; capacity and array as for `Insert` |
| `IntLists.InsertedRoundTrip` | JSAT/src/jsat/utils/IntList.java:70-76 | a real insertion grows the list by one, puts `x` at `index`, and removing that slot gives the old list back |

## Left out

- GreedySearch.SFSSelectFeature: the step body (cross validation of every candidate, scoring, the target-size `limit`) is not part of this model; its contract is assumed. The real step may also decline to move a feature when no candidate improves the score; the model assumes it always moves one while the pool is non-empty.
- GreedySearch.SBSRemoveFeature: same as the SFS step; the `limit` and `maxDecrease` threshold are recorded in the call log but not interpreted.
- The best-score cell `pBestScore` (one cell, created at `LRS.java:126` and shared by both phases), the unseeded `Random`, the evaluator and the fold count: floating point, randomness and foreign code; they only feed the step bodies.
- `transform(DataPoint)`, `RemoveAttributeTransform` and its `clone()`: foreign classes; the model keeps only the two removal sets handed to it.
- `LRSFactory.getTransform`: a dispatch on the data set's runtime class to the two constructors with 5 folds; the data set classes are not part of this model.
- LRSFeatureSelection.LRS.Search: the sets are threaded as values, not mutated in place; HashSet iteration order is left arbitrary.
- LRSFeatureSelection.LRS.GetSelectedCategorical: Dafny sets are values, so the returned copy cannot alias the field by construction; a null field is returned as None where the source throws.
- 32-bit `int` arithmetic: `nF - R`, `L - R`, `R - L`, `i + nCat` and `end++` are modelled on unbounded integers.
- IntLists.IntList.EnlargeIfNeeded: requires a positive capacity whenever growth is needed, because with capacity 0 the source's loop never ends (proved by `ZeroCapacityNeverGrows`, see Findings; `EnlargeIfNeededRepaired` is the version without that requirement); capacity doubling past 2^30 overflows in Java and is not modelled.
- IntLists.IntList.Add: requires a positive capacity for the same reason.
- IntLists.IntList.AddBoxed: requires a positive capacity for a non-null element for the same reason.
- IntLists.IntList.Insert: requires a positive capacity when the index passes the bounds check, for the same reason.
- IntLists.IntList.WithCapacity: takes a natural number; a negative capacity raises NegativeArraySizeException in Java.
- The boxed overloads `set(int, Integer)`, `add(int, Integer)` and `get(int)`: they only unbox and delegate; the exception on a null element is not modelled.
- The methods `IntList` inherits from `AbstractList` (iterator, `remove`, `equals`, ...): library code.
- ChiSquared, GaussKF, CacheAcceleratedKernel, UntrainedModelException and the evaluation-metric tests: floating-point formulas, an interface, exception constructors and tests of classes not part of this model.

## Findings

| source | as written | input that shows it | evidently intended | confidence | as-written member | corrected member |
|---|---|---|---|---|---|---|
| JSAT/src/jsat/utils/IntList.java:70-76 | `add(index, element)` shifts the tail right and writes `element`, but never increments `end` | list `[1, 2]`, `add(0, 7)` gives `[7, 1]` of size 2 | `[7, 1, 2]` of size 3, as `List.add(int, E)` specifies | high; not executed | `IntLists.IntList.Insert`, `IntLists.InsertAsWrittenDropsLast` | `IntLists.IntList.InsertCorrected` |
| JSAT/src/jsat/utils/IntList.java:133-137 | `enlargeIfNeeded` doubles `array.length` until `end + i` fits | `new IntList(0)`, or `new IntList(c)` with an empty `c` (lines 39-43), then `add(5)`: the capacity stays 0 and the loop never ends | grow to at least one slot, then double | high; not executed | `IntLists.ZeroCapacityNeverGrows` | `IntLists.IntList.EnlargeIfNeededRepaired`, `IntLists.RepairedAgreesWhenPositive` |
