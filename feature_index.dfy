/**
 * The global feature index space of a data set.  Indices [0, nCat) are the
 * categorical features; a numeric feature is stored by its local index j and
 * sits at global index j + nCat.
 */
module FeatureIndex {

  /** The integers lo, lo+1, ..., hi-1 (what ListUtils.addRange(s, lo, hi, 1) adds). */
  function Range(lo: int, hi: int): (r: set<int>)
    ensures forall i :: i in r <==> lo <= i < hi
    decreases hi - lo
  {
    if hi <= lo then {} else Range(lo, hi - 1) + {hi - 1}
  }

  /** Every element of s moved up by offset. */
  function Shift(s: set<int>, offset: int): set<int>
  {
    set i | i in s :: i + offset
  }

  /** The global indices of categorical features cat and numeric features num. */
  function Global(cat: set<int>, num: set<int>, nCat: int): set<int>
  {
    cat + Shift(num, nCat)
  }

  /**
   * sel and rem split the local index range [0, n) in two: both lie inside it,
   * they share nothing, and together they are as large as it (so they cover it,
   * see PartitionCovers).
   */
  ghost predicate Partitions(sel: set<int>, rem: set<int>, n: int)
  {
    && (forall i :: i in sel ==> 0 <= i < n)
    && (forall i :: i in rem ==> 0 <= i < n)
    && sel !! rem
    && |sel| + |rem| == n
  }

  lemma {:induction false} RangeSize(lo: int, hi: int)
    requires lo <= hi
    ensures |Range(lo, hi)| == hi - lo
    decreases hi - lo
  {
    if lo < hi {
      assert hi - 1 !in Range(lo, hi - 1);
      RangeSize(lo, hi - 1);
    }
  }

  /** Moving every index by the same offset loses none of them. */
  lemma {:induction false} ShiftSize(s: set<int>, offset: int)
    ensures |Shift(s, offset)| == |s|
    decreases s
  {
    if s != {} {
      NonEmptyHasElement(s);
      var x :| x in s;
      ShiftSize(s - {x}, offset);
      ShiftRemove(s, offset, x);
    }
  }

  /** A set other than {} has an element to pick. */
  lemma NonEmptyHasElement(s: set<int>)
    requires s != {}
    ensures exists x :: x in s
  {
    if forall x :: x !in s {
      assert false;
    }
  }

  /** Shifting after removing x is shifting, then removing x + offset. */
  lemma ShiftRemove(s: set<int>, offset: int, x: int)
    ensures Shift(s - {x}, offset) == Shift(s, offset) - {x + offset}
  {
    forall g | g in Shift(s, offset) - {x + offset}
      ensures g in Shift(s - {x}, offset)
    {
      var j :| j in s && g == j + offset;
      assert j in s - {x};
    }
  }

  /** Categorical and shifted numeric indices never collide. */
  lemma GlobalSize(cat: set<int>, num: set<int>, nCat: int)
    requires forall c :: c in cat ==> c < nCat
    requires forall j :: j in num ==> 0 <= j
    ensures |Global(cat, num, nCat)| == |cat| + |num|
  {
    ShiftSize(num, nCat);
    assert cat !! Shift(num, nCat);
  }

  /** The two local ranges together cover the global range [0, nCat + nNum). */
  lemma SplitRange(nCat: nat, nNum: nat)
    ensures Global(Range(0, nCat), Range(0, nNum), nCat) == Range(0, nCat + nNum)
  {
    forall g | g in Range(0, nCat + nNum)
      ensures g in Global(Range(0, nCat), Range(0, nNum), nCat)
    {
      if g >= nCat {
        assert g - nCat in Range(0, nNum);
      }
    }
  }

  /** The whole range against nothing splits it, in either order. */
  lemma RangeAgainstNothing(n: nat)
    ensures Partitions({}, Range(0, n), n) && Partitions(Range(0, n), {}, n)
  {
    RangeSize(0, n);
  }

  /** A partition of [0, n) covers all of it. */
  lemma PartitionCovers(sel: set<int>, rem: set<int>, n: int)
    requires Partitions(sel, rem, n)
    ensures sel + rem == Range(0, n)
  {
    var all := Range(0, n);
    RangeSize(0, n);
    assert sel * rem == {};
    assert |sel + rem| == n;
    var missing := all - (sel + rem);
    assert (sel + rem) * all == sel + rem;
    assert |missing| == 0;
  }

  /** Moving x from rem to sel keeps the partition and grows sel by one. */
  lemma MoveKeepsPartition(sel: set<int>, rem: set<int>, n: int, x: int)
    requires Partitions(sel, rem, n) && x in rem
    ensures Partitions(sel + {x}, rem - {x}, n)
    ensures |sel + {x}| == |sel| + 1
  {
  }

  /** Moving x from sel back to rem keeps the partition and shrinks sel by one. */
  lemma MoveBackKeepsPartition(sel: set<int>, rem: set<int>, n: int, x: int)
    requires Partitions(sel, rem, n) && x in sel
    ensures Partitions(sel - {x}, rem + {x}, n)
    ensures |sel - {x}| == |sel| - 1
  {
  }

  /** Decoding a global index back into the side it came from. */
  lemma GlobalMember(cat: set<int>, num: set<int>, nCat: int, g: int)
    requires forall c :: c in cat ==> c < nCat
    requires forall j :: j in num ==> 0 <= j
    requires g in Global(cat, num, nCat)
    ensures g < nCat ==> g in cat
    ensures nCat <= g ==> g - nCat in num
  {
    if g !in cat {
      var j :| j in num && g == j + nCat;
    }
  }

  /** Removing one index from a side removes exactly its global index. */
  lemma GlobalRemove(cat: set<int>, num: set<int>, nCat: int, g: int)
    requires forall c :: c in cat ==> c < nCat
    requires forall j :: j in num ==> 0 <= j
    ensures g < nCat ==> Global(cat - {g}, num, nCat) == Global(cat, num, nCat) - {g}
    ensures nCat <= g ==> Global(cat, num - {g - nCat}, nCat) == Global(cat, num, nCat) - {g}
  {
    ShiftRemove(num, nCat, g - nCat);
  }

  /** The global indices dropped by removal sets are exactly those of the kept ones. */
  lemma ComplementOfGlobal(
    catSel: set<int>, catRem: set<int>, numSel: set<int>, numRem: set<int>, nCat: nat, nNum: nat)
    requires Partitions(catSel, catRem, nCat) && Partitions(numSel, numRem, nNum)
    ensures Range(0, nCat + nNum) - Global(catRem, numRem, nCat) == Global(catSel, numSel, nCat)
  {
    SelectedInsideRange(catSel, catRem, numSel, numRem, nCat, nNum);
    OutsideRemovedIsSelected(catSel, catRem, numSel, numRem, nCat, nNum);
  }

  /** Local indices inside [0, nCat) and [0, nNum) have global indices inside [0, nCat + nNum). */
  lemma GlobalWithinRange(cat: set<int>, num: set<int>, nCat: nat, nNum: nat)
    requires forall c :: c in cat ==> 0 <= c < nCat
    requires forall j :: j in num ==> 0 <= j < nNum
    ensures Global(cat, num, nCat) <= Range(0, nCat + nNum)
  {
    forall g | g in Global(cat, num, nCat)
      ensures g in Range(0, nCat + nNum)
    {
      GlobalMember(cat, num, nCat, g);
    }
  }

  /** A kept feature lies in the global range and is not dropped. */
  lemma SelectedInsideRange(
    catSel: set<int>, catRem: set<int>, numSel: set<int>, numRem: set<int>, nCat: nat, nNum: nat)
    requires Partitions(catSel, catRem, nCat) && Partitions(numSel, numRem, nNum)
    ensures Global(catSel, numSel, nCat) <= Range(0, nCat + nNum) - Global(catRem, numRem, nCat)
  {
    GlobalWithinRange(catSel, numSel, nCat, nNum);
    forall g | g in Global(catSel, numSel, nCat)
      ensures g !in Global(catRem, numRem, nCat)
    {
      GlobalMember(catSel, numSel, nCat, g);
      if g in Global(catRem, numRem, nCat) {
        GlobalMember(catRem, numRem, nCat, g);
        assert false;
      }
    }
  }

  /** A feature of the global range that is not dropped is kept. */
  lemma OutsideRemovedIsSelected(
    catSel: set<int>, catRem: set<int>, numSel: set<int>, numRem: set<int>, nCat: nat, nNum: nat)
    requires Partitions(catSel, catRem, nCat) && Partitions(numSel, numRem, nNum)
    ensures Range(0, nCat + nNum) - Global(catRem, numRem, nCat) <= Global(catSel, numSel, nCat)
  {
    SplitRange(nCat, nNum);
    PartitionCovers(catSel, catRem, nCat);
    PartitionCovers(numSel, numRem, nNum);
    forall g | g in Range(0, nCat + nNum) && g !in Global(catRem, numRem, nCat)
      ensures g in Global(catSel, numSel, nCat)
    {
      GlobalMember(Range(0, nCat), Range(0, nNum), nCat, g);
      if g >= nCat {
        assert g - nCat !in numRem;
      }
    }
  }
}
