/**
 * IntList: a growable list of ints kept in a backing array `data` whose first
 * `end` slots are the list.  Growth doubles the capacity; null is never stored.
 */
module IntLists {
  import opened Common

  /** The exceptions the list's operations raise. */
  datatype Failure =
    | IndexOutOfBounds       // from boundsCheck: index >= size()
    | ArrayIndexOutOfBounds  // a negative index that reaches the backing array

  /** Capacity of the no-argument constructor. */
  const DefaultCapacity: nat := 10

  /** The capacity after the growth loop has doubled c exactly k times. */
  function Doubled(c: nat, k: nat): nat
  {
    if k == 0 then c else 2 * Doubled(c, k - 1)
  }

  /** The capacity the growth loop settles on: c doubled until it holds need. */
  function GrownCapacity(c: nat, need: int): (r: nat)
    requires 0 < c || need <= c
    ensures need <= r && c <= r
    ensures need <= c ==> r == c
    ensures c < r ==> r < 2 * need
    decreases need - c
  {
    if need <= c then c else GrownCapacity(2 * c, need)
  }

  /** With capacity 0 no number of doublings makes room: the growth loop never ends. */
  lemma {:induction false} ZeroCapacityNeverGrows(need: int, k: nat)
    requires 0 < need
    ensures Doubled(0, k) == 0 < need
  {
    if k > 0 {
      ZeroCapacityNeverGrows(need, k - 1);
    }
  }

  lemma {:induction false} DoubledTwice(c: nat, k: nat)
    ensures Doubled(2 * c, k) == Doubled(c, k + 1)
  {
    if k > 0 {
      DoubledTwice(c, k - 1);
    }
  }

  /**
   * From a positive capacity the loop stops at the first doubling that is
   * large enough.
   */
  lemma {:induction false} GrowthIsLeastDoubling(c: nat, need: int) returns (k: nat)
    requires 0 < c
    ensures GrownCapacity(c, need) == Doubled(c, k)
    ensures forall j: nat :: j < k ==> Doubled(c, j) < need
    decreases need - c
  {
    if need <= c {
      k := 0;
    } else {
      var k' := GrowthIsLeastDoubling(2 * c, need);
      DoubledTwice(c, k');
      k := k' + 1;
      forall j: nat | j < k
        ensures Doubled(c, j) < need
      {
        if j > 0 {
          DoubledTwice(c, j - 1);
        }
      }
    }
  }

  /**
   * The growth loop with the step max(1, 2 * capacity): it settles from every
   * capacity, 0 included.
   */
  function RepairedCapacity(c: nat, need: int): (r: nat)
    ensures need <= r && c <= r
    ensures need <= c ==> r == c
    decreases need - c
  {
    if need <= c then c else RepairedCapacity(if c == 0 then 1 else 2 * c, need)
  }

  /** From a positive capacity the repaired loop grows exactly as the original. */
  lemma {:induction false} RepairedAgreesWhenPositive(c: nat, need: int)
    requires 0 < c
    ensures RepairedCapacity(c, need) == GrownCapacity(c, need)
    decreases need - c
  {
    if need > c {
      RepairedAgreesWhenPositive(2 * c, need);
    }
  }

  /** From capacity 0 the repaired loop first makes room for one element, then doubles. */
  lemma RepairedFromZero(need: int)
    requires 0 < need
    ensures RepairedCapacity(0, need) == GrownCapacity(1, need)
  {
    RepairedAgreesWhenPositive(1, need);
  }

  /** The non-null elements of a collection, in order. */
  function NonNull(c: seq<Option<int>>): (r: seq<int>)
    ensures |r| <= |c|
  {
    if c == [] then []
    else NonNull(c[..|c| - 1]) + (if c[|c| - 1].Some? then [c[|c| - 1].value] else [])
  }

  /** s with x inserted at index: what List.add(index, x) promises. */
  function Inserted(s: seq<int>, index: nat, x: int): seq<int>
    requires index <= |s|
  {
    s[..index] + [x] + s[index..]
  }

  /** What add(index, x) leaves visible: the insertion cut back to the old size. */
  function InsertedAsWritten(s: seq<int>, index: nat, x: int): seq<int>
    requires index <= |s|
  {
    Inserted(s, index, x)[..|s|]
  }

  /** Insertion grows the list by one, puts x at index, and removing it there gives s back. */
  lemma InsertedRoundTrip(s: seq<int>, index: nat, x: int)
    requires index <= |s|
    ensures |Inserted(s, index, x)| == |s| + 1
    ensures Inserted(s, index, x)[index] == x
    ensures Inserted(s, index, x)[..index] + Inserted(s, index, x)[index + 1..] == s
  {
    var t := Inserted(s, index, x);
    assert t[..index] == s[..index];
    assert t[index + 1..] == s[index..];
  }

  /** The size does not grow, so the old last element is no longer in the list. */
  lemma InsertedAsWrittenKeepsSize(s: seq<int>, index: nat, x: int)
    requires index < |s|
    ensures |InsertedAsWritten(s, index, x)| == |s| != |Inserted(s, index, x)|
    ensures InsertedAsWritten(s, index, x)[index] == x
    ensures InsertedAsWritten(s, index, x) == s[..index] + [x] + s[index..|s| - 1]
  {
    assert Inserted(s, index, x)[..|s|] == s[..index] + [x] + s[index..|s| - 1];
  }

  /** List [1, 2]: add(0, 7) leaves [7, 1] where List.add promises [7, 1, 2]. */
  lemma InsertAsWrittenDropsLast()
    ensures InsertedAsWritten([1, 2], 0, 7) == [7, 1]
    ensures Inserted([1, 2], 0, 7) == [7, 1, 2]
  {
    assert [1, 2][..0] + [7] + [1, 2][0..] == [7, 1, 2];
  }

  /** Arrays.copyOf: a fresh array of the new length, padded with zeros. */
  method CopyOf(a: array<int>, newLength: nat) returns (b: array<int>)
    ensures fresh(b) && b.Length == newLength
    ensures forall k :: 0 <= k < newLength && k < a.Length ==> b[k] == a[k]
    ensures forall k :: a.Length <= k < newLength ==> b[k] == 0
  {
    b := new int[newLength];
    var k := 0;
    while k < newLength
      invariant 0 <= k <= newLength
      invariant forall j :: 0 <= j < k && j < a.Length ==> b[j] == a[j]
      invariant forall j :: a.Length <= j < k ==> b[j] == 0
    {
      b[k] := if k < a.Length then a[k] else 0;
      k := k + 1;
    }
  }

  /** System.arraycopy(a, from, a, from + 1, to - from): a[from..to) moves one slot right. */
  method ShiftRight(a: array<int>, from: nat, to: nat)
    requires from <= to < a.Length
    modifies a
    ensures forall j :: 0 <= j <= from ==> a[j] == old(a[j])
    ensures forall j :: from < j <= to ==> a[j] == old(a[j - 1])
    ensures forall j :: to < j < a.Length ==> a[j] == old(a[j])
  {
    var k := to;
    while k > from
      invariant from <= k <= to
      invariant forall j :: 0 <= j <= k ==> a[j] == old(a[j])
      invariant forall j :: k < j <= to ==> a[j] == old(a[j - 1])
      invariant forall j :: to < j < a.Length ==> a[j] == old(a[j])
    {
      a[k] := a[k - 1];
      k := k - 1;
    }
  }

  /**
   * A backing array whose slots [0, index) are unchanged, whose slot index
   * holds x and whose slots (index, end] hold the previous slot's old value
   * spells the insertion of x at index into the first end old slots.
   */
  lemma ShiftedLayout(before: seq<int>, after: seq<int>, end: nat, index: nat, x: int)
    requires index < end < |before| == |after|
    requires forall j :: 0 <= j < index ==> after[j] == before[j]
    requires after[index] == x
    requires forall j :: index < j <= end ==> after[j] == before[j - 1]
    ensures after[..end + 1] == Inserted(before[..end], index, x)
    ensures after[..end] == InsertedAsWritten(before[..end], index, x)
  {
    var t := Inserted(before[..end], index, x);
    forall j | 0 <= j < end + 1
      ensures after[j] == t[j]
    {
    }
    assert after[..end] == after[..end + 1][..end];
  }

  class IntList {
    var data: array<int>
    var end: nat

    ghost predicate Valid()
      reads this
    {
      end <= data.Length
    }

    /** The list: the first `end` slots of the backing array. */
    ghost function Contents(): seq<int>
      reads this, data
      requires Valid()
    {
      data[..end]
    }

    constructor ()
      ensures Valid() && fresh(data)
      ensures data.Length == DefaultCapacity && Contents() == []
    {
      data := new int[DefaultCapacity](_ => 0);
      end := 0;
    }

    constructor WithCapacity(capacity: nat)
      ensures Valid() && fresh(data)
      ensures data.Length == capacity && Contents() == []
    {
      data := new int[capacity](_ => 0);
      end := 0;
    }

    /** `this(c.size()); addAll(c)`: addAll calls add(Integer) per element, which skips nulls. */
    constructor FromCollection(c: seq<Option<int>>)
      ensures Valid() && fresh(data)
      ensures data.Length == |c| && Contents() == NonNull(c)
    {
      data := new int[|c|](_ => 0);
      end := 0;
      new;
      var i := 0;
      while i < |c|
        invariant 0 <= i <= |c|
        invariant Valid() && fresh(data) && data.Length == |c|
        invariant Contents() == NonNull(c[..i])
      {
        assert c[..i + 1][..i] == c[..i];
        var _ := AddBoxed(c[i]);
        i := i + 1;
      }
      assert c[..|c|] == c;
    }

    method Size() returns (n: int)
      requires Valid()
      ensures n == |Contents()|
    {
      n := end;
    }

    /** boundsCheck: false where the source throws IndexOutOfBoundsException. */
    method BoundsCheck(index: int) returns (ok: bool)
      requires Valid()
      ensures ok <==> index < |Contents()|
    {
      ok := index < end;
    }

    method GetI(index: int) returns (res: Result<int, Failure>)
      requires Valid()
      ensures index >= |Contents()| ==> res == Err(IndexOutOfBounds)
      ensures index < 0 ==> res == Err(ArrayIndexOutOfBounds)
      ensures res.Ok? <==> 0 <= index < |Contents()|
      ensures res.Ok? ==> res.value == Contents()[index]
    {
      var ok := BoundsCheck(index);
      if !ok {
        res := Err(IndexOutOfBounds);
      } else if index < 0 {
        res := Err(ArrayIndexOutOfBounds);
      } else {
        res := Ok(data[index]);
      }
    }

    /** set(index, element): writes one slot and returns what was there. */
    method Set(index: int, element: int) returns (res: Result<int, Failure>)
      requires Valid()
      modifies data
      ensures Valid()
      ensures index >= end ==> res == Err(IndexOutOfBounds) && data[..] == old(data[..])
      ensures index < 0 ==> res == Err(ArrayIndexOutOfBounds) && data[..] == old(data[..])
      ensures 0 <= index < end ==>
                && res == Ok(old(data[index]))
                && data[..] == old(data[..])[index := element]
                && Contents() == old(Contents())[index := element]
    {
      var ok := BoundsCheck(index);
      if !ok {
        res := Err(IndexOutOfBounds);
      } else if index < 0 {
        res := Err(ArrayIndexOutOfBounds);
      } else {
        var prev := data[index];
        data[index] := element;
        res := Ok(prev);
      }
    }

    /**
     * enlargeIfNeeded(i): doubles the capacity until end + i fits.  With
     * capacity 0 and end + i > 0 the source loops forever (ZeroCapacityNeverGrows),
     * so that case is excluded.
     */
    method EnlargeIfNeeded(i: int)
      requires Valid()
      requires 0 < data.Length || end + i <= data.Length
      modifies this
      ensures Valid() && end == old(end)
      ensures end + i <= data.Length && old(data.Length) <= data.Length
      ensures data.Length == GrownCapacity(old(data.Length), end + i)
      ensures data[..old(data.Length)] == old(data[..])
      ensures forall k :: old(data.Length) <= k < data.Length ==> data[k] == 0
      ensures data == old(data) || fresh(data)
      ensures end + i <= old(data.Length) ==> data == old(data)
    {
      while end + i > data.Length
        invariant Valid() && end == old(end)
        invariant old(data.Length) <= data.Length
        invariant 0 < data.Length || end + i <= data.Length
        invariant GrownCapacity(data.Length, end + i) == GrownCapacity(old(data.Length), end + i)
        invariant data[..old(data.Length)] == old(data[..])
        invariant forall k :: old(data.Length) <= k < data.Length ==> data[k] == 0
        invariant data == old(data) || fresh(data)
        invariant end + i <= old(data.Length) ==> data == old(data)
        decreases end + i - data.Length
      {
        data := CopyOf(data, data.Length * 2);
      }
    }

    /** enlargeIfNeeded with the growth step max(1, 2 * capacity): it ends from every capacity. */
    method EnlargeIfNeededRepaired(i: int)
      requires Valid()
      modifies this
      ensures Valid() && end == old(end)
      ensures end + i <= data.Length && old(data.Length) <= data.Length
      ensures data.Length == RepairedCapacity(old(data.Length), end + i)
      ensures data[..old(data.Length)] == old(data[..])
      ensures forall k :: old(data.Length) <= k < data.Length ==> data[k] == 0
      ensures data == old(data) || fresh(data)
      ensures end + i <= old(data.Length) ==> data == old(data)
    {
      while end + i > data.Length
        invariant Valid() && end == old(end)
        invariant old(data.Length) <= data.Length
        invariant RepairedCapacity(data.Length, end + i) == RepairedCapacity(old(data.Length), end + i)
        invariant data[..old(data.Length)] == old(data[..])
        invariant forall k :: old(data.Length) <= k < data.Length ==> data[k] == 0
        invariant data == old(data) || fresh(data)
        invariant end + i <= old(data.Length) ==> data == old(data)
        decreases end + i - data.Length
      {
        data := CopyOf(data, if data.Length == 0 then 1 else data.Length * 2);
      }
    }

    /** add(int): appends e and returns true. */
    method Add(e: int) returns (added: bool)
      requires Valid()
      requires 0 < data.Length
      modifies this, data
      ensures Valid() && added
      ensures Contents() == old(Contents()) + [e]
      ensures data.Length == GrownCapacity(old(data.Length), old(end) + 1)
      ensures data == old(data) || fresh(data)
    {
      EnlargeIfNeeded(1);
      data[end] := e;
      end := end + 1;
      added := true;
    }

    /** add(Integer): null is refused with false and the list is left alone. */
    method AddBoxed(e: Option<int>) returns (added: bool)
      requires Valid()
      requires e.None? || 0 < data.Length
      modifies this, data
      ensures Valid()
      ensures added <==> e.Some?
      ensures e.None? ==> data == old(data) && end == old(end) && data[..] == old(data[..])
      ensures e.Some? ==>
                && Contents() == old(Contents()) + [e.value]
                && data.Length == GrownCapacity(old(data.Length), old(end) + 1)
      ensures data == old(data) || fresh(data)
    {
      if e.None? {
        added := false;
      } else {
        added := Add(e.value);
      }
    }

    /**
     * add(index, element) as written: shifts [index, end) one slot right and
     * writes element at index, but never increments end, so the size stays
     * the same and the old last element drops out of the list.
     */
    method Insert(index: int, element: int) returns (res: Result<(), Failure>)
      requires Valid()
      requires index >= end || 0 < data.Length
      modifies this, data
      ensures Valid() && end == old(end)
      ensures index >= old(end) ==> res == Err(IndexOutOfBounds) && data == old(data) && data[..] == old(data[..])
      ensures index < 0 ==> res == Err(ArrayIndexOutOfBounds) && Contents() == old(Contents())
      ensures 0 <= index < old(end) ==>
                && res == Ok(())
                && Contents() == InsertedAsWritten(old(Contents()), index, element)
                && end < data.Length
                && data[..end + 1] == Inserted(old(Contents()), index, element)
      ensures index < old(end) ==> data.Length == GrownCapacity(old(data.Length), old(end) + 1)
      ensures data == old(data) || fresh(data)
    {
      var ok := BoundsCheck(index);
      if !ok {
        return Err(IndexOutOfBounds);
      }
      EnlargeIfNeeded(1);
      if index < 0 {
        return Err(ArrayIndexOutOfBounds);
      }
      ghost var before := data[..];
      assert before[..end] == old(Contents());
      ShiftRight(data, index, end);
      data[index] := element;
      res := Ok(());
      ShiftedLayout(before, data[..], end, index, element);
    }

    /** add(index, element) with the missing `end++`: a real insertion. */
    method InsertCorrected(index: int, element: int) returns (res: Result<(), Failure>)
      requires Valid()
      requires index >= end || 0 < data.Length
      modifies this, data
      ensures Valid()
      ensures index >= old(end) ==> res == Err(IndexOutOfBounds) && data == old(data) && data[..] == old(data[..]) && end == old(end)
      ensures index < 0 ==> res == Err(ArrayIndexOutOfBounds) && Contents() == old(Contents())
      ensures 0 <= index < old(end) ==>
                res == Ok(()) && Contents() == Inserted(old(Contents()), index, element)
      ensures index < old(end) ==> data.Length == GrownCapacity(old(data.Length), old(end) + 1)
      ensures data == old(data) || fresh(data)
    {
      res := Insert(index, element);
      if res.Ok? {
        end := end + 1;
      }
    }
  }
}
