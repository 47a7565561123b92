/**
 * `SubsetCollection<T>`: a read-only window of `count` items of a list,
 * starting at `startIndex`. Its fields are all readonly, so it is a value.
 */
module SubsetCollections {
  import opened Exceptions

  /** The mutators of `IList<T>`, `IList` and `ICollection<T>`, all refused. */
  datatype Mutation = Add | Insert | Remove | RemoveAt | Clear | SetItem

  /** The boolean properties a list reports about itself. */
  datatype CollectionFlags = CollectionFlags(isReadOnly: bool, isFixedSize: bool, isSynchronized: bool)

  datatype SubsetCollection<T(==)> = SubsetCollection(collection: seq<T>, startIndex: int, count: int)
  {
    /** What the constructor's checks establish. */
    ghost predicate Valid()
    {
      0 <= startIndex && 0 <= count && startIndex + count <= |collection| <= Int32Max
    }

    /** The items the window exposes, in order. */
    ghost function Items(): seq<T>
      requires Valid()
    {
      collection[startIndex..startIndex + count]
    }

    /** `Count`: the number of items in the window, all of them inside the list. */
    function Count(): (c: int)
      ensures Valid() ==> c == |Items()| && 0 <= c <= |collection| - startIndex
    {
      count
    }

    /**
     * The indexer: reads the underlying list at `startIndex + index`. Only the
     * list's own bounds are checked, so an index past `Count` but inside the
     * list still yields an item.
     */
    function Item(index: Int32): (r: Result<T>)
      requires Valid()
      ensures 0 <= index < Count() ==> r == Ok(Items()[index])
      ensures r.Ok? <==> 0 <= startIndex + index < |collection|
      ensures r.Ok? ==> r.value == collection[startIndex + index]
      ensures r.Throw? ==> r.exception == ArgumentOutOfRangeException("index")
    {
      // startIndex + index can exceed Int32Max; the wrapped sum is then
      // negative, and the list refuses it exactly as it refuses the true sum.
      var k := startIndex + index;
      if 0 <= k < |collection| then Ok(collection[k]) else Throw(ArgumentOutOfRangeException("index"))
    }

    /** `IsReadOnly`, `IList.IsFixedSize` and `ICollection.IsSynchronized`. */
    function Flags(): (f: CollectionFlags)
      ensures f.isReadOnly && f.isFixedSize && !f.isSynchronized
    {
      CollectionFlags(true, true, false)
    }

    /** Every mutator, and the indexer's setter, throws `NotSupportedException`. */
    function Mutate(m: Mutation): (r: Outcome)
      ensures r == Fail(NotSupportedException)
    {
      Fail(NotSupportedException)
    }

    /** `IndexOf`: the position of the first item equal to `item`, or -1. */
    method IndexOf(item: T) returns (r: int)
      requires Valid()
      ensures -1 <= r < Count()
      ensures r >= 0 ==> Items()[r] == item && forall k :: 0 <= k < r ==> Items()[k] != item
      ensures r == -1 <==> item !in Items()
    {
      var i := 0;
      while i < count
        invariant 0 <= i <= count
        invariant forall k :: 0 <= k < i ==> Items()[k] != item
      {
        if collection[startIndex + i] == item {
          return i;
        }
        i := i + 1;
      }
      return -1;
    }

    /** `Contains`: `IndexOf` found the item. */
    method Contains(item: T) returns (r: bool)
      requires Valid()
      ensures r <==> item in Items()
    {
      var k := IndexOf(item);
      r := k >= 0;
    }

    /**
     * `GetEnumerator`, as written: `Take` over the range `startIndex..(startIndex + Count - 1)`,
     * whose end is exclusive, so the last item of the window is never yielded.
     */
    function Enumerate(): (r: seq<T>)
      requires Valid()
      ensures Count() == 0 ==> r == []
      ensures Count() > 0 ==> |r| == Count() - 1 && r == Items()[..Count() - 1]
    {
      if count == 0 then [] else collection[startIndex..startIndex + count - 1]
    }

    /** `GetEnumerator` as evidently intended: every item of the window, in order. */
    function EnumerateCorrected(): (r: seq<T>)
      requires Valid()
      ensures |r| == Count()
      ensures forall k :: 0 <= k < |r| ==> r[k] == Item(k).value
    {
      collection[startIndex..startIndex + count]
    }

    /**
     * The generic `CopyTo`, as written: every iteration writes to `target[arrayIndex]`,
     * so that one slot ends up holding the last item and no other slot changes.
     */
    method CopyTo(target: array?<T>, arrayIndex: Int32) returns (r: Outcome)
      requires Valid()
      modifies target
      ensures Count() == 0 ==> r == Done && (target != null ==> target[..] == old(target[..]))
      ensures Count() > 0 && target == null ==> r == Fail(NullReferenceException)
      ensures Count() > 0 && target != null && !(0 <= arrayIndex < target.Length) ==>
        r == Fail(IndexOutOfRangeException) && target[..] == old(target[..])
      ensures Count() > 0 && target != null && 0 <= arrayIndex < target.Length ==>
        r == Done && target[..] == OneSlot(old(target[..]), arrayIndex, Items())
    {
      var i := 0;
      while i < count
        invariant 0 <= i <= count
        invariant target == null ==> i == 0
        invariant target != null && i > 0 ==> 0 <= arrayIndex < target.Length
        invariant target != null ==> target[..] == OneSlot(old(target[..]), arrayIndex, Items()[..i])
      {
        if target == null {
          return Fail(NullReferenceException);
        }
        if !(0 <= arrayIndex < target.Length) {
          return Fail(IndexOutOfRangeException);
        }
        target[arrayIndex] := collection[startIndex + i];
        assert Items()[..i + 1][i] == collection[startIndex + i];
        i := i + 1;
      }
      assert Items()[..count] == Items();
      return Done;
    }

    /**
     * The non-generic `CopyTo` on an array that is not a `T[]`: item `i` goes to
     * `index + i` through `SetValue`, which throws at the first index outside
     * the array after the earlier items have been written.
     */
    method CopyToArray(target: array?<T>, index: Int32) returns (r: Outcome)
      requires Valid()
      modifies target
      ensures target == null ==> r == (if Count() == 0 then Done else Fail(NullReferenceException))
      ensures target != null ==>
        var n := Fitting(index, Count(), target.Length);
        && target[..] == Placed(old(target[..]), index, Items()[..n])
        && (r == Done <==> n == Count())
        && (r != Done ==> r == Fail(IndexOutOfRangeException))
    {
      var i := 0;
      while i < count
        invariant 0 <= i <= count
        invariant target == null ==> i == 0
        invariant target != null ==> i <= Fitting(index, count, target.Length)
        invariant target != null ==> target[..] == Placed(old(target[..]), index, Items()[..i])
      {
        if target == null {
          return Fail(NullReferenceException);
        }
        // index + i may exceed Int32Max; it then wraps to a negative index,
        // which `SetValue` refuses just as it refuses the true sum.
        var k := index + i;
        if !(0 <= k < target.Length) {
          return Fail(IndexOutOfRangeException);
        }
        target[k] := collection[startIndex + i];
        i := i + 1;
      }
      return Done;
    }
  }

  /**
   * The constructor, with its two checks done in exact arithmetic: the
   * window must start inside the list (or be empty) and end inside it.
   */
  function New<T(==)>(collection: seq<T>, startIndex: Int32, count: Int32): (r: Result<SubsetCollection<T>>)
    requires |collection| <= Int32Max
    ensures r.Ok? <==> 0 <= startIndex && 0 <= count && startIndex + count <= |collection|
    ensures r.Ok? ==> r.value.Valid() && r.value.Count() == count
    ensures r.Ok? ==> r.value.Items() == collection[startIndex..startIndex + count]
    ensures r.Throw? ==> r.exception.ArgumentOutOfRangeException?
    ensures r.Throw? ==>
      (r.exception.paramName == "startIndex" <==> startIndex < 0 || (startIndex >= |collection| && count > 0))
    ensures r.Throw? && !(startIndex < 0 || (startIndex >= |collection| && count > 0)) ==>
      r.exception == ArgumentOutOfRangeException("count")
  {
    if startIndex < 0 || (startIndex >= |collection| && count > 0) then
      Throw(ArgumentOutOfRangeException("startIndex"))
    else if count < 0 || startIndex + count > |collection| then
      Throw(ArgumentOutOfRangeException("count"))
    else
      Ok(SubsetCollection(collection, startIndex, count))
  }

  /** The constructor as written: `startIndex + count` is an unchecked 32-bit sum. */
  function NewAsWritten<T(==)>(collection: seq<T>, startIndex: Int32, count: Int32): (r: Result<SubsetCollection<T>>)
    requires |collection| <= Int32Max
    ensures r.Ok? <==>
      New(collection, startIndex, count).Ok? ||
      (0 <= startIndex < |collection| && 0 < count && startIndex + count > Int32Max)
    ensures r.Ok? ==> r.value == SubsetCollection(collection, startIndex, count)
    ensures r.Throw? ==> r == New(collection, startIndex, count)
  {
    if startIndex < 0 || (startIndex >= |collection| && count > 0) then
      Throw(ArgumentOutOfRangeException("startIndex"))
    else if count < 0 || Wrap32(startIndex + count) > |collection| then
      Throw(ArgumentOutOfRangeException("count"))
    else
      Ok(SubsetCollection(collection, startIndex, count))
  }

  /** Without overflow the written checks are the intended ones. */
  lemma NewAsWrittenAgrees<T>(collection: seq<T>, startIndex: Int32, count: Int32)
    requires |collection| <= Int32Max && startIndex + count <= Int32Max
    ensures NewAsWritten(collection, startIndex, count) == New(collection, startIndex, count)
  {
  }

  /** With overflow they are not: a two-item list accepts a window of `Int32Max` items. */
  lemma NewAsWrittenOverflow()
    ensures NewAsWritten("ab", 1, Int32Max).Ok?
    ensures !NewAsWritten("ab", 1, Int32Max).value.Valid()
    ensures New("ab", 1, Int32Max) == Throw(ArgumentOutOfRangeException("count"))
  {
    assert Wrap32(1 + Int32Max) == Int32Min;
  }

  /** The written enumeration misses exactly the last item of a non-empty window. */
  lemma EnumerateDropsLast<T>(c: SubsetCollection<T>)
    requires c.Valid() && c.Count() > 0
    ensures c.Enumerate() + [c.Items()[c.Count() - 1]] == c.EnumerateCorrected()
    ensures c.Enumerate() != c.EnumerateCorrected()
  {
    assert |c.Enumerate()| != |c.EnumerateCorrected()|;
    assert c.Items() == c.EnumerateCorrected();
  }

  /** `arr` after each of `items`, in turn, has been written to the single slot `at`. */
  function OneSlot<T>(arr: seq<T>, at: int, items: seq<T>): (r: seq<T>)
    requires items != [] ==> 0 <= at < |arr|
    ensures |r| == |arr|
    ensures forall k :: 0 <= k < |arr| && k != at ==> r[k] == arr[k]
    ensures items != [] ==> r[at] == items[|items| - 1]
  {
    if items == [] then arr else OneSlot(arr, at, items[..|items| - 1])[at := items[|items| - 1]]
  }

  /** `arr` with `items` laid over it from position `at` on; what lies outside the array is dropped. */
  function Placed<T>(arr: seq<T>, at: int, items: seq<T>): (r: seq<T>)
    ensures |r| == |arr|
    ensures forall k :: 0 <= k < |arr| ==> r[k] == if at <= k < at + |items| then items[k - at] else arr[k]
  {
    seq(|arr|, k requires 0 <= k < |arr| => if at <= k < at + |items| then items[k - at] else arr[k])
  }

  /** How many items fit in an array of `length` slots from `index` on, up to `count`. */
  function Fitting(index: int, count: int, length: int): (n: int)
    requires 0 <= count
    ensures 0 <= n <= count
    ensures n == count <==> count == 0 || (0 <= index && index + count <= length)
  {
    if index < 0 || index >= length then 0
    else if index + count <= length then count
    else length - index
  }

  /** A two-item window copied as written leaves its first item nowhere in the array. */
  lemma CopyToLosesItems()
    ensures OneSlot("..", 0, "ab") == "b."
    ensures Placed("..", 0, "ab") == "ab"
  {
    assert OneSlot("..", 0, "ab"[..1]) == "a.";
  }
}
