/**
 * `ObservableHeadCollection<T>`: a view of the first `Count` items of a list
 * that grows on request and announces what it added. The `view` field is a
 * `SubsetCollection` starting at 0, replaced by each `ViewMoreItems`.
 */
module ObservableHeadCollections {
  import opened Exceptions
  import opened SubsetCollections

  /** The events the collection raises, in the order it raises them. */
  datatype Notification<T> =
    | PropertyChanged(propertyName: string)
    | ItemAdded(item: T, index: int)

  /** The `Add` notifications for the items at positions `lo` up to `hi` (excluded). */
  function Additions<T>(collection: seq<T>, lo: int, hi: int): (r: seq<Notification<T>>)
    requires 0 <= lo && hi <= |collection|
    ensures |r| == if lo <= hi then hi - lo else 0
    ensures forall k :: 0 <= k < |r| ==> r[k] == ItemAdded(collection[lo + k], lo + k)
    decreases hi - lo
  {
    if lo >= hi then [] else Additions(collection, lo, hi - 1) + [ItemAdded(collection[hi - 1], hi - 1)]
  }

  class ObservableHeadCollection<T(==)> {
    const collection: seq<T>
    var view: SubsetCollection<T>

    ghost predicate Valid()
      reads this
    {
      view.Valid() && view.collection == collection && view.startIndex == 0
    }

    /** The items currently visible: a prefix of the list. */
    ghost function Items(): seq<T>
      reads this
      requires Valid()
    {
      view.Items()
    }

    /** Builds the view `new SubsetCollection(collection, 0, count)`. */
    constructor (collection: seq<T>, view: SubsetCollection<T>)
      requires view.Valid() && view.collection == collection && view.startIndex == 0
      ensures Valid() && this.collection == collection && this.view == view
    {
      this.collection := collection;
      this.view := view;
    }

    /**
     * The public constructor: the first `count` items, with the argument checks
     * of `SubsetCollection` for a window starting at 0.
     */
    static method Create(collection: seq<T>, count: Int32) returns (r: Result<ObservableHeadCollection<T>>)
      requires |collection| <= Int32Max
      ensures r.Ok? <==> 0 <= count <= |collection|
      ensures r.Throw? ==> New(collection, 0, count) == Throw(r.exception)
      ensures r.Ok? ==> fresh(r.value) && r.value.Valid() && r.value.collection == collection
      ensures r.Ok? ==> r.value.Count() == count && r.value.Items() == collection[..count]
    {
      var v := New(collection, 0, count);
      if v.Throw? {
        return Throw(v.exception);
      }
      var c := new ObservableHeadCollection(collection, v.value);
      return Ok(c);
    }

    /** `Count`: the length of the visible prefix, never more than the list holds. */
    function Count(): (c: int)
      reads this
      ensures Valid() ==> c == |Items()| && 0 <= c <= |collection|
    {
      view.Count()
    }

    /** The indexer delegates to the view; inside the prefix it yields the list's item. */
    function Item(index: Int32): (r: Result<T>)
      reads this
      requires Valid()
      ensures 0 <= index < Count() ==> r == Ok(collection[index])
      ensures r.Ok? <==> 0 <= index < |collection|
      ensures r.Ok? ==> r.value == collection[index]
      ensures r.Throw? ==> r.exception == ArgumentOutOfRangeException("index")
    {
      view.Item(index)
    }

    /** `IsReadOnly`, `IList.IsFixedSize` and `ICollection.IsSynchronized`: read-only, yet growable. */
    function Flags(): (f: CollectionFlags)
      ensures f.isReadOnly && !f.isFixedSize && !f.isSynchronized
    {
      CollectionFlags(true, false, false)
    }

    /** Every mutator, and the indexer's setter, throws `NotSupportedException`; nothing changes. */
    method Mutate(m: Mutation) returns (r: Outcome)
      ensures r == Fail(NotSupportedException)
    {
      return Fail(NotSupportedException);
    }

    method IndexOf(item: T) returns (r: int)
      requires Valid()
      ensures -1 <= r < Count()
      ensures r >= 0 ==> collection[r] == item && item !in collection[..r]
      ensures r == -1 <==> item !in collection[..Count()]
    {
      r := view.IndexOf(item);
      assert r >= 0 ==> collection[..r] == Items()[..r];
    }

    method Contains(item: T) returns (r: bool)
      requires Valid()
      ensures r <==> item in collection[..Count()]
    {
      r := view.Contains(item);
    }

    /**
     * `ViewMoreItems`: shows up to `maxCount` more items (never past the end
     * of the list), then raises `Count` and `Item[]` changes and one `Add` per
     * newly shown item, in ascending order. A negative `maxCount` shrinks the
     * view; one that would make the count negative throws, and nothing changes.
     */
    method ViewMoreItems(maxCount: Int32) returns (r: Outcome, events: seq<Notification<T>>)
      requires Valid()
      modifies this
      ensures Valid()
      ensures var n := old(Count()) + Min(maxCount, |collection| - old(Count()));
        n < 0 ==> r == Fail(ArgumentOutOfRangeException("count")) && view == old(view) && events == []
      ensures var n := old(Count()) + Min(maxCount, |collection| - old(Count()));
        n >= 0 ==> r == Done && Count() == n
      ensures var n := old(Count()) + Min(maxCount, |collection| - old(Count()));
        n >= 0 ==> events == [PropertyChanged("Count"), PropertyChanged("Item[]")] + Additions(collection, old(Count()), n)
      ensures maxCount >= 0 ==> r == Done && old(Count()) <= Count() <= |collection|
    {
      var currentCount := Count();
      var addCount := Min(maxCount, |collection| - currentCount);
      var v := New(collection, 0, currentCount + addCount);
      if v.Throw? {
        return Fail(v.exception), [];
      }
      view := v.value;
      events := [PropertyChanged("Count"), PropertyChanged("Item[]")];
      var i := currentCount;
      while i < view.Count()
        invariant Valid() && view.Count() == currentCount + addCount
        invariant i == currentCount || currentCount < i <= view.Count()
        invariant events == [PropertyChanged("Count"), PropertyChanged("Item[]")] + Additions(collection, currentCount, i)
      {
        events := events + [ItemAdded(view.Item(i).value, i)];
        i := i + 1;
      }
      return Done, events;
    }

    /** `ViewAllItems`: shows the whole list; a second call adds nothing. */
    method ViewAllItems() returns (r: Outcome, events: seq<Notification<T>>)
      requires Valid()
      modifies this
      ensures Valid() && r == Done
      ensures Count() == |collection| && Items() == collection
      ensures events == [PropertyChanged("Count"), PropertyChanged("Item[]")] + Additions(collection, old(Count()), |collection|)
      ensures old(Count()) == |collection| ==> view == old(view)
    {
      r, events := ViewMoreItems(|collection| - Count());
    }
  }
}
