# localblast: interval algebra, collection views and BLAST result folds

This project models the computational core of localblast, a desktop front end
for local BLAST searches, and proves properties of that model.

- `SeqSpan` is a closed integer interval. `Location` keeps a set of points as a
  linked list of spans. The list ascends, and no two segments overlap or touch.
  `UnionWith` and the two `IntersectWith` operations keep it in that canonical
  form. The `Overlaps` and `IsSupersetOf` queries use the order to stop early.
- `SubsetCollection<T>` is a read-only window over a list.
  `ObservableHeadCollection<T>` is a growing prefix of a list that announces
  every item it adds.
- `BlastResult.cs` holds two constructors:
  - The `SegmentPair` constructor builds the scale strings printed above an
    alignment, and the class has small view properties.
  - The `Hit` constructor unions its HSPs' coordinates into two `Location`s,
    reads the query range from them, and tracks the best bit score and the
    least e-value.

Every predicate on spans has its meaning stated over `Points(s)`, the set of
integers the span covers. A `Location`'s meaning is `CoveredPoints()`, the
union of its segments' points.

Files:
- `exceptions.dfy`: the .NET exceptions, `Result` and `Outcome`, and 32-bit
  `int` with `Wrap32`.
- `span.dfy`: `SeqSpan`.
- `span_lists.dfy`: sorted span lists and what they cover.
- `location.dfy`: the `Location` class and its node walks.
- `subset_collection.dfy`: `SubsetCollection<T>`.
- `observable_head_collection.dfy`: `ObservableHeadCollection<T>`.
- `blast_result.dfy`: `SegmentPair` and `Hit`.

Modelling choices:
- The linked list is the sequence `segments`, and a node is a position in it.
  Assigning `node.Value`, `AddBefore`, `Remove` and `AddLast` become the
  matching sequence edits.
- The node walks are methods with loops over that sequence. Each is proved
  against a recursive definition: `ClipAll` for `IntersectWith(SeqSpan)`,
  `Pairwise` for `IntersectWith(Location)`, and `Inserted`/`MergeForward` for
  `UnionWith`.
- Values read from the XML report are parameters. The fields of one `Hsp` element form an `HspRecord`.
- A C# `int` is `Int32`, with wrap-around written out where the source relies
  on unchecked arithmetic.
- A finite `double` is `Double`, taken as its exact real value.

## Model

| member | source | states |
|---|---|---|
| Spans.Span | localblast/Location.cs:9-13 | The span has the two given endpoints, put in order. Its type guarantees `from <= to`. |
| Spans.Length | localblast/Location.cs:19 | `To - From + 1` is at least 1 and equals the number of points the span covers. |
| Spans.Equals | localblast/Location.cs:21 | Two spans are equal exactly when they cover the same points. |
| Spans.Contains | localblast/Location.cs:25 | The endpoint test holds exactly when the point is covered. |
| Spans.Overlaps | localblast/Location.cs:27 | The endpoint test holds exactly when the two spans share a point. |
| Spans.IsNeighbor | localblast/Location.cs:29 | The spans touch exactly when they share no point and together fill their union without a gap. |
| Spans.AdjacentIff | localblast/Location.cs:29 | Both directions of the equivalence between `To + 1 == other.From \|\| other.To + 1 == From` and "disjoint, with a gap-free union". |
| Spans.IsSupersetOf | localblast/Location.cs:31 | True exactly when every point of the argument is a point of the receiver. |
| Spans.IsSubsetOf | localblast/Location.cs:33 | It is `IsSupersetOf` with the arguments swapped, and it means inclusion of the point sets. |
| Spans.Union | localblast/Location.cs:35-38 | The result covers both arguments, and both of its endpoints are points of an argument, so no smaller span covers both. |
| Spans.Intersect | localblast/Location.cs:40-46 | Throws `ArgumentException` exactly when the spans share no point. Otherwise the result covers exactly the shared points. |
| Spans.IntersectSymmetric | localblast/Location.cs:40-46 | The order of the arguments does not change the result or the exception. |
| Spans.CompareTo | localblast/Location.cs:48-52 | The result is -1, 0 or 1. It is 0 exactly when `Equals` holds. It is negative exactly when the start is smaller, or the starts are equal and the end is larger. |
| Spans.CompareToAntisymmetric | localblast/Location.cs:48-52 | Swapping the arguments negates the comparison. |
| Spans.CompareToTransitive | localblast/Location.cs:48-52 | "Sorts before" is transitive. |
| Spans.CompareToSameStart | localblast/Location.cs:48-52 | For equal starts, sorting first (or equal) is the same as being the superset. |
| Spans.CanMergeIff | localblast/Location.cs:279 | Two spans overlap or touch exactly when their union adds no point that neither covers. |
| Locations.Location.CanUnion | localblast/Location.cs:279 | True exactly when replacing the two spans by their union loses nothing and adds nothing. |
| Locations.TouchesIff | localblast/Location.cs:279 | `CanUnion` is the endpoint test `a.from <= b.to + 1 && b.from <= a.to + 1`. |
| Locations.Location.constructor | localblast/Location.cs:74-78 | A new location is empty and valid. |
| Locations.Location.Invalidate | localblast/Location.cs:267-275 | The neighbour-by-neighbour check returns true exactly when every segment ends more than one point before every later segment starts (`Valid`). |
| Locations.AdjacentSorted | localblast/Location.cs:267-275 | Checking neighbours is enough: the pairwise invariant follows. |
| SpanLists.Canonical | localblast/Location.cs:267-275 | Two valid lists that cover the same points are equal, so the canonical form is unique. |
| Locations.Location.NumberOfSegments | localblast/Location.cs:80 | The count is never negative, and it is 0 exactly when the location covers no point. |
| Locations.Location.TotalLength | localblast/Location.cs:84-97 | The sum of the segment lengths is the number of covered points. |
| SpanLists.SumIsCardinality | localblast/Location.cs:84-97 | On a sorted list, the sum of the lengths equals the cardinality of the covered set. |
| Locations.Location.From | localblast/Location.cs:99-108 | Throws `InvalidOperationException` exactly when nothing is covered. Otherwise it returns the least covered point. |
| Locations.Location.To | localblast/Location.cs:110-119 | Throws `InvalidOperationException` exactly when nothing is covered. Otherwise it returns the greatest covered point. |
| Locations.Location.OverlapsSpan | localblast/Location.cs:123-134 | True exactly when some segment overlaps the span, which holds exactly when the covered points meet the span's points. So the early `return false` at the first later segment loses nothing. |
| Locations.NothingAfter | localblast/Location.cs:130-131 | In a sorted list, no segment from the first one starting past the span onwards overlaps it. |
| SpanLists.OverlapsCovered | localblast/Location.cs:123-134 | Some span of a list overlaps `o` exactly when the covered points meet `o`'s points. |
| Locations.Location.OverlapsLocation | localblast/Location.cs:136-144 | True exactly when some segment of the argument meets this location, which holds exactly when the two covered sets meet. |
| SpanLists.CoveredMeets | localblast/Location.cs:136-144 | A list's covered points meet a set exactly when one of its spans does. |
| Locations.Location.IsSupersetOfSpan | localblast/Location.cs:146-157 | True exactly when one single segment contains the span. That holds exactly when the span's points are all covered. So giving up at the first overlapping segment that does not contain the span is sound. |
| SpanLists.SupersetCovered | localblast/Location.cs:146-157 | On a sorted list, one span contains `o` exactly when `o`'s points are all covered. |
| Locations.Location.IsSupersetOfLocation | localblast/Location.cs:159-167 | True exactly when every segment of the argument is covered, which holds exactly when the argument's covered set is a subset of this one's. |
| SpanLists.CoveredSubset | localblast/Location.cs:159-167 | A list's covered points lie in a set exactly when each of its spans does. |
| Locations.Location.IntersectWithSpan | localblast/Location.cs:169-185 | The location stays valid. It keeps, in order, the intersection of each segment that overlaps the span and drops the others. It then covers exactly the old points inside the span. |
| Locations.ClipSegments | localblast/Location.cs:169-185 | The walk that rewrites or removes each node leaves the in-order list of the non-empty intersections with the span. |
| SpanLists.ClipAllCovered | localblast/Location.cs:169-185 | Clipping covers exactly the old points that lie inside the span. |
| SpanLists.ClipAllSorted | localblast/Location.cs:169-185 | Clipping keeps a sorted list sorted. |
| Locations.Location.IntersectWithLocation | localblast/Location.cs:187-213 | A null argument throws `ArgumentNullException("location")` and changes nothing. Otherwise the segments become every pairwise intersection in order: empty if either side is empty. The location stays valid and covers exactly the intersection of the two covered sets. |
| Locations.IntersectSegments | localblast/Location.cs:202-212 | The nested loops produce, for each segment in order, its intersections with the argument's segments, in order. |
| SpanLists.PairwiseCovered | localblast/Location.cs:201-212 | The pairwise intersections cover exactly the intersection of the two covered sets. |
| SpanLists.PairwiseSorted | localblast/Location.cs:202-212 | The pairwise intersections of two sorted lists form a sorted list. |
| Locations.Location.UnionWith | localblast/Location.cs:215-252 | The location stays valid and covers exactly the old points plus the span's. When the span was already covered the segments are unchanged, so a second call with the same span changes nothing. |
| Locations.UnionSegments | localblast/Location.cs:215-252 | The node walk ends in the list `Inserted` defines. That list is sorted and covers the old points plus the span's. |
| Locations.InsertedSorted | localblast/Location.cs:215-252 | On a sorted list, the union step yields a sorted list that starts at the smaller of the two first starts. |
| Locations.InsertedCovered | localblast/Location.cs:215-252 | The union step adds exactly the span's points, whatever the list. |
| Locations.MergeForwardSorted | localblast/Location.cs:235-247 | Merging forward from a grown segment that starts no later than the rest keeps a sorted list sorted, and the list still starts where that segment does. |
| Locations.MergeForwardCovered | localblast/Location.cs:235-247 | Swallowing the following segments neither loses nor adds a point. |
| Locations.UnionIdempotent | localblast/Location.cs:215-252 | Adding points a canonical list already covers leaves it as it was. |
| Locations.UnionCommutes | localblast/Location.cs:215-252 | Adding two spans to a canonical list in either order gives the same list. |
| Locations.InsertedTwice | localblast/Location.cs:215-252 | Two union steps in a row keep a sorted list sorted and cover the old points plus both spans'. |
| SubsetCollections.New | localblast/SubsetCollection.cs:13-23 | Succeeds exactly when the window `[startIndex, startIndex + count)` lies in the list. The error names `startIndex` exactly under the first check's condition, and `count` otherwise. On success `Count == count` and the items are that slice. |
| SubsetCollections.NewAsWritten | localblast/SubsetCollection.cs:13-23 | The checks as written, with `startIndex + count` wrapping in 32 bits. They accept exactly what the intended checks accept, plus every window that starts inside the list with `count > 0` and `startIndex + count > Int32Max`. A success is the window with the given bounds. A failure is the same exception, with the same parameter name, as the intended checks throw. |
| SubsetCollections.NewAsWrittenAgrees | localblast/SubsetCollection.cs:18-19 | When `startIndex + count` does not overflow, the written checks decide exactly as the intended ones. |
| SubsetCollections.NewAsWrittenOverflow | localblast/SubsetCollection.cs:18-19 | A two-item list accepts a window of `Int32Max` items from index 1. The result is not a valid window, and the intended check throws for `count`. |
| SubsetCollections.SubsetCollection.Count | localblast/SubsetCollection.cs:28 | On a valid window, the count is the number of items in the window, and the window ends inside the list. |
| SubsetCollections.SubsetCollection.Item | localblast/SubsetCollection.cs:26 | Inside the window it yields the window's item. It succeeds exactly when `startIndex + index` lies in the underlying list, even past `Count`. Otherwise it throws `ArgumentOutOfRangeException("index")`. |
| SubsetCollections.SubsetCollection.Flags | localblast/SubsetCollection.cs:71-75 | The view is read-only and fixed-size, and not synchronized. |
| SubsetCollections.SubsetCollection.Mutate | localblast/SubsetCollection.cs:105-153 | Every `Add`, `Insert`, `Remove`, `RemoveAt`, `Clear` and indexer set throws `NotSupportedException`. |
| SubsetCollections.SubsetCollection.IndexOf | localblast/SubsetCollection.cs:45-55 | Returns the smallest position in the window holding the item, or -1 exactly when the window lacks it. |
| SubsetCollections.SubsetCollection.Contains | localblast/SubsetCollection.cs:43 | True exactly when the window holds the item. |
| SubsetCollections.SubsetCollection.Enumerate | localblast/SubsetCollection.cs:32-35 | An empty window enumerates nothing. Otherwise the enumeration is the window without its last item, `Count - 1` items. |
| SubsetCollections.SubsetCollection.EnumerateCorrected | localblast/SubsetCollection.cs:32-35 | Enumerates `Count` items, the k-th equal to the indexer's item k. |
| SubsetCollections.EnumerateDropsLast | localblast/SubsetCollection.cs:34 | For a non-empty window, the written enumeration plus the last item is the intended one, and the two differ. |
| SubsetCollections.SubsetCollection.CopyTo | localblast/SubsetCollection.cs:37-41 | An empty window changes nothing. A null array throws `NullReferenceException`, and an index outside the array throws `IndexOutOfRangeException`, changing nothing. Otherwise only slot `arrayIndex` changes, and it ends holding the window's last item. |
| SubsetCollections.CopyToLosesItems | localblast/SubsetCollection.cs:39-40 | Copying a two-item window as written leaves its first item nowhere in the array. Writing item `i` to slot `index + i` places both. |
| SubsetCollections.SubsetCollection.CopyToArray | localblast/SubsetCollection.cs:84-93 | Item `i` lands in slot `index + i` for as many items as fit. It succeeds exactly when all fit, and otherwise throws `IndexOutOfRangeException` after the earlier items were written. A null array throws `NullReferenceException` unless the window is empty. |
| ObservableHeadCollections.ObservableHeadCollection.Create | localblast/ObservableHeadCollection.cs:16-20 | Succeeds exactly when `0 <= count <= collection.Count`, and then shows the first `count` items. Otherwise it throws what `SubsetCollection` throws for a window at 0. |
| ObservableHeadCollections.ObservableHeadCollection.Count | localblast/ObservableHeadCollection.cs:24 | On a valid collection, the count is the length of the visible prefix and never exceeds the list's length. |
| ObservableHeadCollections.ObservableHeadCollection.Item | localblast/ObservableHeadCollection.cs:22 | It succeeds exactly when the index lies in the whole list, even past `Count`, and then yields the list's item at that index. Otherwise it throws `ArgumentOutOfRangeException("index")`. |
| ObservableHeadCollections.ObservableHeadCollection.Contains | localblast/ObservableHeadCollection.cs:32 | True exactly when the visible prefix holds the item. |
| ObservableHeadCollections.ObservableHeadCollection.IndexOf | localblast/ObservableHeadCollection.cs:34 | Returns the first position in the prefix holding the item, or -1 exactly when the prefix lacks it. |
| ObservableHeadCollections.ObservableHeadCollection.ViewMoreItems | localblast/ObservableHeadCollection.cs:36-48 | `Count` becomes `old + min(maxCount, collection.Count - old)`. When that is negative it throws `ArgumentOutOfRangeException("count")`, changing nothing and raising nothing. Otherwise it raises `Count` and `Item[]` changes, then one `Add` per new index in ascending order. For `maxCount >= 0` the count never falls and never passes the list's length. |
| ObservableHeadCollections.Additions | localblast/ObservableHeadCollection.cs:46-47 | The k-th notification adds item `lo + k` at index `lo + k`, one per index from `lo` up to `hi`. |
| ObservableHeadCollections.ObservableHeadCollection.ViewAllItems | localblast/ObservableHeadCollection.cs:50 | Shows the whole list, raising an `Add` for each newly shown item. When everything was already shown, the view is unchanged. |
| ObservableHeadCollections.ObservableHeadCollection.Flags | localblast/ObservableHeadCollection.cs:66-68 | The collection is read-only (line 26) yet not fixed-size, and not synchronized. |
| ObservableHeadCollections.ObservableHeadCollection.Mutate | localblast/ObservableHeadCollection.cs:83-131 | Every mutator and the indexer's setter throw `NotSupportedException`. |
| BlastResults.CsRemainder | localblast/BlastResult.cs:102 | C#'s `%`: it agrees with the mathematical remainder for non-negative dividends. For negative ones it lies in `(-b, 0]`. |
| BlastResults.CsRemainderCongruent | localblast/BlastResult.cs:102 | The dividend minus the remainder is a multiple of the divisor. With the bounds above, this fixes the value for negative dividends too. |
| BlastResults.MarkPointIff | localblast/BlastResult.cs:102 | `i % 100 == 1` holds exactly for positive `i` one past a multiple of 100. |
| BlastResults.Decimal | localblast/BlastResult.cs:104 | The text of a number is a non-empty string of digits. It is `"0"` for zero and otherwise has no leading zero. |
| BlastResults.DecimalCanonical | localblast/BlastResult.cs:104 | Every digit string without a leading zero is the text of the number it denotes, so `Decimal` is the only such text. |
| BlastResults.DecimalRoundTrip | localblast/BlastResult.cs:104 | Reading the digits back gives the number. |
| BlastResults.MarkLength | localblast/BlastResult.cs:104-106 | The mark of a positive `int` takes at most eleven characters. |
| BlastResults.ScaleMark | localblast/BlastResult.cs:98-114 | For every pair of `int` bounds, the loop builds exactly `ScaleMarkText`: at each position a mark character or a space, as laid out by the marks it passed. |
| BlastResults.CounterStep | localblast/BlastResult.cs:102-112 | The 32-bit counter update never wraps below `Int32Max`. The last mark point, 2147483601, has an eleven-character mark. From `Int32Max` the update wraps to `Int32Min`. |
| BlastResults.ScaleLoopWrapsAtMax | localblast/BlastResult.cs:100-113 | With `to == Int32Max`, the step from `Int32Max` lands on `Int32Min`, which passes the loop test `i <= to` again, so the test never fails. |
| BlastResults.ScaleMarkLength | localblast/BlastResult.cs:100-113 | The scale has at least one character per position from `from` to `to`, and at most ten more. |
| BlastResults.ScaleMarkBar | localblast/BlastResult.cs:102-107 | A `'|'` appears exactly at the offsets of mark points between `from` and `to`. |
| BlastResults.ScaleMarkPlaced | localblast/BlastResult.cs:102-107 | At each mark point `p` between `from` and `to`, the whole `"|" + p` sits at offset `p - from`. |
| BlastResults.ScaleMarkSpace | localblast/BlastResult.cs:108-112 | A position that no earlier mark reaches is a space. |
| BlastResults.SegmentPair.ZIndex | localblast/BlastResult.cs:171 | The negated index. The only exception is `Int32Min`, which negates to itself. |
| BlastResults.ZIndexReversesOrder | localblast/BlastResult.cs:171 | A smaller index gets a larger `ZIndex`. |
| BlastResults.SegmentPair.QueryWidth | localblast/BlastResult.cs:173 | For an in-order query range the width is the number of query positions. For a reversed range without wrap-around it is `2 -` the number of positions, so at most 0. |
| BlastResults.SegmentPair.BitScoreLevel | localblast/BlastResult.cs:177-195 | The level lies between 0 and 4, and it exceeds `k` exactly when the score reaches the k-th threshold of 40, 50, 80 and 200. |
| BlastResults.BitScoreLevelMonotone | localblast/BlastResult.cs:177-195 | A higher bit score never gets a lower level. |
| BlastResults.NewSegmentPair | localblast/BlastResult.cs:79-132 | For any record, it throws `ArgumentOutOfRangeException("capacity")` exactly when `AlignLength + 10` is negative in 32 bits. Otherwise it keeps the read fields, and the two scale strings are the scale texts of the query and hit ranges. |
| BlastResults.FoldSegments | localblast/BlastResult.cs:23-42 | Each `Hsp` record becomes a segment pair, built as `NewSegmentPair` builds it. The loop fails with `ArgumentOutOfRangeException("capacity")` exactly when some record's capacity is refused. Otherwise it keeps every pair in order. The two new locations are then valid and cover exactly the union of the pairs' normalised query and hit spans. The scores are the running maximum and minimum from the `MinValue`/`MaxValue` seeds. |
| BlastResults.BestBitScoreIsMax | localblast/BlastResult.cs:38-41 | Over at least one HSP, the running best is the greatest bit score, and some HSP has it. |
| BlastResults.LeastEValueIsMin | localblast/BlastResult.cs:39-42 | Over at least one HSP, the running least is the least e-value, and some HSP has it. |
| BlastResults.QueryRange | localblast/BlastResult.cs:45-46 | The least and greatest covered query points are the least normalised query start and the greatest normalised query end. |
| BlastResults.RawScores | localblast/BlastResult.cs:38-42 | Over at least one record, the running scores of the built pairs are the greatest bit score and the least e-value of the records, and some record has each. |
| BlastResults.RawRange | localblast/BlastResult.cs:35-46 | The least and greatest covered query points are the least start and greatest end of the records' normalised query spans. |
| BlastResults.NewHit | localblast/BlastResult.cs:11-47 | Throws `ArgumentOutOfRangeException("capacity")` when some `Hsp` record's segment pair cannot be built. Otherwise it throws `InvalidOperationException` exactly when there are no records. On success it keeps the built segment pairs in order. `MaxBitScore`/`MinEValue` are their greatest bit score and least e-value. The two total lengths count the covered query and hit positions. `QueryFrom`/`QueryTo` are the least normalised start and the greatest normalised end. |

## Left out

- XML extraction. The `Hit` and `SegmentPair` constructors take the values they would read as parameters. Fields that are only read and stored are not modelled: `Score`, `Identity`, `Positive`, `Gaps`, `QuerySeq`, `HitSeq`, `Alignment`, `Id`, `Accession`, `Title` and `Parent`.
- `QueryCover`, `HitCover` and `IdentityRatio` are not modelled, because they are floating-point divisions. `NewHit` models the two `TotalLength` numerators.
- The `NullReferenceException` that `(owner as BlastpPage).QueryLength` throws for another kind of page is not modelled, because it depends on the caller's page type.
- `ToString`, `GetHashCode` and `DebuggerToString` are left out, because they only produce text or hashes for display.
- `SeqSpan`'s comparison operators are left out, because they only restate `Equals` and `CompareTo`.
- The `Overlaps`, `IsSupersetOf` and `IntersectWith` overloads are renamed, with a `Span` or `Location` suffix.
- Linked-list node identity is not modelled: a node is a position in the `segments` sequence. The walks of `UnionWith` and `IntersectWith` are module-level methods over that sequence, and their callers assign the result to the field.
- `Hit` builds `new Span(...)` where the struct is called `SeqSpan`. It is taken as `SeqSpan`.
- Span endpoints and `Location` totals use unbounded integers. 32-bit overflow in `Length`, `TotalLength` and `To + 1` is not modelled.
- A `double` is taken as an exact finite real. NaN, infinities, negative zero and rounding are not modelled.
- BlastResults.NewSegmentPair, BlastResults.FoldSegments, BlastResults.NewHit: when a record's `queryTo` or `hitTo` equals `Int32Max`, they build the scale with the corrected loop (`ScaleMark`), while the source's constructor does not return normally there (see Findings, BlastResult.cs:100-113).
- BlastResults.SegmentPair.QueryWidth: states nothing when `QueryTo - QueryFrom + 1` wraps. The value is still computed with the wrap.
- The underlying `IReadOnlyList<T>` is taken to behave like `List<T>`: its indexer throws `ArgumentOutOfRangeException("index")`.
- `SyncRoot` is left out, because it only hands out a lock object.
- `ICollection.CopyTo` dispatches on `array is T[]`. The model gives its two paths as `CopyTo` and `CopyToArray`, and does not model the run-time type test.
- SubsetCollections.SubsetCollection.CopyToArray: an `array?<T>` holds `T` and has one dimension, so the `InvalidCastException` that `Array.SetValue` throws on an element-type mismatch, and the `ArgumentException` it throws on a multi-dimensional array, are not modelled.
- The `object`-typed `IList.Contains`/`IndexOf` type test is not modelled; the generic members are.
- Event handlers are not modelled: the notifications `ViewMoreItems` raises are returned as a sequence.
- `ObservableHeadCollection`'s `GetEnumerator` and `CopyTo` are not modelled separately, because they only delegate to the view, whose members are modelled.

## Findings

| source | as written | input that shows it | evidently intended | confidence | as-written member | corrected member |
|---|---|---|---|---|---|---|
| localblast/SubsetCollection.cs:18 | `startIndex + count > collection.Count` is an unchecked 32-bit sum, so a large `count` wraps negative and passes the check | a list of 2 items, `startIndex = 1`, `count = Int32Max` | reject any window that ends past the list | not executed | SubsetCollections.NewAsWrittenOverflow | SubsetCollections.New |
| localblast/SubsetCollection.cs:34 | `Take(startIndex..(startIndex + Count - 1))` uses an end-exclusive range, so the last item is never enumerated | any window with `Count >= 1` | enumerate all `Count` items | not executed | SubsetCollections.EnumerateDropsLast | SubsetCollections.SubsetCollection.EnumerateCorrected |
| localblast/BlastResult.cs:100-113, 117-130 | the scale loops count with an `int` and test `i <= to`; with `to == Int32Max` the test never fails, because `i++` from `Int32Max` wraps to `Int32Min`; each pass appends a character, so the constructor ends in an exception from the growing `StringBuilder`, not a normal return | an HSP with `query-to` (or `hit-to`) equal to 2147483647 | stop after position `to`, as for every smaller bound | not executed | BlastResults.ScaleLoopWrapsAtMax | BlastResults.ScaleMark |
| localblast/SubsetCollection.cs:40 | every iteration writes to `array[arrayIndex]`, so only the last item survives, in one slot | a window over `"ab"` copied to a two-slot array at index 0 | write item `i` to `array[arrayIndex + i]` | not executed | SubsetCollections.CopyToLosesItems | SubsetCollections.SubsetCollection.CopyToArray |
