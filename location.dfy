/**
 * `Location`: a set of integer points kept as a list of spans that ascend,
 * never overlap and never touch. The linked list of the original is the
 * sequence `segments`; a node is a position in it, and `AddBefore`, `Remove`,
 * `AddLast` and assigning `node.Value` are the matching sequence edits.
 */
module Locations {
  import opened Exceptions
  import opened Spans
  import opened SpanLists

  class Location {
    /** The segments, in list order. */
    var segments: seq<SeqSpan>

    /** The invariant every public operation keeps: what `Invalidate` checks. */
    ghost predicate Valid()
      reads this
    {
      Sorted(segments)
    }

    /** The points the location covers. */
    ghost function CoveredPoints(): set<int>
      reads this
    {
      Covered(segments)
    }

    constructor ()
      ensures Valid() && segments == []
    {
      segments := [];
    }

    /** `NumberOfSegments`: none exactly when the location covers nothing. */
    function NumberOfSegments(): (n: int)
      reads this
      ensures n >= 0
      ensures n == 0 <==> CoveredPoints() == {}
    {
      CoveredEmpty(segments);
      |segments|
    }

    /** `TotalLength`: adds up the segment lengths, which is the number of covered points. */
    method TotalLength() returns (length: int)
      requires Valid()
      ensures length == |CoveredPoints()|
    {
      length := 0;
      var i := 0;
      while i < |segments|
        invariant 0 <= i <= |segments|
        invariant length + SumLengths(segments[i..]) == SumLengths(segments)
      {
        assert segments[i..][1..] == segments[i + 1..];
        length := length + Length(segments[i]);
        i := i + 1;
      }
      SumIsCardinality(segments);
    }

    /** `From`: the least covered point; throws on an empty location. */
    function From(): (r: Result<int>)
      reads this
      requires Valid()
      ensures r.Throw? <==> CoveredPoints() == {}
      ensures r.Throw? ==> r.exception == InvalidOperationException
      ensures r.Ok? ==> r.value in CoveredPoints() && forall p :: p in CoveredPoints() ==> r.value <= p
    {
      CoveredEmpty(segments);
      if NumberOfSegments() == 0 then
        Throw(InvalidOperationException)
      else
        SortedBounds(segments);
        Ok(segments[0].from)
    }

    /** `To`: the greatest covered point; throws on an empty location. */
    function To(): (r: Result<int>)
      reads this
      requires Valid()
      ensures r.Throw? <==> CoveredPoints() == {}
      ensures r.Throw? ==> r.exception == InvalidOperationException
      ensures r.Ok? ==> r.value in CoveredPoints() && forall p :: p in CoveredPoints() ==> p <= r.value
    {
      CoveredEmpty(segments);
      if NumberOfSegments() == 0 then
        Throw(InvalidOperationException)
      else
        SortedBounds(segments);
        Ok(segments[|segments| - 1].to)
    }

    /**
     * `Overlaps(SeqSpan)`: some segment overlaps `other`. The scan stops at the
     * first segment starting after `other`, since every later one starts later still.
     */
    method OverlapsSpan(other: SeqSpan) returns (r: bool)
      requires Valid()
      ensures r <==> exists j :: 0 <= j < |segments| && Overlaps(segments[j], other)
      ensures r <==> CoveredPoints() * Points(other) != {}
    {
      OverlapsCovered(segments, other);
      var i := 0;
      while i < |segments|
        invariant 0 <= i <= |segments|
        invariant forall j :: 0 <= j < i ==> !Overlaps(segments[j], other)
      {
        var one := segments[i];
        if Overlaps(one, other) {
          return true;
        }
        if other.to < one.from {
          NothingAfter(segments, i, other);
          return false;
        }
        i := i + 1;
      }
      return false;
    }

    /** `Overlaps(Location)`: the two locations share a point. */
    method OverlapsLocation(location: Location) returns (r: bool)
      requires Valid() && location.Valid()
      ensures r <==> exists j :: 0 <= j < |location.segments| && Points(location.segments[j]) * CoveredPoints() != {}
      ensures r <==> location.CoveredPoints() * CoveredPoints() != {}
    {
      CoveredMeets(location.segments, CoveredPoints());
      var i := 0;
      while i < |location.segments|
        invariant 0 <= i <= |location.segments|
        invariant forall j :: 0 <= j < i ==> Points(location.segments[j]) * CoveredPoints() == {}
      {
        var b := OverlapsSpan(location.segments[i]);
        if b {
          return true;
        }
        i := i + 1;
      }
      return false;
    }

    /**
     * `IsSupersetOf(SeqSpan)`: one single segment contains `other`. The scan
     * gives up at the first segment that overlaps `other` without containing it.
     */
    method IsSupersetOfSpan(other: SeqSpan) returns (r: bool)
      requires Valid()
      ensures r <==> exists j :: 0 <= j < |segments| && IsSupersetOf(segments[j], other)
      ensures r <==> Points(other) <= CoveredPoints()
    {
      SupersetCovered(segments, other);
      var i := 0;
      while i < |segments|
        invariant 0 <= i <= |segments|
        invariant forall j :: 0 <= j < i ==> !IsSupersetOf(segments[j], other)
      {
        var seg := segments[i];
        if IsSupersetOf(seg, other) {
          return true;
        }
        if Overlaps(seg, other) {
          forall j | i < j < |segments| ensures !IsSupersetOf(segments[j], other) {
            assert Before(segments[i], segments[j]);
          }
          return false;
        }
        i := i + 1;
      }
      return false;
    }

    /** `IsSupersetOf(Location)`: every segment of `location` is contained in this location. */
    method IsSupersetOfLocation(location: Location) returns (r: bool)
      requires Valid() && location.Valid()
      ensures r <==> forall j :: 0 <= j < |location.segments| ==> Points(location.segments[j]) <= CoveredPoints()
      ensures r <==> location.CoveredPoints() <= CoveredPoints()
    {
      CoveredSubset(location.segments, CoveredPoints());
      var i := 0;
      while i < |location.segments|
        invariant 0 <= i <= |location.segments|
        invariant forall j :: 0 <= j < i ==> Points(location.segments[j]) <= CoveredPoints()
      {
        var b := IsSupersetOfSpan(location.segments[i]);
        if !b {
          return false;
        }
        i := i + 1;
      }
      return true;
    }

    /** `IntersectWith(SeqSpan)`: cuts every segment down to `other`, removing those that miss it. */
    method IntersectWithSpan(other: SeqSpan)
      requires Valid()
      modifies this
      ensures Valid()
      ensures segments == ClipAll(old(segments), other)
      ensures CoveredPoints() == old(CoveredPoints()) * Points(other)
    {
      ClipAllSorted(segments, other);
      ClipAllCovered(segments, other);
      segments := ClipSegments(segments, other);
    }

    /**
     * `IntersectWith(Location)`: replaces the segments with every pairwise
     * intersection of a segment of this location and one of `location`.
     */
    method IntersectWithLocation(location: Location?) returns (r: Outcome)
      requires Valid()
      requires location != null ==> location.Valid()
      modifies this
      ensures location == null ==> r == Fail(ArgumentNullException("location")) && segments == old(segments)
      ensures location != null ==> r == Done && Valid()
      ensures location != null ==> segments == Pairwise(old(segments), old(location.segments))
      ensures location != null ==> CoveredPoints() == old(CoveredPoints()) * old(location.CoveredPoints())
    {
      if location == null {
        return Fail(ArgumentNullException("location"));
      }
      var a, b := segments, location.segments;
      PairwiseSorted(a, b);
      PairwiseCovered(a, b);
      if NumberOfSegments() == 0 {
        return Done;
      }
      if location.NumberOfSegments() == 0 {
        PairwiseEmpty(a);
        segments := [];
        return Done;
      }
      segments := IntersectSegments(a, b);
      return Done;
    }

    /** The private `CanUnion`: merging the two spans loses nothing and adds nothing. */
    static function CanUnion(one: SeqSpan, other: SeqSpan): (r: bool)
      ensures r <==> Points(one) + Points(other) == Points(Union(one, other))
    {
      CanMergeIff(one, other);
      Overlaps(one, other) || IsNeighbor(one, other)
    }

    /** `UnionWith`: adds the points of `other`, keeping the segments in canonical form. */
    method UnionWith(other: SeqSpan)
      requires Valid()
      modifies this
      ensures Valid()
      ensures CoveredPoints() == old(CoveredPoints()) + Points(other)
      ensures Points(other) <= old(CoveredPoints()) ==> segments == old(segments)
    {
      segments := UnionSegments(segments, other);
      UnionIdempotent(segments, old(segments), other);
    }

    /**
     * The debug check `Invalidate`: true exactly when each segment ends more
     * than one point before the next one starts.
     */
    method Invalidate() returns (ok: bool)
      ensures ok <==> Sorted(segments)
    {
      var i := 0;
      while i < |segments|
        invariant 0 <= i <= |segments|
        invariant forall j :: 0 < j < i ==> Before(segments[j - 1], segments[j])
      {
        if i > 0 && segments[i - 1].to + 1 >= segments[i].from {
          return false;
        }
        i := i + 1;
      }
      AdjacentSorted(segments);
      return true;
    }
  }

  /**
   * The loop of `IntersectWith(SeqSpan)`: walks the list once, assigning each
   * overlapping node its intersection with `other` and removing the others.
   */
  method ClipSegments(segments: seq<SeqSpan>, other: SeqSpan) returns (list: seq<SeqSpan>)
    ensures list == ClipAll(segments, other)
  {
    list := segments;
    var i := 0;
    while i < |list|
      invariant 0 <= i <= |list|
      invariant list[..i] + ClipAll(list[i..], other) == ClipAll(segments, other)
      decreases |list| - i
    {
      if Overlaps(list[i], other) {
        var x := Intersect(list[i], other).value;
        ClipKeep(list, i, other);
        list := list[i := x];
        i := i + 1;
      } else {
        ClipDrop(list, i, other);
        list := list[..i] + list[i + 1..];
      }
    }
    Whole(list);
  }

  /**
   * In a sorted list, no span from one that starts past `o` on can overlap
   * `o`; with none overlapping before it, none overlaps at all.
   */
  lemma NothingAfter(s: seq<SeqSpan>, i: int, o: SeqSpan)
    requires Sorted(s) && 0 <= i < |s| && o.to < s[i].from
    requires forall j :: 0 <= j < i ==> !Overlaps(s[j], o)
    ensures forall j :: 0 <= j < |s| ==> !Overlaps(s[j], o)
  {
    forall j | i < j < |s|
      ensures !Overlaps(s[j], o)
    {
      assert Before(s[i], s[j]);
    }
  }

  lemma ClipKeep(list: seq<SeqSpan>, i: int, o: SeqSpan)
    requires 0 <= i < |list| && Overlaps(list[i], o)
    ensures list[i := Intersect(list[i], o).value][..i + 1] + ClipAll(list[i := Intersect(list[i], o).value][i + 1..], o)
         == list[..i] + ClipAll(list[i..], o)
  {
    var x := Intersect(list[i], o).value;
    ClipAllKeep(list, i, o);
    ReplaceStep(list, i, x);
    Assoc(list[..i], [x], ClipAll(list[i + 1..], o));
  }

  lemma ClipDrop(list: seq<SeqSpan>, i: int, o: SeqSpan)
    requires 0 <= i < |list| && !Overlaps(list[i], o)
    ensures (list[..i] + list[i + 1..])[..i] + ClipAll((list[..i] + list[i + 1..])[i..], o)
         == list[..i] + ClipAll(list[i..], o)
  {
    ClipAllSkip(list, i, o);
    RemoveStep(list, i);
  }

  /**
   * The nested loops of `IntersectWith(Location)`: for each segment of `a`,
   * in order, its intersection with each segment of `b` it overlaps.
   */
  method IntersectSegments(a: seq<SeqSpan>, b: seq<SeqSpan>) returns (spans: seq<SeqSpan>)
    ensures spans == Pairwise(a, b)
  {
    spans := [];
    var i := 0;
    while i < |a|
      invariant 0 <= i <= |a|
      invariant spans + Pairwise(a[i..], b) == Pairwise(a, b)
    {
      PairwiseStep(spans, a, i, b);
      spans := ClipEach(spans, b, a[i]);
      i := i + 1;
    }
  }

  /**
   * The inner loop of `IntersectWith(Location)`: appends to `spans` the
   * intersection of `one` with each segment of `b` it overlaps.
   */
  method ClipEach(spans: seq<SeqSpan>, b: seq<SeqSpan>, one: SeqSpan) returns (acc: seq<SeqSpan>)
    ensures acc == spans + ClipAll(b, one)
  {
    acc := spans;
    var j := 0;
    while j < |b|
      invariant 0 <= j <= |b|
      invariant acc + ClipAll(b[j..], one) == spans + ClipAll(b, one)
    {
      var other := b[j];
      if Overlaps(one, other) {
        ClipEachKeep(acc, b, j, one);
        acc := acc + [Intersect(one, other).value];
      } else {
        ClipEachSkip(acc, b, j, one);
      }
      j := j + 1;
    }
    ClipEachDone(acc, b, one);
  }

  lemma ClipEachDone(acc: seq<SeqSpan>, b: seq<SeqSpan>, one: SeqSpan)
    ensures acc + ClipAll(b[|b|..], one) == acc
  {
    assert b[|b|..] == [];
  }

  lemma PairwiseStep(spans: seq<SeqSpan>, a: seq<SeqSpan>, i: int, b: seq<SeqSpan>)
    requires 0 <= i < |a|
    ensures spans + Pairwise(a[i..], b) == (spans + ClipAll(b, a[i])) + Pairwise(a[i + 1..], b)
  {
    PairwiseAt(a, i, b);
    Assoc(spans, ClipAll(b, a[i]), Pairwise(a[i + 1..], b));
  }

  lemma ClipEachKeep(acc: seq<SeqSpan>, b: seq<SeqSpan>, j: int, one: SeqSpan)
    requires 0 <= j < |b| && Overlaps(one, b[j])
    ensures acc + ClipAll(b[j..], one) == (acc + [Intersect(one, b[j]).value]) + ClipAll(b[j + 1..], one)
  {
    IntersectSymmetric(one, b[j]);
    ClipAllKeep(b, j, one);
    Assoc(acc, [Intersect(one, b[j]).value], ClipAll(b[j + 1..], one));
  }

  lemma ClipEachSkip(acc: seq<SeqSpan>, b: seq<SeqSpan>, j: int, one: SeqSpan)
    requires 0 <= j < |b| && !Overlaps(one, b[j])
    ensures acc + ClipAll(b[j..], one) == acc + ClipAll(b[j + 1..], one)
  {
    IntersectSymmetric(one, b[j]);
    ClipAllSkip(b, j, one);
  }

  /**
   * The loop of `UnionWith`, over the segments in list order. Until `other`
   * is placed, it is merged into the first segment it overlaps or touches,
   * or inserted before the first segment lying after it; after a merge, the
   * grown segment swallows each following segment it overlaps or touches,
   * and the walk stops at the first one lying after it. If no segment took
   * `other`, it is appended.
   */
  method UnionSegments(segments: seq<SeqSpan>, other: SeqSpan) returns (list: seq<SeqSpan>)
    requires Sorted(segments)
    ensures list == Inserted(segments, other)
    ensures Sorted(list)
    ensures Covered(list) == Covered(segments) + Points(other)
  {
    list := segments;
    var added := false;
    var i := 0;
    while i < |list|
      invariant 0 <= i <= |list|
      invariant !added ==> list == segments && Inserted(segments, other) == list[..i] + Inserted(list[i..], other)
      invariant added ==> 1 <= i && Inserted(segments, other) == list[..i - 1] + MergeForward(list[i - 1], list[i..])
      decreases |list| - i
    {
      if !added {
        var node := list[i];
        TouchesIff(node, other);
        if Location.CanUnion(node, other) {
          PlaceMerge(list, i, other);
          HullIsUnion(node, other);
          list := list[i := Union(node, other)];
          added := true;
        } else if other.to < node.from {
          PlaceBefore(list, i, other);
          list := list[..i] + [other] + list[i..];
          added := true;
          break;
        } else {
          PlacePass(list, i, other);
        }
      } else {
        var prev := list[i - 1];
        var node := list[i];
        TouchesIff(prev, node);
        if Location.CanUnion(prev, node) {
          SwallowNext(list, i);
          HullIsUnion(prev, node);
          list := list[..i - 1] + [Union(prev, node)] + list[i + 1..];
          i := i - 1;
        } else if prev.to < node.from {
          SwallowStop(list, i);
          break;
        } else {
          SwallowPass(list, i);
        }
      }
      i := i + 1;
    }
    if !added {
      PlaceLast(list, other);
      list := list + [other];
    } else if i == |list| {
      SwallowEnd(list);
    }
    InsertedSorted(segments, other);
    InsertedCovered(segments, other);
  }

  /** Two spans overlap or touch: `CanUnion` in terms of their endpoints. */
  predicate Touches(a: SeqSpan, b: SeqSpan)
  {
    a.from <= b.to + 1 && b.from <= a.to + 1
  }

  lemma TouchesIff(a: SeqSpan, b: SeqSpan)
    ensures Location.CanUnion(a, b) == Touches(a, b)
  {
  }

  /**
   * `Union` on endpoints alone. `Inserted` and `MergeForward` use it, and
   * `Touches`, instead of `Union` and `CanUnion`, whose contracts speak of
   * point sets; `HullIsUnion` and `TouchesIff` tie the two pairs together.
   */
  function Hull(a: SeqSpan, b: SeqSpan): SeqSpan
  {
    Endpoints(Min(a.from, b.from), Max(a.to, b.to))
  }

  lemma HullIsUnion(a: SeqSpan, b: SeqSpan)
    ensures Hull(a, b) == Union(a, b)
  {
  }

  /** Two spans that overlap or touch lose nothing and gain nothing when replaced by their hull. */
  lemma HullPoints(a: SeqSpan, b: SeqSpan)
    requires Touches(a, b)
    ensures Points(Hull(a, b)) == Points(a) + Points(b)
  {
    TouchesIff(a, b);
    HullIsUnion(a, b);
  }

  /**
   * What `UnionWith` makes of the list `s`: the first segment that overlaps
   * or touches `o` absorbs it and merges forward; `o` goes before the first
   * segment lying after it, or at the end when there is none.
   */
  function Inserted(s: seq<SeqSpan>, o: SeqSpan): seq<SeqSpan>
  {
    if s == [] then [o]
    else if Touches(s[0], o) then MergeForward(Hull(s[0], o), s[1..])
    else if o.to < s[0].from then [o] + s
    else [s[0]] + Inserted(s[1..], o)
  }

  /**
   * The merging phase of `UnionWith`: the grown segment `u` swallows each
   * next segment it overlaps or touches, and the walk stops at one lying
   * after it; at any other segment the walk moves on, that segment becoming
   * the one that swallows.
   */
  function MergeForward(u: SeqSpan, rest: seq<SeqSpan>): seq<SeqSpan>
    decreases |rest|
  {
    if rest == [] then [u]
    else if Touches(u, rest[0]) then MergeForward(Hull(u, rest[0]), rest[1..])
    else if u.to < rest[0].from then [u] + rest
    else [u] + MergeForward(rest[0], rest[1..])
  }

  /** `other` grows segment `i`, which then starts merging forward. */
  lemma PlaceMerge(s: seq<SeqSpan>, i: int, o: SeqSpan)
    requires 0 <= i < |s| && Touches(s[i], o)
    ensures var t := s[i := Hull(s[i], o)];
      s[..i] + Inserted(s[i..], o) == t[..i] + MergeForward(t[i], t[i + 1..])
  {
    assert s[i..][0] == s[i] && s[i..][1..] == s[i + 1..];
  }

  /** `other` goes in before segment `i`. */
  lemma PlaceBefore(s: seq<SeqSpan>, i: int, o: SeqSpan)
    requires 0 <= i < |s| && !Touches(s[i], o) && o.to < s[i].from
    ensures s[..i] + Inserted(s[i..], o) == s[..i] + [o] + s[i..]
  {
    assert s[i..][0] == s[i];
  }

  /** Segment `i` neither takes `other` nor follows it: the walk moves past it. */
  lemma PlacePass(s: seq<SeqSpan>, i: int, o: SeqSpan)
    requires 0 <= i < |s| && !Touches(s[i], o) && !(o.to < s[i].from)
    ensures s[..i] + Inserted(s[i..], o) == s[..i + 1] + Inserted(s[i + 1..], o)
  {
    InsertedPasses(s, i, o);
    ShiftOne(s, i, Inserted(s[i + 1..], o));
  }

  /** A segment that neither takes `o` nor follows it stays where it is. */
  lemma InsertedPasses(s: seq<SeqSpan>, i: int, o: SeqSpan)
    requires 0 <= i < |s| && !Touches(s[i], o) && !(o.to < s[i].from)
    ensures Inserted(s[i..], o) == [s[i]] + Inserted(s[i + 1..], o)
  {
    assert s[i..][0] == s[i] && s[i..][1..] == s[i + 1..];
  }

  /** Moving element `i` from the front of the tail to the end of the prefix. */
  lemma ShiftOne<T>(s: seq<T>, i: int, b: seq<T>)
    requires 0 <= i < |s|
    ensures s[..i] + ([s[i]] + b) == s[..i + 1] + b
  {
    assert s[..i + 1] == s[..i] + [s[i]];
  }

  /** No segment took `other`: it goes at the end. */
  lemma PlaceLast(s: seq<SeqSpan>, o: SeqSpan)
    ensures s[..|s|] + Inserted(s[|s|..], o) == s + [o]
  {
    assert s[|s|..] == [];
  }

  /** The grown segment `i - 1` swallows segment `i`; the walk looks at the same position again. */
  lemma SwallowNext(t: seq<SeqSpan>, i: int)
    requires 1 <= i < |t| && Touches(t[i - 1], t[i])
    ensures var t' := t[..i - 1] + [Hull(t[i - 1], t[i])] + t[i + 1..];
      t[..i - 1] + MergeForward(t[i - 1], t[i..]) == t'[..i - 1] + MergeForward(t'[i - 1], t'[i..])
  {
    var t' := t[..i - 1] + [Hull(t[i - 1], t[i])] + t[i + 1..];
    assert t[i..][0] == t[i] && t[i..][1..] == t[i + 1..];
    assert t'[..i - 1] == t[..i - 1] && t'[i..] == t[i + 1..];
  }

  /** Segment `i` lies after the grown one: merging stops and the list is final. */
  lemma SwallowStop(t: seq<SeqSpan>, i: int)
    requires 1 <= i < |t| && !Touches(t[i - 1], t[i]) && t[i - 1].to < t[i].from
    ensures t[..i - 1] + MergeForward(t[i - 1], t[i..]) == t
  {
    assert t[i..][0] == t[i];
    assert t[..i - 1] + [t[i - 1]] + t[i..] == t;
  }

  /** Segment `i` neither joins the grown one nor lies after it: it becomes the one that swallows. */
  lemma SwallowPass(t: seq<SeqSpan>, i: int)
    requires 1 <= i < |t| && !Touches(t[i - 1], t[i]) && !(t[i - 1].to < t[i].from)
    ensures t[..i - 1] + MergeForward(t[i - 1], t[i..]) == t[..i] + MergeForward(t[i], t[i + 1..])
  {
    assert t[i..][0] == t[i] && t[i..][1..] == t[i + 1..];
    assert t[..i] == t[..i - 1] + [t[i - 1]];
  }

  /** The walk ran off the end while merging: the list is final. */
  lemma SwallowEnd(t: seq<SeqSpan>)
    requires |t| >= 1
    ensures t[..|t| - 1] + MergeForward(t[|t| - 1], t[|t|..]) == t
  {
    assert t[|t|..] == [];
  }

  /** A span lying before the head of a sorted list lies before all of it. */
  lemma SortedCons(x: SeqSpan, r: seq<SeqSpan>)
    requires Sorted(r) && (r != [] ==> Before(x, r[0]))
    ensures Sorted([x] + r)
  {
    var t := [x] + r;
    forall j, k | 0 <= j < k < |t| ensures Before(t[j], t[k]) {
      if j == 0 && k > 1 {
        assert Before(r[0], r[k - 1]);
      } else if j > 0 {
        assert Before(r[j - 1], r[k - 1]);
      }
    }
  }

  lemma SortedTail(s: seq<SeqSpan>)
    requires Sorted(s) && s != []
    ensures Sorted(s[1..])
  {
    forall j, k | 0 <= j < k < |s[1..]| ensures Before(s[1..][j], s[1..][k]) {
      assert Before(s[j + 1], s[k + 1]);
    }
  }

  /** Merging forward covers the points of `u` and of the rest, whatever the order. */
  lemma {:induction false} MergeForwardCovered(u: SeqSpan, rest: seq<SeqSpan>)
    ensures Covered(MergeForward(u, rest)) == Points(u) + Covered(rest)
    decreases |rest|
  {
    if rest == [] {
      assert Covered([u]) == Points(u) + Covered([]);
    } else if Touches(u, rest[0]) {
      HullPoints(u, rest[0]);
      MergeForwardCovered(Hull(u, rest[0]), rest[1..]);
    } else if u.to < rest[0].from {
      assert ([u] + rest)[1..] == rest;
    } else {
      MergeForwardCovered(rest[0], rest[1..]);
      assert ([u] + MergeForward(rest[0], rest[1..]))[1..] == MergeForward(rest[0], rest[1..]);
    }
  }

  /**
   * On a sorted list, merging forward from a span that starts no later than
   * the rest yields a sorted list starting where that span starts.
   */
  lemma {:induction false} MergeForwardSorted(u: SeqSpan, rest: seq<SeqSpan>)
    requires Sorted(rest) && (rest != [] ==> u.from <= rest[0].from)
    ensures MergeForward(u, rest) != [] && MergeForward(u, rest)[0].from == u.from
    ensures Sorted(MergeForward(u, rest))
    decreases |rest|
  {
    if rest == [] {
    } else if Touches(u, rest[0]) {
      SortedTail(rest);
      if |rest| > 1 {
        assert Before(rest[0], rest[1]);
      }
      MergeForwardSorted(Hull(u, rest[0]), rest[1..]);
    } else if u.to < rest[0].from {
      SortedCons(u, rest);
    } else {
      assert false;
    }
  }

  /** `UnionWith` adds exactly the points of `o`, whatever the order of the list. */
  lemma {:induction false} InsertedCovered(s: seq<SeqSpan>, o: SeqSpan)
    ensures Covered(Inserted(s, o)) == Covered(s) + Points(o)
    decreases |s|
  {
    if s == [] {
      assert Covered([o]) == Points(o) + Covered([]);
    } else if Touches(s[0], o) {
      HullPoints(s[0], o);
      MergeForwardCovered(Hull(s[0], o), s[1..]);
    } else if o.to < s[0].from {
      assert ([o] + s)[1..] == s;
    } else {
      InsertedCovered(s[1..], o);
      assert ([s[0]] + Inserted(s[1..], o))[1..] == Inserted(s[1..], o);
    }
  }

  /**
   * `UnionWith` keeps a sorted list sorted, and the result starts at the
   * lesser of the two first starts.
   */
  lemma {:induction false} InsertedSorted(s: seq<SeqSpan>, o: SeqSpan)
    requires Sorted(s)
    ensures Inserted(s, o) != []
    ensures Inserted(s, o)[0].from == if s == [] then o.from else Min(s[0].from, o.from)
    ensures Sorted(Inserted(s, o))
    decreases |s|
  {
    if s == [] {
    } else if Touches(s[0], o) {
      SortedTail(s);
      if |s| > 1 {
        assert Before(s[0], s[1]);
      }
      MergeForwardSorted(Hull(s[0], o), s[1..]);
    } else if o.to < s[0].from {
      SortedCons(o, s);
    } else {
      SortedTail(s);
      InsertedSorted(s[1..], o);
      if |s| > 1 {
        assert Before(s[0], s[1]);
      }
      SortedCons(s[0], Inserted(s[1..], o));
    }
  }

  lemma Whole<T>(s: seq<T>)
    ensures s[..|s|] == s
  {
  }

  lemma Assoc<T>(a: seq<T>, b: seq<T>, c: seq<T>)
    ensures a + (b + c) == a + b + c
  {
  }

  /** Assigning a node's value at position `i`, then moving past it. */
  lemma ReplaceStep<T>(s: seq<T>, i: int, x: T)
    requires 0 <= i < |s|
    ensures s[i := x][..i + 1] == s[..i] + [x]
    ensures s[i := x][i + 1..] == s[i + 1..]
  {
  }

  /** Removing the node at position `i`; the cursor then names its successor. */
  lemma RemoveStep<T>(s: seq<T>, i: int)
    requires 0 <= i < |s|
    ensures (s[..i] + s[i + 1..])[..i] == s[..i]
    ensures (s[..i] + s[i + 1..])[i..] == s[i + 1..]
  {
  }

  /** Adding points already covered leaves the canonical list as it was. */
  lemma UnionIdempotent(list: seq<SeqSpan>, segments: seq<SeqSpan>, other: SeqSpan)
    requires Sorted(list) && Sorted(segments)
    requires Covered(list) == Covered(segments) + Points(other)
    ensures Points(other) <= Covered(segments) ==> list == segments
  {
    if Points(other) <= Covered(segments) {
      Canonical(list, segments);
    }
  }

  /** The order in which two spans are added does not change the canonical list. */
  lemma UnionCommutes(s: seq<SeqSpan>, a: SeqSpan, b: SeqSpan)
    requires Sorted(s)
    ensures Inserted(Inserted(s, a), b) == Inserted(Inserted(s, b), a)
  {
    InsertedTwice(s, a, b);
    InsertedTwice(s, b, a);
    var ps, pa, pb := Covered(s), Points(a), Points(b);
    assert ps + pa + pb == ps + pb + pa;
    Canonical(Inserted(Inserted(s, a), b), Inserted(Inserted(s, b), a));
  }

  /** Two spans added one after the other: still canonical, covering all three. */
  lemma InsertedTwice(s: seq<SeqSpan>, a: SeqSpan, b: SeqSpan)
    requires Sorted(s)
    ensures Sorted(Inserted(Inserted(s, a), b))
    ensures Covered(Inserted(Inserted(s, a), b)) == Covered(s) + Points(a) + Points(b)
  {
    var t := Inserted(s, a);
    InsertedSorted(s, a);
    InsertedCovered(s, a);
    InsertedSorted(t, b);
    InsertedCovered(t, b);
  }

  /** Checking neighbours is enough: the pairwise invariant follows. */
  lemma {:induction false} AdjacentSorted(s: seq<SeqSpan>)
    requires forall j :: 0 < j < |s| ==> Before(s[j - 1], s[j])
    ensures Sorted(s)
  {
    if |s| > 1 {
      AdjacentSorted(s[1..]);
      forall k | 1 < k < |s| ensures Before(s[0], s[k]) {
        assert Before(s[1..][0], s[1..][k - 1]);
      }
      forall j, k | 0 <= j < k < |s| ensures Before(s[j], s[k]) {
        if j > 0 {
          assert Before(s[1..][j - 1], s[1..][k - 1]);
        }
      }
    }
  }

  lemma {:induction false} PairwiseEmpty(a: seq<SeqSpan>)
    ensures Pairwise(a, []) == []
  {
    if a != [] {
      PairwiseEmpty(a[1..]);
    }
  }
}
