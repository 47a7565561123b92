/**
 * Lists of spans as a `Location` stores them: the ordering invariant, the
 * points a list covers, and the results of the two intersections, with the
 * facts about them that the `Location` operations rely on.
 */
module SpanLists {
  import opened Exceptions
  import opened Spans

  /** `a` ends before `b` starts, with at least one uncovered point between them. */
  predicate Before(a: SeqSpan, b: SeqSpan)
  {
    a.to + 1 < b.from
  }

  /** The `Location` invariant: ascending, never overlapping, never touching. */
  predicate Sorted(s: seq<SeqSpan>)
  {
    forall i, j :: 0 <= i < j < |s| ==> Before(s[i], s[j])
  }

  /** The points covered by a list of spans. */
  ghost function Covered(s: seq<SeqSpan>): set<int>
  {
    if s == [] then {} else Points(s[0]) + Covered(s[1..])
  }

  /** The sum of the lengths of the spans. */
  function SumLengths(s: seq<SeqSpan>): int
  {
    if s == [] then 0 else Length(s[0]) + SumLengths(s[1..])
  }

  lemma {:induction false} CoveredConcat(a: seq<SeqSpan>, b: seq<SeqSpan>)
    ensures Covered(a + b) == Covered(a) + Covered(b)
  {
    if a == [] {
      assert a + b == b;
    } else {
      assert (a + b)[1..] == a[1..] + b;
      CoveredConcat(a[1..], b);
    }
  }

  /** A point is covered exactly when some span of the list holds it. */
  lemma CoveredMember(s: seq<SeqSpan>, p: int)
    ensures p in Covered(s) <==> exists j :: 0 <= j < |s| && s[j].from <= p <= s[j].to
  {
    if p in Covered(s) {
      var j := Holder(s, p);
    }
    if exists j :: 0 <= j < |s| && s[j].from <= p <= s[j].to {
      var j :| 0 <= j < |s| && s[j].from <= p <= s[j].to;
      InCovered(s, j, p);
    }
  }

  /** The position of a span holding a covered point. */
  lemma {:induction false} Holder(s: seq<SeqSpan>, p: int) returns (j: int)
    requires p in Covered(s)
    ensures 0 <= j < |s| && s[j].from <= p <= s[j].to
    decreases |s|
  {
    if s[0].from <= p <= s[0].to {
      j := 0;
    } else {
      var k := Holder(s[1..], p);
      j := k + 1;
    }
  }

  /** A point held by one span of the list is covered. */
  lemma {:induction false} InCovered(s: seq<SeqSpan>, j: int, p: int)
    requires 0 <= j < |s| && s[j].from <= p <= s[j].to
    ensures p in Covered(s)
    decreases j
  {
    if j == 0 {
      assert p in Points(s[0]);
    } else {
      InCovered(s[1..], j - 1, p);
    }
  }

  lemma CoveredIncludes(s: seq<SeqSpan>, j: int)
    requires 0 <= j < |s|
    ensures Points(s[j]) <= Covered(s)
  {
    forall p | p in Points(s[j]) ensures p in Covered(s) {
      InCovered(s, j, p);
    }
  }

  /** Every covered point lies between the smallest start and the largest end. */
  lemma {:induction false} CoveredBetween(s: seq<SeqSpan>, lo: int, hi: int)
    requires forall j :: 0 <= j < |s| ==> lo <= s[j].from && s[j].to <= hi
    ensures forall p :: p in Covered(s) ==> lo <= p <= hi
  {
    if s != [] {
      CoveredBetween(s[1..], lo, hi);
    }
  }

  /** Appending two sorted lists keeps them sorted when a gap separates them. */
  lemma SortedAppend(x: seq<SeqSpan>, y: seq<SeqSpan>, m: int)
    requires Sorted(x) && Sorted(y)
    requires forall k :: 0 <= k < |x| ==> x[k].to <= m
    requires forall k :: 0 <= k < |y| ==> m + 1 < y[k].from
    ensures Sorted(x + y)
  {
    forall i, j | 0 <= i < j < |x + y| ensures Before((x + y)[i], (x + y)[j]) {
      if j < |x| {
        assert Before(x[i], x[j]);
      } else if i >= |x| {
        assert Before(y[i - |x|], y[j - |x|]);
      } else {
        assert x[i].to <= m && m + 1 < y[j - |x|].from;
      }
    }
  }

  /** The facts about the first span of a sorted list that the proofs below use. */
  lemma SortedHead(s: seq<SeqSpan>)
    requires Sorted(s) && s != []
    ensures forall p :: p in Covered(s) ==> s[0].from <= p
    ensures s[0].to + 1 !in Covered(s)
    ensures forall p :: p in Covered(s[1..]) ==> s[0].to + 1 < p
    ensures Points(s[0]) * Covered(s[1..]) == {}
  {
    var last := s[|s| - 1].to;
    forall j | 0 <= j < |s| ensures s[0].from <= s[j].from && s[j].to <= last {
      if 0 < j {
        assert Before(s[0], s[j]);
      }
      if j < |s| - 1 {
        assert Before(s[j], s[|s| - 1]);
      }
    }
    CoveredBetween(s, s[0].from, last);
    forall j | 0 <= j < |s[1..]| ensures s[0].to + 2 <= s[1..][j].from && s[1..][j].to <= last {
      assert Before(s[0], s[j + 1]);
    }
    CoveredBetween(s[1..], s[0].to + 2, last);
  }

  /** The end of every span, plus one, and its start, minus one, are gaps of a sorted list. */
  lemma GapUncovered(s: seq<SeqSpan>, j: int)
    requires Sorted(s) && 0 <= j < |s|
    ensures s[j].to + 1 !in Covered(s)
    ensures s[j].from - 1 !in Covered(s)
  {
    forall k | 0 <= k < |s|
      ensures !(s[k].from <= s[j].to + 1 <= s[k].to) && !(s[k].from <= s[j].from - 1 <= s[k].to)
    {
      if k < j { assert Before(s[k], s[j]); }
      if k > j { assert Before(s[j], s[k]); }
    }
    CoveredMember(s, s[j].to + 1);
    CoveredMember(s, s[j].from - 1);
  }

  lemma CoveredEmpty(s: seq<SeqSpan>)
    ensures Covered(s) == {} <==> s == []
  {
    if s != [] {
      assert s[0].from in Points(s[0]);
    }
  }

  /** The first start and the last end of a sorted list are its least and greatest points. */
  lemma SortedBounds(s: seq<SeqSpan>)
    requires Sorted(s) && s != []
    ensures s[0].from in Covered(s) && s[|s| - 1].to in Covered(s)
    ensures forall p :: p in Covered(s) ==> s[0].from <= p <= s[|s| - 1].to
  {
    CoveredIncludes(s, 0);
    CoveredIncludes(s, |s| - 1);
    forall j | 0 <= j < |s| ensures s[0].from <= s[j].from && s[j].to <= s[|s| - 1].to {
      if 0 < j { assert Before(s[0], s[j]); }
      if j < |s| - 1 { assert Before(s[j], s[|s| - 1]); }
    }
    CoveredBetween(s, s[0].from, s[|s| - 1].to);
  }

  /** On a sorted list, the lengths add up to the number of covered points. */
  lemma {:induction false} SumIsCardinality(s: seq<SeqSpan>)
    requires Sorted(s)
    ensures SumLengths(s) == |Covered(s)|
  {
    if s != [] {
      SortedHead(s);
      SumIsCardinality(s[1..]);
    }
  }

  /**
   * A sorted list is determined by the points it covers: two sorted lists
   * covering the same points are the same list.
   */
  lemma {:induction false} Canonical(a: seq<SeqSpan>, b: seq<SeqSpan>)
    requires Sorted(a) && Sorted(b) && Covered(a) == Covered(b)
    ensures a == b
    decreases |a|
  {
    CoveredEmpty(a);
    CoveredEmpty(b);
    if a != [] && b != [] {
      SameTail(a, b);
      Canonical(a[1..], b[1..]);
      assert a == [a[0]] + a[1..] && b == [b[0]] + b[1..];
    }
  }

  lemma SameTail(a: seq<SeqSpan>, b: seq<SeqSpan>)
    requires Sorted(a) && Sorted(b) && Covered(a) == Covered(b)
    requires a != [] && b != []
    ensures a[0] == b[0] && Sorted(a[1..]) && Sorted(b[1..]) && Covered(a[1..]) == Covered(b[1..])
  {
    SameHead(a, b);
    TailCovered(a);
    TailCovered(b);
  }

  lemma SameHead(a: seq<SeqSpan>, b: seq<SeqSpan>)
    requires Sorted(a) && Sorted(b) && Covered(a) == Covered(b)
    requires a != [] && b != []
    ensures a[0] == b[0]
  {
    HeadStart(a, b);
    HeadStart(b, a);
    HeadEnd(a, b);
    HeadEnd(b, a);
  }

  /** The first start of a sorted list is its least point, so it is no later than that of a list covering the same points. */
  lemma HeadStart(a: seq<SeqSpan>, b: seq<SeqSpan>)
    requires Sorted(a) && Covered(a) == Covered(b)
    requires a != [] && b != []
    ensures a[0].from <= b[0].from
  {
    SortedHead(a);
    CoveredIncludes(b, 0);
    assert b[0].from in Points(b[0]);
  }

  /** With equal first starts, the first span of `a` cannot run past the gap after that of `b`. */
  lemma HeadEnd(a: seq<SeqSpan>, b: seq<SeqSpan>)
    requires Sorted(b) && Covered(a) == Covered(b)
    requires a != [] && b != [] && a[0].from == b[0].from
    ensures a[0].to <= b[0].to
  {
    GapUncovered(b, 0);
    CoveredIncludes(a, 0);
    assert b[0].to + 1 !in Points(a[0]);
  }

  lemma TailCovered(s: seq<SeqSpan>)
    requires Sorted(s) && s != []
    ensures Covered(s[1..]) == Covered(s) - Points(s[0])
  {
    SortedHead(s);
  }

  /** A span lies inside a sorted list's points exactly when one single span of the list holds it. */
  lemma SupersetCovered(s: seq<SeqSpan>, o: SeqSpan)
    requires Sorted(s)
    ensures (exists j :: 0 <= j < |s| && IsSupersetOf(s[j], o)) <==> Points(o) <= Covered(s)
  {
    if exists j :: 0 <= j < |s| && IsSupersetOf(s[j], o) {
      var j :| 0 <= j < |s| && IsSupersetOf(s[j], o);
      CoveredIncludes(s, j);
    }
    if Points(o) <= Covered(s) {
      assert o.from in Points(o);
      var j := Holder(s, o.from);
      GapUncovered(s, j);
      assert s[j].to + 1 !in Points(o);
      assert IsSupersetOf(s[j], o);
    }
  }

  /** A span meets a list's points exactly when it overlaps one span of the list. */
  lemma OverlapsCovered(s: seq<SeqSpan>, o: SeqSpan)
    ensures (exists j :: 0 <= j < |s| && Overlaps(s[j], o)) <==> Covered(s) * Points(o) != {}
  {
    if exists j :: 0 <= j < |s| && Overlaps(s[j], o) {
      var j :| 0 <= j < |s| && Overlaps(s[j], o);
      CoveredIncludes(s, j);
    }
    if Covered(s) * Points(o) != {} {
      var p :| p in Covered(s) * Points(o);
      CoveredMember(s, p);
      var j :| 0 <= j < |s| && s[j].from <= p <= s[j].to;
      assert p in Points(s[j]) * Points(o);
    }
  }

  /** A list's points lie in a set exactly when each of its spans does. */
  lemma {:induction false} CoveredSubset(s: seq<SeqSpan>, x: set<int>)
    ensures Covered(s) <= x <==> forall j :: 0 <= j < |s| ==> Points(s[j]) <= x
  {
    if s != [] {
      CoveredSubset(s[1..], x);
      if forall j :: 0 <= j < |s| ==> Points(s[j]) <= x {
        forall j | 0 <= j < |s[1..]|
          ensures Points(s[1..][j]) <= x
        {
          assert s[1..][j] == s[j + 1];
        }
      }
      if Covered(s) <= x {
        forall j | 0 < j < |s|
          ensures Points(s[j]) <= x
        {
          assert s[j] == s[1..][j - 1];
        }
      }
    }
  }

  /** A list's points meet a set exactly when one of its spans does. */
  lemma {:induction false} CoveredMeets(s: seq<SeqSpan>, x: set<int>)
    ensures Covered(s) * x != {} <==> exists j :: 0 <= j < |s| && Points(s[j]) * x != {}
  {
    if s != [] {
      CoveredMeets(s[1..], x);
      if exists j :: 0 <= j < |s[1..]| && Points(s[1..][j]) * x != {} {
        var j :| 0 <= j < |s[1..]| && Points(s[1..][j]) * x != {};
        assert s[j + 1] == s[1..][j];
      }
      if exists j :: 0 <= j < |s| && Points(s[j]) * x != {} {
        var j :| 0 <= j < |s| && Points(s[j]) * x != {};
        if j > 0 {
          assert s[1..][j - 1] == s[j];
        }
      }
    }
  }

  // ----- IntersectWith(SeqSpan) -----

  /** Each span of `s` cut down to `o`, and those that miss `o` dropped, in order. */
  function ClipAll(s: seq<SeqSpan>, o: SeqSpan): seq<SeqSpan>
  {
    if s == [] then [] else ClipOne(s[0], o) + ClipAll(s[1..], o)
  }

  /** `x` cut down to `o`, or nothing when it misses `o`. */
  function ClipOne(x: SeqSpan, o: SeqSpan): seq<SeqSpan>
  {
    match Intersect(x, o) case Ok(y) => [y] case Throw(_) => []
  }

  lemma ClipOneCovered(x: SeqSpan, o: SeqSpan)
    ensures Covered(ClipOne(x, o)) == Points(x) * Points(o)
  {
    if Intersect(x, o).Ok? {
      assert ClipOne(x, o)[1..] == [];
    }
  }

  /** One step of `ClipAll` at position `i`, where the span meets `o`. */
  lemma ClipAllKeep(s: seq<SeqSpan>, i: int, o: SeqSpan)
    requires 0 <= i < |s| && Intersect(s[i], o).Ok?
    ensures ClipAll(s[i..], o) == [Intersect(s[i], o).value] + ClipAll(s[i + 1..], o)
  {
    assert s[i..][1..] == s[i + 1..];
  }

  /** One step of `ClipAll` at position `i`, where the span misses `o`. */
  lemma ClipAllSkip(s: seq<SeqSpan>, i: int, o: SeqSpan)
    requires 0 <= i < |s| && Intersect(s[i], o).Throw?
    ensures ClipAll(s[i..], o) == ClipAll(s[i + 1..], o)
  {
    assert s[i..][1..] == s[i + 1..];
  }

  /** Clipping keeps exactly the points inside `o`. */
  lemma {:induction false} ClipAllCovered(s: seq<SeqSpan>, o: SeqSpan)
    ensures Covered(ClipAll(s, o)) == Covered(s) * Points(o)
  {
    if s != [] {
      ClipAllCovered(s[1..], o);
      CoveredConcat(ClipOne(s[0], o), ClipAll(s[1..], o));
      ClipOneCovered(s[0], o);
      assert Covered(s) == Points(s[0]) + Covered(s[1..]);
    }
  }

  /** Every clipped span lies inside `o`, and inside the bounds of the spans it came from. */
  lemma {:induction false} ClipAllWithin(s: seq<SeqSpan>, o: SeqSpan, lo: int, hi: int)
    requires forall j :: 0 <= j < |s| ==> lo <= s[j].from && s[j].to <= hi
    ensures forall k :: 0 <= k < |ClipAll(s, o)| ==>
      var c := ClipAll(s, o)[k];
      lo <= c.from && c.to <= hi && o.from <= c.from && c.to <= o.to
  {
    if s != [] {
      var head := match Intersect(s[0], o) case Ok(x) => [x] case Throw(_) => [];
      ClipAllWithin(s[1..], o, lo, hi);
      if head != [] {
        var c := head[0];
        assert c.from in Points(c) && c.to in Points(c);
      }
    }
  }

  /** Clipping a sorted list leaves it sorted. */
  lemma {:induction false} ClipAllSorted(s: seq<SeqSpan>, o: SeqSpan)
    requires Sorted(s)
    ensures Sorted(ClipAll(s, o))
  {
    if s != [] {
      var head := match Intersect(s[0], o) case Ok(x) => [x] case Throw(_) => [];
      ClipAllSorted(s[1..], o);
      var last := s[|s| - 1].to;
      forall j | 0 <= j < |s[1..]| ensures s[0].to + 2 <= s[1..][j].from && s[1..][j].to <= last {
        assert Before(s[0], s[j + 1]);
        if j + 1 < |s| - 1 { assert Before(s[j + 1], s[|s| - 1]); }
      }
      ClipAllWithin(s[1..], o, s[0].to + 2, last);
      if head != [] {
        var c := head[0];
        assert c.to in Points(c);
      }
      SortedAppend(head, ClipAll(s[1..], o), s[0].to);
    }
  }

  // ----- IntersectWith(Location) -----

  /**
   * The intersection of every span of `a` with every span of `b` that it
   * overlaps, in the order of the nested loops: by `a`, then by `b`.
   */
  function Pairwise(a: seq<SeqSpan>, b: seq<SeqSpan>): seq<SeqSpan>
  {
    if a == [] then [] else ClipAll(b, a[0]) + Pairwise(a[1..], b)
  }

  /** One step of `Pairwise` taken at position `i`. */
  lemma PairwiseAt(a: seq<SeqSpan>, i: int, b: seq<SeqSpan>)
    requires 0 <= i < |a|
    ensures Pairwise(a[i..], b) == ClipAll(b, a[i]) + Pairwise(a[i + 1..], b)
  {
    assert a[i..][1..] == a[i + 1..];
  }

  /** The pairwise intersections cover exactly the common points: A ∩ (∪ Bi) = ∪ (A ∩ Bi). */
  lemma {:induction false} PairwiseCovered(a: seq<SeqSpan>, b: seq<SeqSpan>)
    ensures Covered(Pairwise(a, b)) == Covered(a) * Covered(b)
  {
    if a != [] {
      PairwiseCovered(a[1..], b);
      ClipAllCovered(b, a[0]);
      CoveredConcat(ClipAll(b, a[0]), Pairwise(a[1..], b));
    }
  }

  lemma {:induction false} PairwiseWithin(a: seq<SeqSpan>, b: seq<SeqSpan>, lo: int, hi: int)
    requires forall j :: 0 <= j < |a| ==> lo <= a[j].from && a[j].to <= hi
    ensures forall k :: 0 <= k < |Pairwise(a, b)| ==>
      lo <= Pairwise(a, b)[k].from && Pairwise(a, b)[k].to <= hi
  {
    if a != [] {
      PairwiseWithin(a[1..], b, lo, hi);
      ClipAllWithinOnly(b, a[0]);
    }
  }

  lemma {:induction false} ClipAllWithinOnly(s: seq<SeqSpan>, o: SeqSpan)
    ensures forall k :: 0 <= k < |ClipAll(s, o)| ==>
      o.from <= ClipAll(s, o)[k].from && ClipAll(s, o)[k].to <= o.to
  {
    if s != [] {
      var head := match Intersect(s[0], o) case Ok(x) => [x] case Throw(_) => [];
      ClipAllWithinOnly(s[1..], o);
      if head != [] {
        var c := head[0];
        assert c.from in Points(c) && c.to in Points(c);
      }
    }
  }

  /** The pairwise intersections of two sorted lists come out sorted. */
  lemma {:induction false} PairwiseSorted(a: seq<SeqSpan>, b: seq<SeqSpan>)
    requires Sorted(a) && Sorted(b)
    ensures Sorted(Pairwise(a, b))
  {
    if a != [] {
      PairwiseSorted(a[1..], b);
      ClipAllSorted(b, a[0]);
      ClipAllWithinOnly(b, a[0]);
      var last := a[|a| - 1].to;
      forall j | 0 <= j < |a[1..]| ensures a[0].to + 2 <= a[1..][j].from && a[1..][j].to <= last {
        assert Before(a[0], a[j + 1]);
        if j + 1 < |a| - 1 { assert Before(a[j + 1], a[|a| - 1]); }
      }
      PairwiseWithin(a[1..], b, a[0].to + 2, last);
      SortedAppend(ClipAll(b, a[0]), Pairwise(a[1..], b), a[0].to);
    }
  }
}
