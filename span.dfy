/**
 * `SeqSpan`: an immutable closed integer interval [from, to] with from <= to.
 * Every predicate on spans is given its meaning over `Points`, the set of
 * integers the span covers.
 */
module Spans {
  import opened Exceptions

  /** The two endpoints of an interval, in whatever order they were given. */
  datatype Endpoints = Endpoints(from: int, to: int)

  /** A span: its endpoints are in order, as the struct's constructor guarantees. */
  type SeqSpan = e: Endpoints | e.from <= e.to witness Endpoints(0, 0)

  /**
   * The integers from `lo` to `hi`, both included. `Between` repeats the
   * bounds as a named predicate so that membership has a term to trigger on.
   */
  ghost function Range(lo: int, hi: int): set<int>
  {
    set p | lo <= p <= hi && Between(lo, p, hi)
  }

  predicate Between(lo: int, p: int, hi: int)
  {
    lo <= p <= hi
  }

  /** A range of integers holds one element per integer in it. */
  lemma {:induction false} RangeSize(lo: int, hi: int)
    requires lo <= hi + 1
    ensures |Range(lo, hi)| == hi - lo + 1
    decreases hi - lo
  {
    if lo <= hi {
      RangeSize(lo, hi - 1);
      var smaller := Range(lo, hi - 1);
      forall p ensures p in Range(lo, hi) <==> p in smaller + {hi} {
        assert p in Range(lo, hi) <==> Between(lo, p, hi);
        assert p in smaller <==> Between(lo, p, hi - 1);
      }
      assert Range(lo, hi) == smaller + {hi};
      assert hi !in smaller;
    } else {
      assert Range(lo, hi) == {};
    }
  }

  /** The integer points covered by `s`. */
  ghost function Points(s: SeqSpan): (r: set<int>)
    ensures |r| == s.to - s.from + 1
  {
    RangeSize(s.from, s.to);
    Range(s.from, s.to)
  }

  /** The constructor `new SeqSpan(from, to)`: the same two endpoints, put in order. */
  function Span(a: int, b: int): (s: SeqSpan)
    ensures (s.from == a && s.to == b) || (s.from == b && s.to == a)
  {
    Endpoints(Min(a, b), Max(a, b))
  }

  /** `Length`: the number of points the span covers, never less than one. */
  function Length(s: SeqSpan): (n: int)
    ensures n >= 1
    ensures n == |Points(s)|
  {
    s.to - s.from + 1
  }

  /** `Equals`: structural equality, which is exactly equality of the covered points. */
  function Equals(a: SeqSpan, b: SeqSpan): (r: bool)
    ensures r <==> Points(a) == Points(b)
  {
    assert a.from in Points(a) && a.to in Points(a);
    assert b.from in Points(b) && b.to in Points(b);
    a.from == b.from && a.to == b.to
  }

  function Contains(s: SeqSpan, point: int): (r: bool)
    ensures r <==> point in Points(s)
  {
    s.from <= point <= s.to
  }

  /** `Overlaps`: the two spans share at least one point. */
  function Overlaps(a: SeqSpan, b: SeqSpan): (r: bool)
    ensures r <==> Points(a) * Points(b) != {}
  {
    var r := a.from <= b.to && b.from <= a.to;
    assert r ==> Max(a.from, b.from) in Points(a) * Points(b);
    r
  }

  /** `IsNeighbor`: the spans are disjoint, and together they cover one gapless interval. */
  function IsNeighbor(a: SeqSpan, b: SeqSpan): (r: bool)
    ensures r <==> Points(a) * Points(b) == {} && Points(a) + Points(b) == Points(Union(a, b))
  {
    AdjacentIff(a, b);
    a.to + 1 == b.from || b.to + 1 == a.from
  }

  lemma AdjacentIff(a: SeqSpan, b: SeqSpan)
    ensures (a.to + 1 == b.from || b.to + 1 == a.from)
        <==> Points(a) * Points(b) == {} && Points(a) + Points(b) == Points(Union(a, b))
  {
    if a.to + 1 == b.from || b.to + 1 == a.from {
      AdjacentExact(a, b);
    } else if Points(a) * Points(b) == {} {
      GapMissing(a, b);
    }
  }

  /** Touching spans share no point, and together fill their union. */
  lemma AdjacentExact(a: SeqSpan, b: SeqSpan)
    requires a.to + 1 == b.from || b.to + 1 == a.from
    ensures Points(a) * Points(b) == {} && Points(a) + Points(b) == Points(Union(a, b))
  {
    var u := Union(a, b);
    forall p ensures p in Points(a) + Points(b) <==> u.from <= p <= u.to {
    }
    forall p | p in Points(a) ensures p !in Points(b) {
    }
  }

  /** Disjoint spans that do not touch leave a gap inside their union. */
  lemma GapMissing(a: SeqSpan, b: SeqSpan)
    requires !(a.to + 1 == b.from || b.to + 1 == a.from) && Points(a) * Points(b) == {}
    ensures Points(a) + Points(b) != Points(Union(a, b))
  {
    assert a.from in Points(a) && b.from in Points(b);
    assert a.from !in Points(a) * Points(b) && b.from !in Points(a) * Points(b);
    var g := if a.to < b.from then a.to + 1 else b.to + 1;
    assert g in Points(Union(a, b)) && g !in Points(a) + Points(b);
  }

  /** `IsSupersetOf`: every point of `b` is a point of `a`. */
  function IsSupersetOf(a: SeqSpan, b: SeqSpan): (r: bool)
    ensures r <==> Points(b) <= Points(a)
  {
    assert b.from in Points(b) && b.to in Points(b);
    a.from <= b.from && b.to <= a.to
  }

  /** `IsSubsetOf`: the converse of `IsSupersetOf`. */
  function IsSubsetOf(a: SeqSpan, b: SeqSpan): (r: bool)
    ensures r == IsSupersetOf(b, a)
    ensures r <==> Points(a) <= Points(b)
  {
    IsSupersetOf(b, a)
  }

  /**
   * `Union`: the smallest span holding both arguments. It is defined even for
   * spans far apart, in which case it also covers the gap between them.
   */
  function Union(a: SeqSpan, b: SeqSpan): (r: SeqSpan)
    ensures Points(a) + Points(b) <= Points(r)
    ensures r.from in Points(a) + Points(b) && r.to in Points(a) + Points(b)
  {
    assert a.from in Points(a) && b.from in Points(b);
    assert a.to in Points(a) && b.to in Points(b);
    Span(Min(a.from, b.from), Max(a.to, b.to))
  }

  /**
   * `Intersect`: the common points of the two spans; throws `ArgumentException`
   * when they have none.
   */
  function Intersect(a: SeqSpan, b: SeqSpan): (r: Result<SeqSpan>)
    ensures r.Throw? <==> Points(a) * Points(b) == {}
    ensures r.Throw? ==> r.exception == ArgumentException
    ensures r.Ok? ==> Points(r.value) == Points(a) * Points(b)
  {
    if !Overlaps(a, b) then
      Throw(ArgumentException)
    else
      Ok(Span(Max(a.from, b.from), Min(a.to, b.to)))
  }

  /** The arguments of `Intersect` may be given in either order. */
  lemma IntersectSymmetric(a: SeqSpan, b: SeqSpan)
    ensures Intersect(a, b) == Intersect(b, a)
  {
  }

  /** `Int32.CompareTo`: the sign of `x - y`. */
  function CompareInt(x: int, y: int): int
  {
    if x < y then -1 else if x > y then 1 else 0
  }

  /**
   * `CompareTo`: ascending by `from`, and for equal starts the longer span
   * first (descending by `to`). Zero exactly for equal spans.
   */
  function CompareTo(a: SeqSpan, b: SeqSpan): (r: int)
    ensures -1 <= r <= 1
    ensures r == 0 <==> Equals(a, b)
    ensures r < 0 <==> a.from < b.from || (a.from == b.from && a.to > b.to)
  {
    var fromComp := CompareInt(a.from, b.from);
    if fromComp != 0 then fromComp else CompareInt(b.to, a.to)
  }

  lemma CompareToAntisymmetric(a: SeqSpan, b: SeqSpan)
    ensures CompareTo(a, b) == -CompareTo(b, a)
  {
  }

  lemma CompareToTransitive(a: SeqSpan, b: SeqSpan, c: SeqSpan)
    requires CompareTo(a, b) < 0 && CompareTo(b, c) < 0
    ensures CompareTo(a, c) < 0
  {
  }

  /** Among spans with the same start, the one that sorts first is the superset. */
  lemma CompareToSameStart(a: SeqSpan, b: SeqSpan)
    requires a.from == b.from
    ensures CompareTo(a, b) <= 0 <==> IsSupersetOf(a, b)
  {
  }

  /** Merging two spans loses nothing exactly when they overlap or touch. */
  lemma CanMergeIff(a: SeqSpan, b: SeqSpan)
    ensures (Overlaps(a, b) || IsNeighbor(a, b)) <==> Points(a) + Points(b) == Points(Union(a, b))
  {
    if Points(a) + Points(b) == Points(Union(a, b)) && !Overlaps(a, b) {
      assert IsNeighbor(a, b);
    }
    if Overlaps(a, b) {
      forall p | p in Points(Union(a, b)) ensures p in Points(a) + Points(b) {
      }
    }
  }
}
