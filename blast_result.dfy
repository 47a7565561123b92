/**
 * The numbers a BLAST result shows: per HSP (`SegmentPair`), the scale strings
 * printed above the aligned sequences and the small view properties; per
 * hit, the fold of its HSPs into two `Location`s and the best scores. The
 * values read from the XML report are parameters here.
 */
module BlastResults {
  import opened Exceptions
  import opened Spans
  import opened SpanLists
  import opened Locations

  /** `double.MaxValue`, the largest finite double: (2 - 2^-52) * 2^1023. */
  const DoubleMax: real := 179769313486231570814527423731704356798070567525844996598917476803157260780028538760589558632766878171540458953514382464234321326889464182768467546703537516986049910576551282076245490090389328944075868508455133942304583236903222948165808559332123348274797826204144723168738177180919299881250404026184124858368.0

  /** A finite double, taken as its exact value. */
  type Double = x: real | -DoubleMax <= x <= DoubleMax

  // ---------------------------------------------------------------------
  // Scale marks
  // ---------------------------------------------------------------------

  /** C#'s `%` on `int`: the remainder takes the sign of the dividend. */
  function CsRemainder(a: int, b: int): (r: int)
    requires b > 0
    ensures a >= 0 ==> r == a % b
    ensures a < 0 ==> -b < r <= 0
  {
    if a >= 0 then a % b else -((-a) % b)
  }

  /**
   * The remainder differs from the dividend by a multiple of the divisor: with
   * the sign bound above, this pins it down for negative dividends too.
   */
  lemma CsRemainderCongruent(a: int, b: int)
    requires b > 0
    ensures (a - CsRemainder(a, b)) % b == 0
  {
    var q := if a >= 0 then a / b else -((-a) / b);
    assert a - CsRemainder(a, b) == b * q;
    ModMultiple(b, q);
  }

  /** A multiple of `b` leaves no remainder. */
  lemma ModMultiple(b: int, q: int)
    requires b > 0
    ensures (b * q) % b == 0
  {
    var x := b * q;
    var d := x / b;
    assert x == b * d + x % b;
    assert b * q - b * d == b * (q - d);
    MulBounds(b, q - d);
  }

  lemma MulBounds(b: int, k: int)
    requires b > 0
    ensures k > 0 ==> b * k >= b
    ensures k < 0 ==> b * k <= -b
  {
  }

  /** The test `i % 100 == 1` that starts a mark. */
  predicate IsMarkPoint(i: int)
  {
    CsRemainder(i, 100) == 1
  }

  /** Only positive positions one past a multiple of 100 carry a mark. */
  lemma MarkPointIff(i: int)
    ensures IsMarkPoint(i) <==> i >= 1 && i % 100 == 1
  {
  }

  function Digit(d: int): (c: char)
    requires 0 <= d < 10
    ensures '0' <= c <= '9' && c as int - '0' as int == d
  {
    ('0' as int + d) as char
  }

  /** `Int32.ToString()` of a non-negative number: its decimal digits, most significant first. */
  function Decimal(n: nat): (r: string)
    ensures |r| >= 1
    ensures forall k :: 0 <= k < |r| ==> '0' <= r[k] <= '9'
    ensures n == 0 ==> r == "0"
    ensures n != 0 ==> r[0] != '0'
  {
    if n < 10 then [Digit(n)] else Decimal(n / 10) + [Digit(n % 10)]
  }

  /** Digits without a leading zero. */
  predicate Canonical(s: string)
  {
    && |s| >= 1
    && (forall k :: 0 <= k < |s| ==> '0' <= s[k] <= '9')
    && (|s| > 1 ==> s[0] != '0')
  }

  /** The number a string of decimal digits denotes. */
  function DecimalValue(s: string): int
  {
    if s == [] then 0 else 10 * DecimalValue(s[..|s| - 1]) + (s[|s| - 1] as int - '0' as int)
  }

  /** Reading the digits back gives the number. */
  lemma {:induction false} DecimalRoundTrip(n: nat)
    ensures DecimalValue(Decimal(n)) == n
  {
    var r := Decimal(n);
    if n >= 10 {
      DecimalRoundTrip(n / 10);
      assert r[..|r| - 1] == Decimal(n / 10);
    }
  }

  /** Any digit string without a leading zero is the text of the number it denotes: `Decimal` is the only such text. */
  lemma {:induction false} DecimalCanonical(s: string)
    requires Canonical(s)
    ensures DecimalValue(s) >= 0 && Decimal(DecimalValue(s)) == s
    decreases |s|
  {
    var c := s[|s| - 1];
    var d := c as int - '0' as int;
    var front := s[..|s| - 1];
    var n := DecimalValue(s);
    assert n == 10 * DecimalValue(front) + d;
    if |s| == 1 {
      assert n == d;
      assert Decimal(d) == [Digit(d)] && Digit(d) == c;
      assert s == [c];
    } else {
      assert Canonical(front) by {
        assert front[0] == s[0];
      }
      DecimalCanonical(front);
      DecimalLeading(front);
      DecimalAppend(n, DecimalValue(front), c);
      SplitLast(s);
    }
  }

  /** A non-empty sequence is its front followed by its last element. */
  lemma SplitLast<T>(s: seq<T>)
    requires |s| >= 1
    ensures s == s[..|s| - 1] + [s[|s| - 1]]
  {
  }

  /** Appending a digit to the text of a positive number gives the text of ten times it plus the digit. */
  lemma DecimalAppend(n: nat, v: nat, c: char)
    requires v >= 1 && '0' <= c <= '9' && n == 10 * v + (c as int - '0' as int)
    ensures Decimal(n) == Decimal(v) + [c]
  {
    var d := c as int - '0' as int;
    assert n / 10 == v && n % 10 == d;
    assert Digit(d) == c;
  }

  /** Digits that start with a non-zero digit denote a positive number. */
  lemma {:induction false} DecimalLeading(s: string)
    requires |s| >= 1 && s[0] != '0' && forall k :: 0 <= k < |s| ==> '0' <= s[k] <= '9'
    ensures DecimalValue(s) >= 1
    decreases |s|
  {
    if |s| > 1 {
      var front := s[..|s| - 1];
      assert front[0] == s[0];
      DecimalLeading(front);
    } else {
      assert DecimalValue(s) == 10 * DecimalValue([]) + (s[0] as int - '0' as int);
    }
  }

  function Pow10(k: nat): (p: nat)
    ensures p >= 1
  {
    if k == 0 then 1 else 10 * Pow10(k - 1)
  }

  /** A number below 10^k has at most k digits. */
  lemma {:induction false} DecimalShort(n: nat, k: nat)
    requires 1 <= k && n < Pow10(k)
    ensures |Decimal(n)| <= k
  {
    if n >= 10 {
      assert Pow10(1) == 10;
      assert k >= 2;
      assert n / 10 < Pow10(k - 1);
      DecimalShort(n / 10, k - 1);
    }
  }

  /** The text `"|" + i` written at mark point `i`. */
  function Mark(i: int): (r: string)
    requires i >= 1
    ensures |r| >= 2 && r[0] == '|'
    ensures forall k :: 1 <= k < |r| ==> '0' <= r[k] <= '9'
  {
    "|" + Decimal(i)
  }

  /** A mark of an `int` position takes at most eleven characters. */
  lemma MarkLength(i: int)
    requires 1 <= i <= Int32Max
    ensures |Mark(i)| <= 11
  {
    assert Pow10(10) == 10000000000;
    DecimalShort(i, 10);
  }

  /** The nearest position at or before `q` whose remainder by 100 is 1. */
  function MarkBase(q: int): (m: int)
    ensures m <= q < m + 100 && m % 100 == 1
  {
    q - (q - 1) % 100
  }

  /** Positions up to 99 after a mark point belong to it. */
  lemma MarkBaseAfter(p: int, j: int)
    requires p % 100 == 1 && 0 <= j < 100
    ensures MarkBase(p + j) == p
  {
    assert (p + j - 1) % 100 == j;
  }

  /** The character the scale shows at position `q` when the loop runs from `from` to `to`. */
  function ScaleChar(from: int, to: int, q: int): char
  {
    var m := MarkBase(q);
    if 1 <= m && from <= m <= to && q - m < |Mark(m)| then Mark(m)[q - m] else ' '
  }

  /** Position `i` does not fall strictly inside a mark the loop wrote. */
  predicate Aligned(from: int, to: int, i: int)
  {
    var m := MarkBase(i);
    !(1 <= m && from <= m <= to && m < i && i - m < |Mark(m)|)
  }

  /** Where the loop stops: just after `to`, or after the last mark when that runs past `to`. */
  function ScaleEnd(from: int, to: int): (e: int)
    ensures to + 1 <= e
    ensures to + 1 < e ==> MarkBase(to) >= 1 && from <= MarkBase(to) && e == MarkBase(to) + |Mark(MarkBase(to))|
  {
    var m := MarkBase(to);
    if 1 <= m && from <= m && to + 1 < m + |Mark(m)| then m + |Mark(m)| else to + 1
  }

  /** The scale string for the positions `from` to `to`, character by character. */
  function ScaleMarkText(from: int, to: int): (s: string)
  {
    if from > to then "" else seq(ScaleEnd(from, to) - from, k => ScaleChar(from, to, from + k))
  }

  /** The scale's characters, one position at a time. */
  lemma TextAt(from: int, to: int, k: int)
    requires 0 <= k < |ScaleMarkText(from, to)|
    ensures from <= to && |ScaleMarkText(from, to)| == ScaleEnd(from, to) - from
    ensures ScaleMarkText(from, to)[k] == ScaleChar(from, to, from + k)
  {
  }

  /** A string that agrees with the scale at every position, and has its length, is the scale. */
  lemma TextFrom(from: int, to: int, t: string)
    requires from <= to && |t| == ScaleEnd(from, to) - from
    requires forall k :: 0 <= k < |t| ==> t[k] == ScaleChar(from, to, from + k)
    ensures t == ScaleMarkText(from, to)
  {
    var s := ScaleMarkText(from, to);
    assert |s| == |t|;
    forall k | 0 <= k < |t|
      ensures s[k] == t[k]
    {
      TextAt(from, to, k);
    }
  }

  /** The characters the scale shows from mark point `p` on are those of its mark. */
  lemma MarkChars(from: int, to: int, p: int)
    requires 1 <= p <= Int32Max && p % 100 == 1 && from <= p <= to
    ensures forall j :: 0 <= j < |Mark(p)| ==> ScaleChar(from, to, p + j) == Mark(p)[j]
  {
    forall j | 0 <= j < |Mark(p)|
      ensures ScaleChar(from, to, p + j) == Mark(p)[j]
    {
      MarkCharAt(from, to, p, j);
    }
  }

  lemma MarkCharAt(from: int, to: int, p: int, j: int)
    requires 1 <= p <= Int32Max && p % 100 == 1 && from <= p <= to && 0 <= j < |Mark(p)|
    ensures ScaleChar(from, to, p + j) == Mark(p)[j]
  {
    MarkLength(p);
    MarkBaseAfter(p, j);
  }

  /** Just after a mark the loop is outside every mark. */
  lemma MarkAligned(from: int, to: int, p: int)
    requires 1 <= p <= Int32Max && p % 100 == 1
    ensures Aligned(from, to, p + |Mark(p)|)
  {
    MarkLength(p);
    MarkBaseAfter(p, |Mark(p)|);
  }

  /** A mark that runs past `to` is where the loop stops. */
  lemma MarkEnd(from: int, to: int, p: int)
    requires 1 <= p <= Int32Max && p % 100 == 1 && from <= p <= to && to + 1 < p + |Mark(p)|
    ensures p + |Mark(p)| == ScaleEnd(from, to)
  {
    MarkLength(p);
    MarkBaseAfter(p, to - p);
  }

  /** Outside a mark the loop writes a space and stays outside marks. */
  lemma SpaceWritten(from: int, to: int, i: int)
    requires Aligned(from, to, i) && !IsMarkPoint(i)
    ensures ScaleChar(from, to, i) == ' '
    ensures Aligned(from, to, i + 1)
  {
    MarkPointIff(i);
    var m := MarkBase(i);
    if m + 100 == i + 1 {
      MarkBaseAfter(i + 1, 0);
    } else {
      MarkBaseAfter(m, i + 1 - m);
    }
  }

  /** A loop that stops right after `to`, not inside a mark, ends where `ScaleEnd` says. */
  lemma StopAligned(from: int, to: int)
    requires to <= Int32Max && Aligned(from, to, to + 1)
    ensures ScaleEnd(from, to) == to + 1
  {
    var m := MarkBase(to);
    if m + 100 != to + 1 {
      MarkBaseAfter(m, to + 1 - m);
    } else if 1 <= m {
      MarkLength(m);
    }
  }

  /** The loop's invariant: `sb` holds the scale's first `i - from` characters, and `i` is outside every mark. */
  ghost predicate Written(from: int, to: int, i: int, sb: string)
  {
    && from <= i
    && |sb| == i - from && (to < from ==> sb == [])
    && (forall k :: 0 <= k < |sb| ==> sb[k] == ScaleChar(from, to, from + k))
    && Aligned(from, to, i)
    && (from <= to ==> i <= to + 1 || i == ScaleEnd(from, to))
  }

  /** Writing the mark at a mark point keeps the invariant. */
  lemma MarkStep(from: int, to: int, i: int, sb: string)
    requires to <= Int32Max && Written(from, to, i, sb) && i <= to && IsMarkPoint(i)
    ensures Written(from, to, i + |Mark(i)|, sb + Mark(i))
  {
    MarkPointIff(i);
    MarkLength(i);
    MarkChars(from, to, i);
    MarkAligned(from, to, i);
    if to + 1 < i + |Mark(i)| {
      MarkEnd(from, to, i);
    }
    Agrees(from, to, i, sb, Mark(i));
  }

  /** Two pieces that each match the scale at their positions match it together. */
  lemma Agrees(from: int, to: int, i: int, sb: string, t: string)
    requires i == from + |sb|
    requires forall k :: 0 <= k < |sb| ==> sb[k] == ScaleChar(from, to, from + k)
    requires forall j :: 0 <= j < |t| ==> ScaleChar(from, to, i + j) == t[j]
    ensures forall k :: 0 <= k < |sb + t| ==> (sb + t)[k] == ScaleChar(from, to, from + k)
  {
    forall k | 0 <= k < |sb + t|
      ensures (sb + t)[k] == ScaleChar(from, to, from + k)
    {
      if k >= |sb| {
        assert ScaleChar(from, to, i + (k - |sb|)) == t[k - |sb|];
      }
    }
  }

  /** Writing a space elsewhere keeps the invariant. */
  lemma SpaceStep(from: int, to: int, i: int, sb: string)
    requires to <= Int32Max && Written(from, to, i, sb) && i <= to && !IsMarkPoint(i)
    ensures Written(from, to, i + 1, sb + " ")
  {
    SpaceWritten(from, to, i);
  }

  /** Once past `to`, what the loop wrote is the scale. */
  lemma Finished(from: int, to: int, i: int, sb: string)
    requires to <= Int32Max && Written(from, to, i, sb) && to < i
    ensures sb == ScaleMarkText(from, to)
  {
    if from <= to {
      if i == to + 1 {
        StopAligned(from, to);
      }
      TextFrom(from, to, sb);
    }
  }

  /**
   * The `StringBuilder` loop of the `SegmentPair` constructor: from `from` to
   * `to`, a mark point gets `"|" + i` and the loop skips past it; any other
   * position gets a space. The counter does not wrap: for `to < Int32Max` it
   * takes the steps of the source's `int` counter (`CounterStep`), and for
   * `to == Int32Max` it ends where the source's loop never does.
   */
  method ScaleMark(from: Int32, to: Int32) returns (s: string)
    ensures s == ScaleMarkText(from, to)
  {
    var sb: string := [];
    var i: int := from;
    while i <= to
      invariant Written(from, to, i, sb)
      decreases (to as int) - i
    {
      if CsRemainder(i, 100) == 1 {
        MarkStep(from, to, i, sb);
        var mark := "|" + Decimal(i);
        sb := sb + mark;
        i := i + |mark|;
      } else {
        SpaceStep(from, to, i, sb);
        sb := sb + " ";
        i := i + 1;
      }
    }
    Finished(from, to, i, sb);
    s := sb;
  }

  /**
   * The source's update of its `int` counter: past the mark at a mark point,
   * one on elsewhere, in unchecked 32-bit arithmetic. Below `Int32Max` it
   * never wraps, since the last mark point, 2147483601, has an eleven-character
   * mark; from `Int32Max` it wraps to `Int32Min`.
   */
  function CounterStep(i: Int32): (r: Int32)
    ensures i < Int32Max ==> r == i + if IsMarkPoint(i) then |Mark(i)| else 1
    ensures i == Int32Max ==> r == Int32Min
  {
    MarkPointIff(i);
    if IsMarkPoint(i) then
      LastMarkPoint(i);
      MarkLength(i);
      Wrap32(i + |Mark(i)|)
    else
      Wrap32(i + 1)
  }

  /** No `int` mark point lies above 2147483601. */
  lemma LastMarkPoint(i: Int32)
    requires i >= 1 && i % 100 == 1
    ensures i <= 2147483601
  {
  }

  /**
   * The source's loop `for (int i = from; i <= to;)` with `to == Int32Max`:
   * the step from `Int32Max` lands on `Int32Min`, and `Int32Min <= to` is the
   * loop test, which therefore never fails. Each pass appends at least one
   * character, so the constructor ends in an exception from the growing
   * `StringBuilder`, not in a normal return.
   */
  lemma ScaleLoopWrapsAtMax()
    ensures CounterStep(Int32Max) == Int32Min <= Int32Max
  {
  }

  /** The scale covers every position from `from` to `to`, and at most ten more. */
  lemma ScaleMarkLength(from: int, to: int)
    requires from <= to <= Int32Max
    ensures to - from + 1 <= |ScaleMarkText(from, to)| <= to - from + 11
  {
    var e := ScaleEnd(from, to);
    if to + 1 < e {
      MarkLength(MarkBase(to));
    }
  }

  /** A bar appears exactly at the mark points between `from` and `to`. */
  lemma ScaleMarkBar(from: int, to: int, k: int)
    requires 0 <= k < |ScaleMarkText(from, to)|
    ensures ScaleMarkText(from, to)[k] == '|' <==> IsMarkPoint(from + k) && from + k <= to
  {
    TextAt(from, to, k);
    CharBar(ScaleMarkText(from, to)[k], from, to, from + k);
  }

  /** The scale shows `'|'` at position `q` exactly when `q` is a mark point the loop reached. */
  lemma CharBar(c: char, from: int, to: int, q: int)
    requires c == ScaleChar(from, to, q)
    ensures c == '|' <==> IsMarkPoint(q) && from <= q <= to
  {
    var m := MarkBase(q);
    MarkPointIff(q);
    if m == q {
      assert q % 100 == 1;
    } else if 1 <= m && from <= m <= to && q - m < |Mark(m)| {
      assert 1 <= q - m;
      assert '0' <= Mark(m)[q - m] <= '9';
      assert (q - 1) % 100 != 0;
    } else {
      assert (q - 1) % 100 != 0;
    }
  }

  /** At each mark point between `from` and `to`, the whole of `"|" + p` sits at offset `p - from`. */
  lemma ScaleMarkPlaced(from: int, to: int, p: int)
    requires 1 <= p <= Int32Max && IsMarkPoint(p) && from <= p <= to
    ensures p - from + |Mark(p)| <= |ScaleMarkText(from, to)|
    ensures ScaleMarkText(from, to)[p - from..p - from + |Mark(p)|] == Mark(p)
  {
    MarkFits(from, to, p);
    MarkChars(from, to, p);
    TextSlice(from, to, p, Mark(p));
  }

  /** A piece that matches the scale from position `p` on, and ends before the loop stops, is a slice of it. */
  lemma TextSlice(from: int, to: int, p: int, t: string)
    requires from <= p <= to && p + |t| <= ScaleEnd(from, to)
    requires forall j :: 0 <= j < |t| ==> ScaleChar(from, to, p + j) == t[j]
    ensures p - from + |t| <= |ScaleMarkText(from, to)|
    ensures ScaleMarkText(from, to)[p - from..p - from + |t|] == t
  {
    var s := ScaleMarkText(from, to);
    assert |s| == ScaleEnd(from, to) - from;
    forall j | 0 <= j < |t|
      ensures s[p - from + j] == t[j]
    {
      var k := p - from + j;
      TextAt(from, to, k);
      assert from + k == p + j;
    }
    SliceIs(s, p - from, t);
  }

  /** A mark between `from` and `to` ends before the loop stops. */
  lemma MarkFits(from: int, to: int, p: int)
    requires 1 <= p <= Int32Max && IsMarkPoint(p) && from <= p <= to
    ensures p + |Mark(p)| <= ScaleEnd(from, to)
  {
    MarkPointIff(p);
    if to + 1 < p + |Mark(p)| {
      MarkEnd(from, to, p);
    }
  }

  lemma SliceIs(s: string, o: int, t: string)
    requires 0 <= o && o + |t| <= |s|
    requires forall j :: 0 <= j < |t| ==> s[o + j] == t[j]
    ensures s[o..o + |t|] == t
  {
  }

  /** A position no mark point from `from` to `to` reaches is a space. */
  lemma ScaleMarkSpace(from: int, to: int, k: int)
    requires 0 <= k < |ScaleMarkText(from, to)|
    requires forall p :: from <= p <= to && 1 <= p <= from + k && p % 100 == 1 ==> from + k >= p + |Mark(p)|
    ensures ScaleMarkText(from, to)[k] == ' '
  {
    var q := from + k;
    TextAt(from, to, k);
    var m := MarkBase(q);
    if 1 <= m && from <= m <= to {
      assert q >= m + |Mark(m)|;
    }
  }

  // ---------------------------------------------------------------------
  // SegmentPair
  // ---------------------------------------------------------------------

  /** The score thresholds of the bit-score colour levels. */
  const Thresholds: seq<real> := [40.0, 50.0, 80.0, 200.0]

  /** One HSP of a hit, with the fields the model uses. */
  datatype SegmentPair = SegmentPair(
    index: Int32, bitScore: Double, eValue: Double,
    queryFrom: Int32, queryTo: Int32, hitFrom: Int32, hitTo: Int32, alignLength: Int32,
    queryScaleMark: string, hitScaleMark: string)
  {
    /** The query range as a span, endpoints put in order. */
    function QuerySpan(): SeqSpan
    {
      Span(queryFrom, queryTo)
    }

    /** The hit range as a span, endpoints put in order. */
    function HitSpan(): SeqSpan
    {
      Span(hitFrom, hitTo)
    }

    /** `ZIndex`: the negated index, so that earlier HSPs draw on top. */
    function ZIndex(): (z: Int32)
      ensures index != Int32Min ==> z + index == 0
      ensures index == Int32Min ==> z == Int32Min
    {
      Wrap32(-(index as int))
    }

    /** `QueryWidth`: `QueryTo - QueryFrom + 1` in unchecked 32-bit arithmetic. */
    function QueryWidth(): (w: Int32)
      ensures queryFrom <= queryTo && queryTo - queryFrom < Int32Max ==> w == |Points(QuerySpan())|
      ensures queryTo < queryFrom && Int32Min <= queryTo - queryFrom + 1 ==> w == 2 - |Points(QuerySpan())| && w <= 0
    {
      Wrap32(queryTo as int - queryFrom as int + 1)
    }

    /** `BitScoreLevel`: how many of the thresholds 40, 50, 80 and 200 the score reaches. */
    function BitScoreLevel(): (level: int)
      ensures 0 <= level <= |Thresholds|
      ensures forall k :: 0 <= k < |Thresholds| ==> (level > k <==> bitScore >= Thresholds[k])
    {
      if bitScore < 40.0 then 0
      else if bitScore < 50.0 then 1
      else if bitScore < 80.0 then 2
      else if bitScore < 200.0 then 3
      else 4
    }
  }

  /** Negating the index reverses the drawing order of any two HSPs. */
  lemma ZIndexReversesOrder(a: SegmentPair, b: SegmentPair)
    requires a.index != Int32Min && b.index != Int32Min
    ensures a.index < b.index <==> a.ZIndex() > b.ZIndex()
  {
  }

  /** A higher bit score never gets a lower level. */
  lemma BitScoreLevelMonotone(a: SegmentPair, b: SegmentPair)
    requires a.bitScore <= b.bitScore
    ensures a.BitScoreLevel() <= b.BitScoreLevel()
  {
  }

  /** The fields of one `Hsp` element that the `SegmentPair` constructor reads and the model uses. */
  datatype HspRecord = HspRecord(
    index: Int32, bitScore: Double, eValue: Double,
    queryFrom: Int32, queryTo: Int32, hitFrom: Int32, hitTo: Int32, alignLength: Int32)

  /** `new StringBuilder(AlignLength + 10)` refuses a capacity that is negative in 32 bits. */
  predicate CapacityFails(h: HspRecord)
  {
    Wrap32(h.alignLength as int + 10) < 0
  }

  /** The segment pair built from a record whose capacity is accepted. */
  function Built(h: HspRecord): SegmentPair
  {
    SegmentPair(h.index, h.bitScore, h.eValue, h.queryFrom, h.queryTo, h.hitFrom, h.hitTo, h.alignLength,
                ScaleMarkText(h.queryFrom, h.queryTo), ScaleMarkText(h.hitFrom, h.hitTo))
  }

  /**
   * The `SegmentPair` constructor after its fields have been read: sizes a
   * `StringBuilder` by `AlignLength + 10`, which throws when that is negative,
   * then builds the query and the hit scale.
   */
  method NewSegmentPair(h: HspRecord) returns (r: Result<SegmentPair>)
    ensures r.Throw? <==> CapacityFails(h)
    ensures r.Throw? ==> r.exception == ArgumentOutOfRangeException("capacity")
    ensures r.Ok? ==> r.value.index == h.index && r.value.bitScore == h.bitScore && r.value.eValue == h.eValue
    ensures r.Ok? ==> r.value.queryFrom == h.queryFrom && r.value.queryTo == h.queryTo
    ensures r.Ok? ==> r.value.hitFrom == h.hitFrom && r.value.hitTo == h.hitTo && r.value.alignLength == h.alignLength
    ensures r.Ok? ==> r.value.queryScaleMark == ScaleMarkText(h.queryFrom, h.queryTo)
    ensures r.Ok? ==> r.value.hitScaleMark == ScaleMarkText(h.hitFrom, h.hitTo)
    ensures r.Ok? ==> r.value == Built(h)
  {
    if Wrap32(h.alignLength as int + 10) < 0 {
      return Throw(ArgumentOutOfRangeException("capacity"));
    }
    var queryScale := ScaleMark(h.queryFrom, h.queryTo);
    var hitScale := ScaleMark(h.hitFrom, h.hitTo);
    return Ok(SegmentPair(h.index, h.bitScore, h.eValue, h.queryFrom, h.queryTo, h.hitFrom, h.hitTo,
                          h.alignLength, queryScale, hitScale));
  }

  // ---------------------------------------------------------------------
  // Hit
  // ---------------------------------------------------------------------

  /** A hit: its HSPs, in document order, and what the constructor folds out of them. */
  datatype Hit = Hit(
    index: Int32, length: Int32, segments: seq<SegmentPair>,
    maxBitScore: Double, minEValue: Double,
    queryTotalLength: int, hitTotalLength: int,
    queryFrom: int, queryTo: int)

  /** The query spans of the HSPs, in order. */
  function QuerySpans(hsps: seq<SegmentPair>): (r: seq<SeqSpan>)
    ensures |r| == |hsps| && forall k :: 0 <= k < |r| ==> r[k] == hsps[k].QuerySpan()
  {
    seq(|hsps|, k requires 0 <= k < |hsps| => hsps[k].QuerySpan())
  }

  /** The hit spans of the HSPs, in order. */
  function HitSpans(hsps: seq<SegmentPair>): (r: seq<SeqSpan>)
    ensures |r| == |hsps| && forall k :: 0 <= k < |r| ==> r[k] == hsps[k].HitSpan()
  {
    seq(|hsps|, k requires 0 <= k < |hsps| => hsps[k].HitSpan())
  }

  /** `Math.Max` and `Math.Min` on two finite doubles: `Max` and `Min` for `real`. */
  function Larger(a: Double, b: Double): Double { if a >= b then a else b }

  function Smaller(a: Double, b: Double): Double { if a <= b then a else b }

  /** The running best bit score after the given HSPs, from the `double.MinValue` seed. */
  function BestBitScore(h: seq<SegmentPair>): Double
  {
    if h == [] then -DoubleMax else Larger(BestBitScore(h[..|h| - 1]), h[|h| - 1].bitScore)
  }

  /** The running least e-value after the given HSPs, from the `double.MaxValue` seed. */
  function LeastEValue(h: seq<SegmentPair>): Double
  {
    if h == [] then DoubleMax else Smaller(LeastEValue(h[..|h| - 1]), h[|h| - 1].eValue)
  }

  /** Over a non-empty list, the running best is the greatest bit score of the list. */
  lemma {:induction false} BestBitScoreIsMax(h: seq<SegmentPair>)
    requires h != []
    ensures forall k :: 0 <= k < |h| ==> h[k].bitScore <= BestBitScore(h)
    ensures exists k :: 0 <= k < |h| && h[k].bitScore == BestBitScore(h)
  {
    var n := |h| - 1;
    if n > 0 {
      BestBitScoreIsMax(h[..n]);
      var k :| 0 <= k < n && h[..n][k].bitScore == BestBitScore(h[..n]);
      if BestBitScore(h[..n]) >= h[n].bitScore {
        assert h[k].bitScore == BestBitScore(h);
      }
      forall j | 0 <= j < n
        ensures h[j].bitScore <= BestBitScore(h)
      {
        assert h[..n][j] == h[j];
      }
    }
  }

  /** Over a non-empty list, the running least is the least e-value of the list. */
  lemma {:induction false} LeastEValueIsMin(h: seq<SegmentPair>)
    requires h != []
    ensures forall k :: 0 <= k < |h| ==> LeastEValue(h) <= h[k].eValue
    ensures exists k :: 0 <= k < |h| && h[k].eValue == LeastEValue(h)
  {
    var n := |h| - 1;
    if n > 0 {
      LeastEValueIsMin(h[..n]);
      var k :| 0 <= k < n && h[..n][k].eValue == LeastEValue(h[..n]);
      if LeastEValue(h[..n]) <= h[n].eValue {
        assert h[k].eValue == LeastEValue(h);
      }
      forall j | 0 <= j < n
        ensures LeastEValue(h) <= h[j].eValue
      {
        assert h[..n][j] == h[j];
      }
    }
  }

  /** One more HSP: it is kept, and the running scores take it in. */
  lemma FoldStep(hsps: seq<SegmentPair>, i: int)
    requires 0 <= i < |hsps|
    ensures hsps[..i] + [hsps[i]] == hsps[..i + 1]
    ensures BestBitScore(hsps[..i + 1]) == Larger(BestBitScore(hsps[..i]), hsps[i].bitScore)
    ensures LeastEValue(hsps[..i + 1]) == Smaller(LeastEValue(hsps[..i]), hsps[i].eValue)
  {
    assert hsps[..i + 1][..i] == hsps[..i];
  }

  /** One more HSP adds its query points. */
  lemma QueryStep(hsps: seq<SegmentPair>, i: int)
    requires 0 <= i < |hsps|
    ensures Covered(QuerySpans(hsps[..i + 1])) == Covered(QuerySpans(hsps[..i])) + Points(hsps[i].QuerySpan())
  {
    assert QuerySpans(hsps[..i + 1]) == QuerySpans(hsps[..i]) + [hsps[i].QuerySpan()];
    CoveredConcat(QuerySpans(hsps[..i]), [hsps[i].QuerySpan()]);
  }

  /** One more HSP adds its hit points. */
  lemma HitStep(hsps: seq<SegmentPair>, i: int)
    requires 0 <= i < |hsps|
    ensures Covered(HitSpans(hsps[..i + 1])) == Covered(HitSpans(hsps[..i])) + Points(hsps[i].HitSpan())
  {
    assert HitSpans(hsps[..i + 1]) == HitSpans(hsps[..i]) + [hsps[i].HitSpan()];
    CoveredConcat(HitSpans(hsps[..i]), [hsps[i].HitSpan()]);
  }

  /** The least point of a union of spans is the least of their starts. */
  lemma LeastStart(s: seq<SeqSpan>, v: int)
    requires v in Covered(s) && forall p :: p in Covered(s) ==> v <= p
    ensures forall k :: 0 <= k < |s| ==> v <= s[k].from
    ensures exists k :: 0 <= k < |s| && v == s[k].from
  {
    forall k | 0 <= k < |s|
      ensures v <= s[k].from
    {
      assert s[k].from in Points(s[k]);
      CoveredIncludes(s, k);
    }
    CoveredMember(s, v);
  }

  /** The greatest point of a union of spans is the greatest of their ends. */
  lemma GreatestEnd(s: seq<SeqSpan>, v: int)
    requires v in Covered(s) && forall p :: p in Covered(s) ==> p <= v
    ensures forall k :: 0 <= k < |s| ==> s[k].to <= v
    ensures exists k :: 0 <= k < |s| && v == s[k].to
  {
    forall k | 0 <= k < |s|
      ensures s[k].to <= v
    {
      assert s[k].to in Points(s[k]);
      CoveredIncludes(s, k);
    }
    CoveredMember(s, v);
  }

  /** The least and greatest query points are the least normalised start and the greatest normalised end. */
  lemma QueryRange(hsps: seq<SegmentPair>, queryFrom: int, queryTo: int)
    requires queryFrom in Covered(QuerySpans(hsps)) && forall p :: p in Covered(QuerySpans(hsps)) ==> queryFrom <= p
    requires queryTo in Covered(QuerySpans(hsps)) && forall p :: p in Covered(QuerySpans(hsps)) ==> p <= queryTo
    ensures forall k :: 0 <= k < |hsps| ==> queryFrom <= hsps[k].QuerySpan().from
    ensures exists k :: 0 <= k < |hsps| && queryFrom == hsps[k].QuerySpan().from
    ensures forall k :: 0 <= k < |hsps| ==> hsps[k].QuerySpan().to <= queryTo
    ensures exists k :: 0 <= k < |hsps| && queryTo == hsps[k].QuerySpan().to
  {
    LeastStart(QuerySpans(hsps), queryFrom);
    GreatestEnd(QuerySpans(hsps), queryTo);
  }

  /** The segment pairs of records none of which fails, in order. */
  function Pairs(raw: seq<HspRecord>): (r: seq<SegmentPair>)
    ensures |r| == |raw| && forall k :: 0 <= k < |r| ==> r[k] == Built(raw[k])
  {
    seq(|raw|, k requires 0 <= k < |raw| => Built(raw[k]))
  }

  /** Some record's capacity is refused. */
  predicate SomeFails(raw: seq<HspRecord>)
  {
    exists k :: 0 <= k < |raw| && CapacityFails(raw[k])
  }

  /** A record that builds extends a prefix in which none fails. */
  lemma NoneFailsStep(raw: seq<HspRecord>, i: int)
    requires 0 <= i < |raw| && !SomeFails(raw[..i]) && !CapacityFails(raw[i])
    ensures !SomeFails(raw[..i + 1])
  {
    assert raw[..i + 1] == raw[..i] + [raw[i]];
  }

  /**
   * The `foreach` of the `Hit` constructor: each `Hsp` element, in order,
   * becomes a segment pair, which is kept; its query and hit spans are added
   * to two new locations, and the best bit score and the least e-value are
   * tracked from `MinValue` and `MaxValue` seeds. The first record whose
   * segment pair cannot be built ends the loop with its exception.
   */
  method FoldSegments(raw: seq<HspRecord>)
    returns (outcome: Outcome, segments: seq<SegmentPair>, queryLoc: Location, hitLoc: Location,
             bitScore: Double, minEValue: Double)
    ensures fresh(queryLoc) && fresh(hitLoc) && queryLoc != hitLoc
    ensures outcome.Fail? <==> SomeFails(raw)
    ensures outcome.Fail? ==> outcome.exception == ArgumentOutOfRangeException("capacity")
    ensures outcome.Done? ==> segments == Pairs(raw)
    ensures outcome.Done? ==> queryLoc.Valid() && queryLoc.CoveredPoints() == Covered(QuerySpans(Pairs(raw)))
    ensures outcome.Done? ==> hitLoc.Valid() && hitLoc.CoveredPoints() == Covered(HitSpans(Pairs(raw)))
    ensures outcome.Done? ==> bitScore == BestBitScore(Pairs(raw)) && minEValue == LeastEValue(Pairs(raw))
  {
    ghost var hsps := Pairs(raw);
    segments := [];
    queryLoc := new Location();
    hitLoc := new Location();
    bitScore := -DoubleMax;
    minEValue := DoubleMax;
    var i := 0;
    while i < |raw|
      invariant 0 <= i <= |raw|
      invariant !SomeFails(raw[..i])
      invariant segments == hsps[..i]
      invariant queryLoc.Valid() && queryLoc.CoveredPoints() == Covered(QuerySpans(hsps[..i]))
      invariant hitLoc.Valid() && hitLoc.CoveredPoints() == Covered(HitSpans(hsps[..i]))
      invariant bitScore == BestBitScore(hsps[..i]) && minEValue == LeastEValue(hsps[..i])
    {
      var built := NewSegmentPair(raw[i]);
      if built.Throw? {
        return Fail(built.exception), segments, queryLoc, hitLoc, bitScore, minEValue;
      }
      var value := built.value;
      NoneFailsStep(raw, i);
      FoldStep(hsps, i);
      QueryStep(hsps, i);
      HitStep(hsps, i);
      segments := segments + [value];
      queryLoc.UnionWith(value.QuerySpan());
      hitLoc.UnionWith(value.HitSpan());
      bitScore := Larger(bitScore, value.bitScore);
      minEValue := Smaller(minEValue, value.eValue);
      i := i + 1;
    }
    assert hsps[..i] == hsps && raw[..i] == raw;
    outcome := Done;
  }

  /** The running scores over the built pairs are the greatest bit score and the least e-value of the records. */
  lemma RawScores(raw: seq<HspRecord>)
    requires raw != []
    ensures forall k :: 0 <= k < |raw| ==> raw[k].bitScore <= BestBitScore(Pairs(raw))
    ensures exists k :: 0 <= k < |raw| && raw[k].bitScore == BestBitScore(Pairs(raw))
    ensures forall k :: 0 <= k < |raw| ==> LeastEValue(Pairs(raw)) <= raw[k].eValue
    ensures exists k :: 0 <= k < |raw| && raw[k].eValue == LeastEValue(Pairs(raw))
  {
    var hsps := Pairs(raw);
    BestBitScoreIsMax(hsps);
    LeastEValueIsMin(hsps);
    var i :| 0 <= i < |hsps| && hsps[i].bitScore == BestBitScore(hsps);
    assert raw[i].bitScore == hsps[i].bitScore;
    var j :| 0 <= j < |hsps| && hsps[j].eValue == LeastEValue(hsps);
    assert raw[j].eValue == hsps[j].eValue;
  }

  /** The least and greatest covered query points are the least start and greatest end of the records' query spans. */
  lemma RawRange(raw: seq<HspRecord>, queryFrom: int, queryTo: int)
    requires queryFrom in Covered(QuerySpans(Pairs(raw))) && forall p :: p in Covered(QuerySpans(Pairs(raw))) ==> queryFrom <= p
    requires queryTo in Covered(QuerySpans(Pairs(raw))) && forall p :: p in Covered(QuerySpans(Pairs(raw))) ==> p <= queryTo
    ensures forall k :: 0 <= k < |raw| ==> queryFrom <= Span(raw[k].queryFrom, raw[k].queryTo).from
    ensures exists k :: 0 <= k < |raw| && queryFrom == Span(raw[k].queryFrom, raw[k].queryTo).from
    ensures forall k :: 0 <= k < |raw| ==> Span(raw[k].queryFrom, raw[k].queryTo).to <= queryTo
    ensures exists k :: 0 <= k < |raw| && queryTo == Span(raw[k].queryFrom, raw[k].queryTo).to
  {
    var hsps := Pairs(raw);
    QueryRange(hsps, queryFrom, queryTo);
    forall k | 0 <= k < |raw|
      ensures hsps[k].QuerySpan() == Span(raw[k].queryFrom, raw[k].queryTo)
    {
    }
    var i :| 0 <= i < |hsps| && queryFrom == hsps[i].QuerySpan().from;
    assert queryFrom == Span(raw[i].queryFrom, raw[i].queryTo).from;
    var j :| 0 <= j < |hsps| && queryTo == hsps[j].QuerySpan().to;
    assert queryTo == Span(raw[j].queryFrom, raw[j].queryTo).to;
  }

  /**
   * The `Hit` constructor: folds the `Hsp` elements, then reads the covered
   * lengths and the query range from the locations. A segment pair that
   * cannot be built throws first; otherwise `From` throws when there were no
   * HSPs.
   */
  method NewHit(index: Int32, length: Int32, raw: seq<HspRecord>) returns (r: Result<Hit>)
    ensures SomeFails(raw) ==> r == Throw(ArgumentOutOfRangeException("capacity"))
    ensures !SomeFails(raw) ==> (r.Throw? <==> raw == [])
    ensures raw == [] ==> r == Throw(InvalidOperationException)
    ensures r.Ok? ==> r.value.index == index && r.value.length == length && r.value.segments == Pairs(raw)
    ensures r.Ok? ==> forall k :: 0 <= k < |raw| ==> raw[k].bitScore <= r.value.maxBitScore
    ensures r.Ok? ==> exists k :: 0 <= k < |raw| && raw[k].bitScore == r.value.maxBitScore
    ensures r.Ok? ==> forall k :: 0 <= k < |raw| ==> r.value.minEValue <= raw[k].eValue
    ensures r.Ok? ==> exists k :: 0 <= k < |raw| && raw[k].eValue == r.value.minEValue
    ensures r.Ok? ==> r.value.queryTotalLength == |Covered(QuerySpans(Pairs(raw)))|
    ensures r.Ok? ==> r.value.hitTotalLength == |Covered(HitSpans(Pairs(raw)))|
    ensures r.Ok? ==> forall k :: 0 <= k < |raw| ==> r.value.queryFrom <= Span(raw[k].queryFrom, raw[k].queryTo).from
    ensures r.Ok? ==> exists k :: 0 <= k < |raw| && r.value.queryFrom == Span(raw[k].queryFrom, raw[k].queryTo).from
    ensures r.Ok? ==> forall k :: 0 <= k < |raw| ==> Span(raw[k].queryFrom, raw[k].queryTo).to <= r.value.queryTo
    ensures r.Ok? ==> exists k :: 0 <= k < |raw| && r.value.queryTo == Span(raw[k].queryFrom, raw[k].queryTo).to
  {
    var outcome, segments, queryLoc, hitLoc, bitScore, minEValue := FoldSegments(raw);
    if outcome.Fail? {
      return Throw(outcome.exception);
    }
    ghost var hsps := Pairs(raw);
    var queryTotal := queryLoc.TotalLength();
    var hitTotal := hitLoc.TotalLength();
    var queryFrom := queryLoc.From();
    if queryFrom.Throw? {
      CoveredEmpty(QuerySpans(hsps));
      return Throw(queryFrom.exception);
    }
    var queryTo := queryLoc.To();
    CoveredEmpty(QuerySpans(hsps));
    RawScores(raw);
    RawRange(raw, queryFrom.value, queryTo.value);
    return Ok(Hit(index, length, segments, bitScore, minEValue, queryTotal, hitTotal,
                  queryFrom.value, queryTo.value));
  }
}
