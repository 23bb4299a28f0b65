/** The one-year coverage gate: union coverage of each timeframe by its admissible sources,
    the three-way intersection, and the verdict. */
module CoverageGate {
  import opened Intervals
  import Candles

  datatype Timeframe = H1 | M15 | M1

  /** A measured source: its timeframe, whether it may count, and its first and last bar. */
  datatype Source = Source(timeframe: Timeframe, admissible: bool, first: int, last: int)

  datatype Coverage = Coverage(windowed: seq<Interval>, missing: seq<Interval>)

  datatype Status = DATA_COVERAGE_COMPLETE | BLOCKED_INCOMPLETE_ONE_YEAR_DATA

  datatype Report = Report(h1: Coverage, m15: Coverage, m1: Coverage, threeWay: seq<Interval>,
                           threeWayMissing: seq<Interval>, status: Status)

  function NativeDelta(tf: Timeframe): int {
    match tf
    case H1 => 3600
    case M15 => 900
    case M1 => 60
  }

  /** Instant `x` lies in the span of an admissible source of the timeframe. */
  ghost predicate Sourced(sources: seq<Source>, tf: Timeframe, x: int) {
    exists s :: s in sources && s.timeframe == tf && s.admissible && s.first <= x < s.last + NativeDelta(tf)
  }

  /** The admissible spans of a timeframe, in source order. */
  function Spans(sources: seq<Source>, tf: Timeframe): seq<Interval> {
    if sources == [] then []
    else
      var s := sources[|sources| - 1];
      var front := Spans(sources[..|sources| - 1], tf);
      if s.timeframe == tf && s.admissible then front + [Interval(s.first, s.last + NativeDelta(tf))] else front
  }

  lemma {:induction false} SpansMeaning(sources: seq<Source>, tf: Timeframe, x: int)
    ensures Covers(Spans(sources, tf), x) <==> Sourced(sources, tf, x)
  {
    if sources != [] {
      var n := |sources| - 1;
      SpansMeaning(sources[..n], tf, x);
      var s := sources[n];
      AppendCovers(Spans(sources[..n], tf), Interval(s.first, s.last + NativeDelta(tf)));
      assert sources == sources[..n] + [s];
    }
  }

  /** `windowed` covers exactly the sourced instants of the window, `missing` exactly the rest. */
  ghost predicate Measures(c: Coverage, sources: seq<Source>, tf: Timeframe, lo: int, hi: int) {
    && Canonical(c.windowed)
    && (forall x :: Covers(c.windowed, x) <==> lo <= x < hi && Sourced(sources, tf, x))
    && IsComplementOf(c.missing, lo, hi, c.windowed)
  }

  method MeasureCoverage(sources: seq<Source>, tf: Timeframe, windowStart: int, windowEnd: int) returns (c: Coverage)
    ensures Measures(c, sources, tf, windowStart, windowEnd + 1)
    ensures windowStart <= windowEnd + 1 ==> Length(c.windowed) + Length(c.missing) == windowEnd + 1 - windowStart
  {
    var intervals: seq<Interval> := [];
    for i := 0 to |sources|
      invariant intervals == Spans(sources[..i], tf)
    {
      var s := sources[i];
      assert sources[..i + 1][..i] == sources[..i];
      if s.timeframe == tf && s.admissible {
        intervals := intervals + [Interval(s.first, s.last + NativeDelta(tf))];
      }
    }
    assert sources[..|sources|] == sources;
    var union := Merge(intervals);
    var upper := windowEnd + 1;
    var windowed := Merge(Clip(union, windowStart, upper));
    var missing := Complement(windowStart, upper, windowed);
    forall x
      ensures Covers(windowed, x) <==> windowStart <= x < upper && Sourced(sources, tf, x)
    {
      ClipMeaning(union, windowStart, upper, x);
      SpansMeaning(sources, tf, x);
    }
    if windowStart <= upper {
      LengthsAddUp(windowStart, upper, windowed, missing);
    }
    c := Coverage(windowed, missing);
  }

  ghost predicate SourcedEverywhere(sources: seq<Source>, lo: int, hi: int) {
    forall x :: lo <= x < hi ==> Sourced(sources, H1, x) && Sourced(sources, M15, x) && Sourced(sources, M1, x)
  }

  /** A complement is empty exactly when every instant of the window is covered. */
  lemma NothingMissing(m: seq<Interval>, lo: int, hi: int, s: seq<Interval>)
    requires IsComplementOf(m, lo, hi, s)
    ensures m == [] <==> forall x :: lo <= x < hi ==> Covers(s, x)
  {
    if m != [] {
      assert Covers(m, m[0].start);
    } else {
      forall x | lo <= x < hi
        ensures Covers(s, x)
      {
        assert !Covers(m, x);
      }
    }
  }

  lemma WholeWindow(s: seq<Interval>, lo: int, hi: int)
    requires lo < hi && Canonical(s) && (forall x :: Covers(s, x) ==> lo <= x < hi)
    ensures s == [Interval(lo, hi)] <==> forall x :: lo <= x < hi ==> Covers(s, x)
  {
    var whole := [Interval(lo, hi)];
    forall x
      ensures Covers(whole, x) <==> lo <= x < hi
    {
      CoversOne(Interval(lo, hi), x);
    }
    if forall x :: lo <= x < hi ==> Covers(s, x) {
      CanonicalUnique(s, whole);
    }
  }

  /** The gate. Its verdict is COMPLETE exactly when every instant of the window lies in an
      admissible source of each timeframe; in a non-empty window, exactly when the three-way
      intersection is the whole window. The three-way missing list is the merge of the three
      missing lists, and covered plus missing length is the window length. */
  method WindowReport(sources: seq<Source>, windowStart: int, windowEnd: int) returns (r: Report)
    ensures Measures(r.h1, sources, H1, windowStart, windowEnd + 1)
    ensures Measures(r.m15, sources, M15, windowStart, windowEnd + 1)
    ensures Measures(r.m1, sources, M1, windowStart, windowEnd + 1)
    ensures r.status == DATA_COVERAGE_COMPLETE <==> SourcedEverywhere(sources, windowStart, windowEnd + 1)
    ensures r.status == DATA_COVERAGE_COMPLETE <==> r.threeWayMissing == []
    ensures windowStart <= windowEnd ==>
              (r.status == DATA_COVERAGE_COMPLETE <==> r.threeWay == [Interval(windowStart, windowEnd + 1)])
    ensures Canonical(r.threeWay) && forall x :: Covers(r.threeWay, x) <==>
              && windowStart <= x < windowEnd + 1
              && Sourced(sources, H1, x) && Sourced(sources, M15, x) && Sourced(sources, M1, x)
    ensures IsMergeOf(r.threeWayMissing, r.h1.missing + r.m15.missing + r.m1.missing)
    ensures windowStart <= windowEnd + 1 ==> Length(r.threeWay) + Length(r.threeWayMissing) == windowEnd + 1 - windowStart
  {
    var upper := windowEnd + 1;
    var h1 := MeasureCoverage(sources, H1, windowStart, windowEnd);
    var m15 := MeasureCoverage(sources, M15, windowStart, windowEnd);
    var m1 := MeasureCoverage(sources, M1, windowStart, windowEnd);
    var two := Intersect(h1.windowed, m15.windowed);
    var threeWay := Intersect(two, m1.windowed);
    var threeWayMissing := Complement(windowStart, upper, threeWay);
    var blocked := h1.missing != [] || m15.missing != [] || m1.missing != [];
    r := Report(h1, m15, m1, threeWay, threeWayMissing,
                if blocked then BLOCKED_INCOMPLETE_ONE_YEAR_DATA else DATA_COVERAGE_COMPLETE);
    VerdictIsExact(sources, windowStart, upper, r);
  }

  lemma VerdictIsExact(sources: seq<Source>, lo: int, hi: int, r: Report)
    requires Measures(r.h1, sources, H1, lo, hi) && Measures(r.m15, sources, M15, lo, hi) && Measures(r.m1, sources, M1, lo, hi)
    requires Canonical(r.threeWay)
    requires forall x :: Covers(r.threeWay, x) <==> Covers(r.h1.windowed, x) && Covers(r.m15.windowed, x) && Covers(r.m1.windowed, x)
    requires IsComplementOf(r.threeWayMissing, lo, hi, r.threeWay)
    requires r.status == DATA_COVERAGE_COMPLETE <==> r.h1.missing == [] && r.m15.missing == [] && r.m1.missing == []
    ensures r.status == DATA_COVERAGE_COMPLETE <==> SourcedEverywhere(sources, lo, hi)
    ensures r.status == DATA_COVERAGE_COMPLETE <==> r.threeWayMissing == []
    ensures lo < hi ==> (r.status == DATA_COVERAGE_COMPLETE <==> r.threeWay == [Interval(lo, hi)])
    ensures IsMergeOf(r.threeWayMissing, r.h1.missing + r.m15.missing + r.m1.missing)
    ensures lo <= hi ==> Length(r.threeWay) + Length(r.threeWayMissing) == hi - lo
  {
    NothingMissing(r.h1.missing, lo, hi, r.h1.windowed);
    NothingMissing(r.m15.missing, lo, hi, r.m15.windowed);
    NothingMissing(r.m1.missing, lo, hi, r.m1.windowed);
    NothingMissing(r.threeWayMissing, lo, hi, r.threeWay);
    assert (forall x :: lo <= x < hi ==> Covers(r.threeWay, x)) <==> SourcedEverywhere(sources, lo, hi);
    if lo < hi {
      WholeWindow(r.threeWay, lo, hi);
    }
    if lo <= hi {
      LengthsAddUp(lo, hi, r.threeWay, r.threeWayMissing);
    }
    DeMorgan(lo, hi, r.h1.windowed, r.m15.windowed, r.m1.windowed, r.threeWay,
             r.h1.missing, r.m15.missing, r.m1.missing, r.threeWayMissing);
  }

  function Minutes(tf: Timeframe): int {
    match tf
    case H1 => 60
    case M15 => 15
    case M1 => 1
  }

  /** The last bar of a source covers exactly its own hour, quarter of an hour or minute. */
  lemma LastBarIsItsBucket(tf: Timeframe, t: int, x: int)
    requires Candles.BucketStart(t, Minutes(tf)) == t
    ensures Candles.BucketStart(x, Minutes(tf)) == t <==> t <= x < t + NativeDelta(tf)
    ensures NativeDelta(H1) == 3600 && NativeDelta(M15) == 900 && NativeDelta(M1) == 60
  {
    Candles.BucketSpan(t, x, Minutes(tf));
  }
}
