/** Cross-leg time-base arbitration: a leg is compared with the arbiter's buckets at every
    whole-hour shift, a per-bucket census looks for two time bases in one file, and a leg is
    admitted only when aligned at zero, unfractured, and tested in two seasons. */
module TimeBase {
  import opened Prelude
  import opened Candles
  import opened ConflictMerge

  function Hours(h: int): int { 3600 * h }

  const MIN_COMMON_BUCKETS: nat := 100

  type Series = map<int, Ohlc>

  predicate Shift(h: int) { -3 <= h <= 3 }

  // ------------------------------------------------------------------ the shift scan

  datatype ShiftResult = ShiftResult(shift: int, shared: nat, mismatches: nat) {
    function ExactRate(): real
      requires shared > 0
    {
      1.0 - mismatches as real / shared as real
    }
  }

  function Shared(leg: Series, arbiter: Series, h: int): set<int> {
    set t | t in arbiter && t + Hours(h) in leg
  }

  function Mismatched(leg: Series, arbiter: Series, h: int): set<int> {
    set t | t in arbiter && t + Hours(h) in leg && arbiter[t] != leg[t + Hours(h)]
  }

  ghost predicate IsResult(r: ShiftResult, leg: Series, arbiter: Series) {
    && Shift(r.shift)
    && r.shared == |Shared(leg, arbiter, r.shift)| > 0
    && r.mismatches == |Mismatched(leg, arbiter, r.shift)|
  }

  function ResultAt(leg: Series, arbiter: Series, h: int): ShiftResult {
    ShiftResult(h, |Shared(leg, arbiter, h)|, |Mismatched(leg, arbiter, h)|)
  }

  /** Exact results of exactly the shifts below `h` that share a bucket, in ascending order. */
  ghost predicate ScannedTo(results: seq<ShiftResult>, leg: Series, arbiter: Series, h: int) {
    && (forall i :: 0 <= i < |results| ==> IsResult(results[i], leg, arbiter) && results[i].shift < h)
    && (forall i, j :: 0 <= i < j < |results| ==> results[i].shift < results[j].shift)
    && (forall k :: -3 <= k < h && Shared(leg, arbiter, k) != {} ==> Lists(results, k))
  }

  ghost predicate Lists(results: seq<ShiftResult>, k: int) {
    exists i :: 0 <= i < |results| && results[i].shift == k
  }

  lemma ListsSnoc(results: seq<ShiftResult>, r: ShiftResult, k: int)
    ensures Lists(results + [r], k) <==> Lists(results, k) || r.shift == k
  {
    var more := results + [r];
    assert more[|results|] == r;
    if i :| 0 <= i < |results| && results[i].shift == k {
      assert more[i].shift == k;
    }
  }

  lemma ScanNext(results: seq<ShiftResult>, leg: Series, arbiter: Series, h: int)
    requires Shift(h) && ScannedTo(results, leg, arbiter, h)
    ensures ScannedTo(if Shared(leg, arbiter, h) != {} then results + [ResultAt(leg, arbiter, h)] else results, leg, arbiter, h + 1)
  {
    if Shared(leg, arbiter, h) != {} {
      var more := results + [ResultAt(leg, arbiter, h)];
      forall k | -3 <= k < h + 1 && Shared(leg, arbiter, k) != {}
        ensures Lists(more, k)
      {
        ListsSnoc(results, ResultAt(leg, arbiter, h), k);
      }
    }
  }

  /** One result per shift that shares a bucket, in ascending order of shift. */
  method ShiftScan(leg: Series, arbiter: Series) returns (results: seq<ShiftResult>)
    ensures ScannedTo(results, leg, arbiter, 4)
  {
    results := [];
    for h := -3 to 4
      invariant ScannedTo(results, leg, arbiter, h)
    {
      ScanNext(results, leg, arbiter, h);
      var shared := Shared(leg, arbiter, h);
      if shared != {} {
        var mismatched := Mismatched(leg, arbiter, h);
        results := results + [ShiftResult(h, |shared|, |mismatched|)];
      }
    }
  }

  /** Result `b` heads the stable sort by descending rate: the first of the best results. */
  ghost predicate HeadOfSort(results: seq<ShiftResult>, b: int) {
    && 0 <= b < |results|
    && (forall i :: 0 <= i < |results| ==> results[i].shared > 0)
    && (forall i :: 0 <= i < |results| ==> results[i].ExactRate() <= results[b].ExactRate())
    && (forall i :: 0 <= i < b ==> results[i].ExactRate() < results[b].ExactRate())
  }

  method BestShift(results: seq<ShiftResult>) returns (best: ShiftResult)
    requires results != [] && forall i :: 0 <= i < |results| ==> results[i].shared > 0
    ensures exists b :: HeadOfSort(results, b) && best == results[b]
  {
    var b := 0;
    for i := 1 to |results|
      invariant 0 <= b < i
      invariant forall k :: 0 <= k < i ==> results[k].ExactRate() <= results[b].ExactRate()
      invariant forall k :: 0 <= k < b ==> results[k].ExactRate() < results[b].ExactRate()
    {
      if results[i].ExactRate() > results[b].ExactRate() {
        b := i;
      }
    }
    best := results[b];
    assert HeadOfSort(results, b);
  }

  /** The 0.999999 threshold in whole buckets. */
  lemma ThresholdInBuckets(r: ShiftResult)
    requires r.shared > 0
    ensures r.ExactRate() >= 0.999999 <==> r.mismatches * 1000000 <= r.shared
  {
    var m, n := r.mismatches as real, r.shared as real;
    var q := m / n;
    assert q * n == m;
    if q <= 0.000001 {
      assert q * n <= 0.000001 * n;
    } else {
      assert q * n > 0.000001 * n;
    }
  }

  /** The threshold means "no mismatch" exactly below one million shared buckets. */
  lemma ThresholdIsExactness(shared: nat)
    requires shared > 0
    ensures shared < 1000000 <==>
            forall m: nat :: ShiftResult(0, shared, m).ExactRate() >= 0.999999 ==> m == 0
  {
    forall m: nat
      ensures ShiftResult(0, shared, m).ExactRate() >= 0.999999 <==> m * 1000000 <= shared
    {
      ThresholdInBuckets(ShiftResult(0, shared, m));
    }
    if shared >= 1000000 {
      assert ShiftResult(0, shared, 1).ExactRate() >= 0.999999;
    }
  }

  // ------------------------------------------------------------------ the census

  predicate Matches(leg: Series, v: Ohlc, t: int, h: int) {
    t + Hours(h) in leg && leg[t + Hours(h)] == v
  }

  /** The shift that explains a bucket: the first match, trying -3 first. */
  function FirstMatch(leg: Series, v: Ohlc, t: int, from: int): Option<int>
    requires -3 <= from <= 4
    decreases 4 - from
  {
    if from == 4 then None
    else if Matches(leg, v, t, from) then Some(from)
    else FirstMatch(leg, v, t, from + 1)
  }

  lemma {:induction false} FirstMatchIsLeast(leg: Series, v: Ohlc, t: int, from: int, h: int)
    requires -3 <= from <= 4
    ensures FirstMatch(leg, v, t, from) == Some(h) <==>
            from <= h <= 3 && Matches(leg, v, t, h) && forall s :: from <= s < h ==> !Matches(leg, v, t, s)
    decreases 4 - from
  {
    if from < 4 && !Matches(leg, v, t, from) {
      FirstMatchIsLeast(leg, v, t, from + 1, h);
    }
  }

  function Abs(h: int): nat { if h < 0 then -h else h }

  /** The comment promises the match of smallest |shift|. The loop delivers it for a bucket exactly
      when no match at a negative shift has another match strictly nearer to zero. */
  lemma SmallestShiftExactly(leg: Series, v: Ohlc, t: int)
    ensures (forall h :: FirstMatch(leg, v, t, -3) == Some(h) ==>
               forall u :: Shift(u) && Matches(leg, v, t, u) ==> Abs(h) <= Abs(u)) <==>
            (forall s, u :: -3 <= s < 0 && s < u < -s && Matches(leg, v, t, s) ==> !Matches(leg, v, t, u))
  {
    var first := FirstMatch(leg, v, t, -3);
    if first.Some? {
      FirstMatchIsLeast(leg, v, t, -3, first.value);
    } else {
      NoFirstMatch(leg, v, t, -3);
    }
  }

  lemma {:induction false} NoFirstMatch(leg: Series, v: Ohlc, t: int, from: int)
    requires -3 <= from <= 4 && FirstMatch(leg, v, t, from).None?
    ensures forall s :: from <= s <= 3 ==> !Matches(leg, v, t, s)
    decreases 4 - from
  {
    if from < 4 {
      NoFirstMatch(leg, v, t, from + 1);
    }
  }

  /** A bucket matched both at -3h and at 0h is attributed to -3h. */
  lemma MostNegativeShiftWins(v: Ohlc, t: int)
    ensures FirstMatch(map[t - Hours(3) := v, t := v], v, t, -3) == Some(-3)
  {
    assert Matches(map[t - Hours(3) := v, t := v], v, t, -3);
  }

  /** The shift a bucket is attributed to. */
  ghost predicate AttributedTo(leg: Series, arbiter: Series, t: int, h: int) {
    t in arbiter && FirstMatch(leg, arbiter[t], t, -3) == Some(h)
  }

  lemma AttributionInRange(leg: Series, arbiter: Series, t: int, h: int)
    requires AttributedTo(leg, arbiter, t, h)
    ensures Shift(h) && t in Shared(leg, arbiter, h)
  {
    FirstMatchIsLeast(leg, arbiter[t], t, -3, h);
  }

  /** The buckets among `done` explained by shift `h`. */
  ghost function Explained(leg: Series, arbiter: Series, done: set<int>, h: int): set<int> {
    set t | t in done && AttributedTo(leg, arbiter, t, h)
  }

  ghost predicate CountsOf(counts: map<int, nat>, leg: Series, arbiter: Series, done: set<int>) {
    && (forall h :: h in counts ==> Shift(h) && counts[h] > 0)
    && (forall h :: CountAt(counts, h) == |Explained(leg, arbiter, done, h)|)
  }

  function CountAt(counts: map<int, nat>, h: int): nat {
    if h in counts then counts[h] else 0
  }

  lemma ExplainedGrows(leg: Series, arbiter: Series, done: set<int>, t: int, h: int)
    requires t !in done
    ensures |Explained(leg, arbiter, done + {t}, h)| ==
            |Explained(leg, arbiter, done, h)| + if AttributedTo(leg, arbiter, t, h) then 1 else 0
  {
    if AttributedTo(leg, arbiter, t, h) {
      assert Explained(leg, arbiter, done + {t}, h) == Explained(leg, arbiter, done, h) + {t};
    } else {
      assert Explained(leg, arbiter, done + {t}, h) == Explained(leg, arbiter, done, h);
    }
  }

  lemma CountOneMore(counts: map<int, nat>, leg: Series, arbiter: Series, done: set<int>, t: int, f: Option<int>)
    requires CountsOf(counts, leg, arbiter, done) && t !in done && t in arbiter
    requires f == FirstMatch(leg, arbiter[t], t, -3)
    ensures if f.Some? then CountsOf(counts[f.value := CountAt(counts, f.value) + 1], leg, arbiter, done + {t})
            else CountsOf(counts, leg, arbiter, done + {t})
  {
    var next := if f.Some? then counts[f.value := CountAt(counts, f.value) + 1] else counts;
    if f.Some? {
      AttributionInRange(leg, arbiter, t, f.value);
    }
    forall h
      ensures CountAt(next, h) == |Explained(leg, arbiter, done + {t}, h)|
    {
      ExplainedGrows(leg, arbiter, done, t, h);
      assert CountAt(counts, h) == |Explained(leg, arbiter, done, h)|;
      assert AttributedTo(leg, arbiter, t, h) <==> f == Some(h);
    }
  }

  /** The census: how many buckets each shift explains, kept when at least `least`. */
  ghost predicate IsCensus(census: map<int, nat>, leg: Series, arbiter: Series, least: nat) {
    && (forall h :: h in census <==> Shift(h) && |Explained(leg, arbiter, arbiter.Keys, h)| >= least
                                       && Explained(leg, arbiter, arbiter.Keys, h) != {})
    && (forall h :: h in census ==> census[h] == |Explained(leg, arbiter, arbiter.Keys, h)|)
  }

  /** The inner loop: the first shift that matches, from -3 up. */
  method FindShift(leg: Series, v: Ohlc, t: int) returns (r: Option<int>)
    ensures r == FirstMatch(leg, v, t, -3)
  {
    var h := -3;
    while h < 4
      invariant -3 <= h <= 4 && FirstMatch(leg, v, t, -3) == FirstMatch(leg, v, t, h)
    {
      if Matches(leg, v, t, h) {
        return Some(h);
      }
      h := h + 1;
    }
    r := None;
  }

  method BimodalShiftCensus(leg: Series, arbiter: Series, least: nat) returns (census: map<int, nat>)
    ensures IsCensus(census, leg, arbiter, least)
  {
    var counts: map<int, nat> := map[];
    var left := arbiter.Keys;
    ghost var done: set<int> := {};
    while left != {}
      invariant left <= arbiter.Keys && done == arbiter.Keys - left
      invariant CountsOf(counts, leg, arbiter, done)
      decreases |left|
    {
      assert (forall t :: t !in left) ==> left == {};
      var t :| t in left;
      var found := FindShift(leg, arbiter[t], t);
      CountOneMore(counts, leg, arbiter, done, t, found);
      if found.Some? {
        counts := counts[found.value := CountAt(counts, found.value) + 1];
      }
      left := left - {t};
      done := done + {t};
    }
    assert done == arbiter.Keys;
    census := map h | h in counts && counts[h] >= least :: counts[h];
    CensusOfCounts(counts, census, leg, arbiter, least);
  }

  lemma CensusOfCounts(counts: map<int, nat>, census: map<int, nat>, leg: Series, arbiter: Series, least: nat)
    requires CountsOf(counts, leg, arbiter, arbiter.Keys)
    requires census == map h | h in counts && counts[h] >= least :: counts[h]
    ensures IsCensus(census, leg, arbiter, least)
  {
    forall h
      ensures h in census <==> Shift(h) && |Explained(leg, arbiter, arbiter.Keys, h)| >= least
                                 && Explained(leg, arbiter, arbiter.Keys, h) != {}
    {
      assert CountAt(counts, h) == |Explained(leg, arbiter, arbiter.Keys, h)|;
    }
  }

  /** The buckets explained by any shift up to `k`. */
  ghost function ExplainedUpTo(leg: Series, arbiter: Series, k: int): set<int>
    requires -4 <= k <= 3
    decreases k + 4
  {
    if k == -4 then {} else ExplainedUpTo(leg, arbiter, k - 1) + Explained(leg, arbiter, arbiter.Keys, k)
  }

  ghost function CensusTotal(leg: Series, arbiter: Series, k: int): nat
    requires -4 <= k <= 3
    decreases k + 4
  {
    if k == -4 then 0 else CensusTotal(leg, arbiter, k - 1) + |Explained(leg, arbiter, arbiter.Keys, k)|
  }

  lemma {:induction false} ExplainedUpToMeaning(leg: Series, arbiter: Series, k: int, t: int)
    requires -4 <= k <= 3 && t in ExplainedUpTo(leg, arbiter, k)
    ensures t in arbiter && exists h :: h <= k && AttributedTo(leg, arbiter, t, h)
    decreases k + 4
  {
    if t in Explained(leg, arbiter, arbiter.Keys, k) {
      assert k <= k && AttributedTo(leg, arbiter, t, k);
    } else {
      ExplainedUpToMeaning(leg, arbiter, k - 1, t);
    }
  }

  lemma ExplainedOnce(leg: Series, arbiter: Series, k: int)
    requires -4 < k <= 3
    ensures ExplainedUpTo(leg, arbiter, k - 1) !! Explained(leg, arbiter, arbiter.Keys, k)
  {
    forall t | t in ExplainedUpTo(leg, arbiter, k - 1)
      ensures t !in Explained(leg, arbiter, arbiter.Keys, k)
    {
      ExplainedUpToMeaning(leg, arbiter, k - 1, t);
    }
  }

  lemma {:induction false} TotalIsExplained(leg: Series, arbiter: Series, k: int)
    requires -4 <= k <= 3
    ensures CensusTotal(leg, arbiter, k) == |ExplainedUpTo(leg, arbiter, k)|
    decreases k + 4
  {
    if k > -4 {
      TotalIsExplained(leg, arbiter, k - 1);
      ExplainedOnce(leg, arbiter, k);
      DisjointSizes(ExplainedUpTo(leg, arbiter, k - 1), Explained(leg, arbiter, arbiter.Keys, k));
    }
  }

  lemma DisjointSizes(a: set<int>, b: set<int>)
    requires a !! b
    ensures |a + b| == |a| + |b|
  {
  }

  /** Every bucket is attributed at most once: the counts of all shifts add up to no more than
      the arbiter's buckets. */
  lemma AttributedOnce(leg: Series, arbiter: Series)
    ensures CensusTotal(leg, arbiter, 3) <= |arbiter|
  {
    TotalIsExplained(leg, arbiter, 3);
    var all := ExplainedUpTo(leg, arbiter, 3);
    forall t | t in all
      ensures t in arbiter.Keys
    {
      ExplainedUpToMeaning(leg, arbiter, 3, t);
    }
    CardinalityMonotone(all, arbiter.Keys);
  }

  lemma CardinalityMonotone(a: set<int>, b: set<int>)
    requires a <= b
    ensures |a| <= |b|
  {
    assert b == a + (b - a);
  }

  // ------------------------------------------------------------------ season segments

  const WINDOW_START := 1757894400
  const DST_FALL_BACK_2025 := 1761440400
  const DST_SPRING_FORWARD_2026 := 1774746000
  const WINDOW_END := 1789430399

  const SEASON_SEGMENTS: seq<(int, int)> :=
    [(WINDOW_START, DST_FALL_BACK_2025), (DST_FALL_BACK_2025, DST_SPRING_FORWARD_2026),
     (DST_SPRING_FORWARD_2026, WINDOW_END + 1)]

  function SharedIn(leg: Series, arbiter: Series, from: int, to: int): set<int> {
    set t | t in arbiter && from <= t < to && t in leg
  }

  /** The buckets that a leg shares with the arbiter in segment `i`. */
  function SharedInSegment(leg: Series, arbiter: Series, i: int): set<int>
    requires 0 <= i < 3
  {
    SharedIn(leg, arbiter, SEASON_SEGMENTS[i].0, SEASON_SEGMENTS[i].1)
  }

  /** The segments that share at least `least` buckets with the leg, each with its count. */
  method SegmentsWithCoverage(leg: Series, arbiter: Series, least: nat) returns (counts: map<int, nat>)
    ensures forall i :: i in counts <==> 0 <= i < 3 && |SharedInSegment(leg, arbiter, i)| >= least
    ensures forall i :: i in counts ==> counts[i] == |SharedInSegment(leg, arbiter, i)|
  {
    counts := map[];
    for i := 0 to 3
      invariant forall k :: k in counts <==> 0 <= k < i && |SharedInSegment(leg, arbiter, k)| >= least
      invariant forall k :: k in counts ==> counts[k] == |SharedInSegment(leg, arbiter, k)|
    {
      var common := SharedInSegment(leg, arbiter, i);
      if |common| >= least {
        counts := counts[i := |common|];
      }
    }
  }

  /** The segments leave no gap and no overlap: a shared bucket of the window is in exactly one of
      them, so their counts add up to the window's. */
  lemma SegmentsPartitionTheWindow(leg: Series, arbiter: Series)
    ensures forall i, j :: 0 <= i < j < 3 ==> SharedInSegment(leg, arbiter, i) !! SharedInSegment(leg, arbiter, j)
    ensures |SharedInSegment(leg, arbiter, 0)| + |SharedInSegment(leg, arbiter, 1)| + |SharedInSegment(leg, arbiter, 2)|
            == |SharedIn(leg, arbiter, WINDOW_START, WINDOW_END + 1)|
  {
    var a, b, c := SharedInSegment(leg, arbiter, 0), SharedInSegment(leg, arbiter, 1), SharedInSegment(leg, arbiter, 2);
    assert SharedIn(leg, arbiter, WINDOW_START, WINDOW_END + 1) == a + b + c;
    assert a !! b && (a + b) !! c;
  }

  /** Days from 1970-01-01 to a date of the Gregorian calendar; years are counted from March. */
  function Days(year: int, month: int, day: int): int {
    var y, m := if month <= 2 then year - 1 else year, if month <= 2 then month + 9 else month - 3;
    365 * y + y / 4 - y / 100 + y / 400 + (153 * m + 2) / 5 + day - 719469
  }

  /** The instants are those of the mission window and of the European clock changes in it: 01:00
      UTC on the last Sunday of October 2025 and of March 2026. */
  lemma SeasonInstants()
    ensures WINDOW_START == 86400 * Days(2025, 9, 15) && WINDOW_END + 1 == 86400 * Days(2026, 9, 15)
    ensures DST_FALL_BACK_2025 == 86400 * Days(2025, 10, 26) + 3600 && DST_SPRING_FORWARD_2026 == 86400 * Days(2026, 3, 29) + 3600
    ensures (Days(2025, 10, 26) + 4) % 7 == 0 && Days(2025, 10, 26) + 7 > Days(2025, 10, 31)
    ensures (Days(2026, 3, 29) + 4) % 7 == 0 && Days(2026, 3, 29) + 7 > Days(2026, 3, 31)
    ensures Days(1970, 1, 1) == 0
  {
  }

  // ------------------------------------------------------------------ admission

  datatype Status = NO_OVERLAP | DST_INCONSISTENT | MISALIGNED | SINGLE_SEASON | ALIGNED

  function Classify(best: ShiftResult, census: map<int, nat>, segments: nat): Status
    requires best.shared > 0
  {
    if |census| >= 2 then DST_INCONSISTENT
    else if !(best.shift == 0 && best.ExactRate() >= 0.999999) then MISALIGNED
    else if segments < 2 then SINGLE_SEASON
    else ALIGNED
  }

  ghost predicate Fractured(leg: Series, arbiter: Series) {
    exists h, k :: Shift(h) && Shift(k) && h != k
                   && |Explained(leg, arbiter, arbiter.Keys, h)| >= MIN_COMMON_BUCKETS
                   && |Explained(leg, arbiter, arbiter.Keys, k)| >= MIN_COMMON_BUCKETS
  }

  lemma CensusSizeIsFracture(census: map<int, nat>, leg: Series, arbiter: Series)
    requires IsCensus(census, leg, arbiter, MIN_COMMON_BUCKETS)
    ensures |census| >= 2 <==> Fractured(leg, arbiter)
  {
    if h, k :| Shift(h) && Shift(k) && h != k
               && |Explained(leg, arbiter, arbiter.Keys, h)| >= MIN_COMMON_BUCKETS
               && |Explained(leg, arbiter, arbiter.Keys, k)| >= MIN_COMMON_BUCKETS {
      CardinalityMonotone({h, k}, census.Keys);
    }
    if |census| >= 2 {
      var keys := census.Keys;
      assert |keys| >= 2;
      assert (forall t :: t !in keys) ==> keys == {};
      var h :| h in keys;
      var rest := keys - {h};
      assert (forall t :: t !in rest) ==> rest == {};
      assert |rest| >= 1;
      var k :| k in rest;
    }
  }

  /** The exact rate at a shift (nought where nothing is shared). */
  function RateAt(leg: Series, arbiter: Series, h: int): real {
    if |Shared(leg, arbiter, h)| == 0 then 0.0 else ResultAt(leg, arbiter, h).ExactRate()
  }

  /** Zero wins the scan: no shift does better and none tried before zero does as well. */
  ghost predicate BestAtZero(leg: Series, arbiter: Series) {
    && |Shared(leg, arbiter, 0)| > 0
    && (forall h :: Shift(h) && |Shared(leg, arbiter, h)| > 0 ==>
          && RateAt(leg, arbiter, h) <= RateAt(leg, arbiter, 0)
          && (h < 0 ==> RateAt(leg, arbiter, h) < RateAt(leg, arbiter, 0)))
  }

  ghost function TestedSegments(leg: Series, arbiter: Series): set<int> {
    set i | 0 <= i < 3 && |SharedInSegment(leg, arbiter, i)| >= MIN_COMMON_BUCKETS
  }

  /** Position `z` holds shift zero, beaten by none and unequalled by the negative shifts. */
  ghost predicate ZeroWins(shifts: seq<int>, rates: seq<real>, z: int)
    requires |rates| == |shifts|
  {
    && 0 <= z < |shifts| && shifts[z] == 0
    && (forall i :: 0 <= i < |rates| ==> rates[i] <= rates[z] && (shifts[i] < 0 ==> rates[i] < rates[z]))
  }

  /** Two seasons are tested exactly when two of the three stretches of the window, cut at the clock
      changes, share a hundred buckets each. */
  lemma TwoSeasonsExactly(leg: Series, arbiter: Series)
    ensures var summer, winter, next := |SharedIn(leg, arbiter, 1757894400, 1761440400)|,
                |SharedIn(leg, arbiter, 1761440400, 1774746000)|, |SharedIn(leg, arbiter, 1774746000, 1789430400)|;
            |TestedSegments(leg, arbiter)| >= 2 <==>
            (summer >= 100 && winter >= 100) || (summer >= 100 && next >= 100) || (winter >= 100 && next >= 100)
  {
    TwoOfThree(TestedSegments(leg, arbiter));
  }

  lemma TwoOfThree(s: set<int>)
    requires forall i :: i in s ==> 0 <= i < 3
    ensures |s| >= 2 <==> (0 in s && 1 in s) || (0 in s && 2 in s) || (1 in s && 2 in s)
  {
    var parts := (if 0 in s then {0} else {}) + (if 1 in s then {1} else {}) + (if 2 in s then {2} else {});
    forall i
      ensures i in s <==> i in parts
    {
      assert i in s ==> i == 0 || i == 1 || i == 2;
    }
    assert s == parts;
  }

  lemma FewIn(leg: Series, arbiter: Series, from: int, to: int)
    requires forall t :: t in leg && t in arbiter ==> !(from <= t < to)
    ensures SharedIn(leg, arbiter, from, to) == {}
  {
  }

  /** A leg whose shared buckets all lie on one side of the clock changes, or between them, has
      never been tested across one: it is not admitted, however well it agrees. */
  lemma OneSeasonIsNeverAdmitted(leg: Series, arbiter: Series, lo: int, hi: int)
    requires hi <= 1761440400 || (1761440400 <= lo && hi <= 1774746000) || 1774746000 <= lo
    requires forall t :: t in leg && t in arbiter ==> lo <= t < hi
    ensures |TestedSegments(leg, arbiter)| < 2
  {
    TwoSeasonsExactly(leg, arbiter);
    if hi > 1761440400 {
      FewIn(leg, arbiter, 1757894400, 1761440400);
    }
    if lo < 1761440400 || hi > 1774746000 {
      FewIn(leg, arbiter, 1761440400, 1774746000);
    }
    if lo < 1774746000 {
      FewIn(leg, arbiter, 1774746000, 1789430400);
    }
  }

  /** In a list sorted by shift, the first best one is at zero exactly when zero wins. */
  lemma FirstBestIsZero(shifts: seq<int>, rates: seq<real>, b: int)
    requires |rates| == |shifts| && 0 <= b < |rates|
    requires forall i, j :: 0 <= i < j < |shifts| ==> shifts[i] < shifts[j]
    requires forall i :: 0 <= i < |rates| ==> rates[i] <= rates[b]
    requires forall i :: 0 <= i < b ==> rates[i] < rates[b]
    ensures shifts[b] == 0 <==> exists z :: ZeroWins(shifts, rates, z)
  {
    if shifts[b] == 0 {
      assert forall i :: 0 <= i < |rates| && shifts[i] < 0 ==> i < b;
      assert ZeroWins(shifts, rates, b);
    }
    if z :| ZeroWins(shifts, rates, z) {
      assert rates[b] == rates[z];
      assert b <= z && shifts[b] >= 0;
    }
  }

  function ShiftsOf(results: seq<ShiftResult>): (r: seq<int>)
    ensures |r| == |results| && forall i :: 0 <= i < |r| ==> r[i] == results[i].shift
  {
    seq(|results|, i requires 0 <= i < |results| => results[i].shift)
  }

  function RatesOf(results: seq<ShiftResult>): (r: seq<real>)
    requires forall i :: 0 <= i < |results| ==> results[i].shared > 0
    ensures |r| == |results| && forall i :: 0 <= i < |r| ==> r[i] == results[i].ExactRate()
  {
    seq(|results|, i requires 0 <= i < |results| => results[i].ExactRate())
  }

  lemma RatesMeaning(results: seq<ShiftResult>, leg: Series, arbiter: Series, i: int)
    requires ScannedTo(results, leg, arbiter, 4) && 0 <= i < |results|
    ensures results[i] == ResultAt(leg, arbiter, results[i].shift) && results[i].shared > 0 && Shift(results[i].shift)
    ensures results[i].ExactRate() == RateAt(leg, arbiter, results[i].shift)
  {
    assert IsResult(results[i], leg, arbiter);
  }

  lemma BestIsZeroExactly(leg: Series, arbiter: Series, results: seq<ShiftResult>, best: ShiftResult)
    requires ScannedTo(results, leg, arbiter, 4)
    requires exists b :: HeadOfSort(results, b) && best == results[b]
    ensures best.shift == 0 <==> BestAtZero(leg, arbiter)
  {
    var b :| HeadOfSort(results, b) && best == results[b];
    FirstBestIsZero(ShiftsOf(results), RatesOf(results), b);
    ZeroInList(leg, arbiter, results, ShiftsOf(results), RatesOf(results));
  }

  lemma ZeroInList(leg: Series, arbiter: Series, results: seq<ShiftResult>, shifts: seq<int>, rates: seq<real>)
    requires ScannedTo(results, leg, arbiter, 4) && (forall i :: 0 <= i < |results| ==> results[i].shared > 0)
    requires |shifts| == |rates| == |results|
    requires forall i :: 0 <= i < |results| ==> shifts[i] == results[i].shift && rates[i] == results[i].ExactRate()
    ensures (exists z :: ZeroWins(shifts, rates, z)) <==> BestAtZero(leg, arbiter)
  {
    if z :| ZeroWins(shifts, rates, z) {
      RatesMeaning(results, leg, arbiter, z);
      forall h | Shift(h) && |Shared(leg, arbiter, h)| > 0
        ensures RateAt(leg, arbiter, h) <= RateAt(leg, arbiter, 0)
        ensures h < 0 ==> RateAt(leg, arbiter, h) < RateAt(leg, arbiter, 0)
      {
        var i := ResultIndex(leg, arbiter, results, h);
      }
    }
    if BestAtZero(leg, arbiter) {
      var z := ResultIndex(leg, arbiter, results, 0);
      forall i | 0 <= i < |rates|
        ensures rates[i] <= rates[z] && (shifts[i] < 0 ==> rates[i] < rates[z])
      {
        RatesMeaning(results, leg, arbiter, i);
      }
      assert ZeroWins(shifts, rates, z);
    }
  }

  lemma ResultIndex(leg: Series, arbiter: Series, results: seq<ShiftResult>, h: int) returns (i: int)
    requires ScannedTo(results, leg, arbiter, 4)
    requires Shift(h) && |Shared(leg, arbiter, h)| > 0
    ensures 0 <= i < |results| && results[i].shift == h && results[i].shared > 0
    ensures results[i].ExactRate() == RateAt(leg, arbiter, h)
  {
    assert Lists(results, h);
    i :| 0 <= i < |results| && results[i].shift == h;
    RatesMeaning(results, leg, arbiter, i);
  }

  /** The buckets the leg has a bar for, `h` hours later, and those of them it disagrees on. */
  ghost function Met(leg: Series, arbiter: Series, h: int): set<int> {
    set t | t in arbiter && t + 3600 * h in leg
  }

  ghost function Missed(leg: Series, arbiter: Series, h: int): set<int> {
    set t | t in arbiter && t + 3600 * h in leg && leg[t + 3600 * h] != arbiter[t]
  }

  lemma RatesCompare(a: ShiftResult, b: ShiftResult)
    requires a.shared > 0 && b.shared > 0
    ensures a.ExactRate() <= b.ExactRate() <==> b.mismatches * a.shared <= a.mismatches * b.shared
    ensures a.ExactRate() < b.ExactRate() <==> b.mismatches * a.shared < a.mismatches * b.shared
  {
    var am, an, bm, bn := a.mismatches as real, a.shared as real, b.mismatches as real, b.shared as real;
    var p, q := am / an, bm / bn;
    assert p * an == am && q * bn == bm;
    assert bm * an == q * (an * bn) && am * bn == p * (an * bn);
    CompareScaled(p, q, an * bn);
    assert (b.mismatches * a.shared) as real == bm * an && (a.mismatches * b.shared) as real == am * bn;
  }

  lemma CompareScaled(p: real, q: real, w: real)
    requires w > 0.0
    ensures q <= p <==> q * w <= p * w
    ensures q < p <==> q * w < p * w
  {
  }

  /** Zero wins the scan exactly when it meets a bucket and no shift from -3 to 3 misses a smaller
      share of what it meets, those before zero not even an equal one. */
  lemma BestAtZeroExactly(leg: Series, arbiter: Series)
    ensures BestAtZero(leg, arbiter) <==>
            && Met(leg, arbiter, 0) != {}
            && (forall h :: -3 <= h <= 3 && Met(leg, arbiter, h) != {} ==>
                  && |Missed(leg, arbiter, 0)| * |Met(leg, arbiter, h)| <= |Missed(leg, arbiter, h)| * |Met(leg, arbiter, 0)|
                  && (h < 0 ==> |Missed(leg, arbiter, 0)| * |Met(leg, arbiter, h)| < |Missed(leg, arbiter, h)| * |Met(leg, arbiter, 0)|))
  {
    forall h
      ensures Shared(leg, arbiter, h) == Met(leg, arbiter, h) && Mismatched(leg, arbiter, h) == Missed(leg, arbiter, h)
    {
      SameSets(leg, arbiter, h);
    }
    if Met(leg, arbiter, 0) != {} {
      forall h | Shift(h) && Met(leg, arbiter, h) != {}
        ensures RateAt(leg, arbiter, h) <= RateAt(leg, arbiter, 0) <==>
                |Missed(leg, arbiter, 0)| * |Met(leg, arbiter, h)| <= |Missed(leg, arbiter, h)| * |Met(leg, arbiter, 0)|
        ensures RateAt(leg, arbiter, h) < RateAt(leg, arbiter, 0) <==>
                |Missed(leg, arbiter, 0)| * |Met(leg, arbiter, h)| < |Missed(leg, arbiter, h)| * |Met(leg, arbiter, 0)|
      {
        RatesCompare(ResultAt(leg, arbiter, h), ResultAt(leg, arbiter, 0));
      }
    }
  }

  /** The result of the shift that misses the smallest share, the most negative of such. */
  ghost predicate IsBest(r: ShiftResult, leg: Series, arbiter: Series) {
    && -3 <= r.shift <= 3 && Met(leg, arbiter, r.shift) != {}
    && r == ShiftResult(r.shift, |Met(leg, arbiter, r.shift)|, |Missed(leg, arbiter, r.shift)|)
    && (forall h :: -3 <= h <= 3 && Met(leg, arbiter, h) != {} ==>
          && r.mismatches * |Met(leg, arbiter, h)| <= |Missed(leg, arbiter, h)| * r.shared
          && (h < r.shift ==> r.mismatches * |Met(leg, arbiter, h)| < |Missed(leg, arbiter, h)| * r.shared))
  }

  lemma SameSets(leg: Series, arbiter: Series, h: int)
    ensures Shared(leg, arbiter, h) == Met(leg, arbiter, h) && Mismatched(leg, arbiter, h) == Missed(leg, arbiter, h)
  {
  }

  lemma HeadIsBest(leg: Series, arbiter: Series, results: seq<ShiftResult>, best: ShiftResult)
    requires ScannedTo(results, leg, arbiter, 4)
    requires exists b :: HeadOfSort(results, b) && best == results[b]
    ensures IsBest(best, leg, arbiter)
  {
    var b :| HeadOfSort(results, b) && best == results[b];
    RatesMeaning(results, leg, arbiter, b);
    SameSets(leg, arbiter, best.shift);
    forall h | -3 <= h <= 3 && Met(leg, arbiter, h) != {}
      ensures best.mismatches * |Met(leg, arbiter, h)| <= |Missed(leg, arbiter, h)| * best.shared
      ensures h < best.shift ==> best.mismatches * |Met(leg, arbiter, h)| < |Missed(leg, arbiter, h)| * best.shared
    {
      SameSets(leg, arbiter, h);
      var i := ResultIndex(leg, arbiter, results, h);
      RatesMeaning(results, leg, arbiter, i);
      RatesCompare(results[i], best);
      assert h < best.shift ==> i < b;
    }
  }

  /** No fracture, zero winning the scan, at most one mismatch in a million shared buckets. */
  ghost predicate AlignedAtZero(leg: Series, arbiter: Series) {
    && !Fractured(leg, arbiter)
    && BestAtZero(leg, arbiter)
    && |Mismatched(leg, arbiter, 0)| * 1000000 <= |Shared(leg, arbiter, 0)|
  }

  /** The decision on one loaded leg, exactly: no overlap at any shift; a fracture; or admission,
      which takes no fracture, zero winning the scan, at most one mismatch in a million shared
      buckets, and two tested seasons (with fewer it is not evaluable). Anything else is
      misaligned. */
  method AuditLeg(leg: Series, arbiter: Series) returns (status: Status, best: Option<ShiftResult>)
    ensures status == NO_OVERLAP <==> forall h :: Shift(h) ==> Shared(leg, arbiter, h) == {}
    ensures status == DST_INCONSISTENT <==> Fractured(leg, arbiter)
    ensures status == ALIGNED <==> AlignedAtZero(leg, arbiter) && |TestedSegments(leg, arbiter)| >= 2
    ensures status == SINGLE_SEASON <==> AlignedAtZero(leg, arbiter) && |TestedSegments(leg, arbiter)| < 2
    ensures status == NO_OVERLAP <==> best == None
    ensures best.Some? ==> IsBest(best.value, leg, arbiter)
  {
    var results := ShiftScan(leg, arbiter);
    if results == [] {
      NoOverlapNoFracture(leg, arbiter);
      return NO_OVERLAP, None;
    }
    var head := BestShift(results);
    BestIsZeroExactly(leg, arbiter, results, head);
    HeadIsBest(leg, arbiter, results, head);
    var census := BimodalShiftCensus(leg, arbiter, MIN_COMMON_BUCKETS);
    CensusSizeIsFracture(census, leg, arbiter);
    var segments := SegmentsWithCoverage(leg, arbiter, MIN_COMMON_BUCKETS);
    assert segments.Keys == TestedSegments(leg, arbiter);
    ThresholdInBuckets(head);
    status, best := Classify(head, census, |segments|), Some(head);
    assert IsResult(results[0], leg, arbiter);
    assert Shared(leg, arbiter, results[0].shift) != {};
  }

  lemma NoOverlapNoFracture(leg: Series, arbiter: Series)
    requires forall h :: Shift(h) ==> Shared(leg, arbiter, h) == {}
    ensures !Fractured(leg, arbiter)
  {
    forall h | Shift(h)
      ensures Explained(leg, arbiter, arbiter.Keys, h) == {}
    {
      forall t | t in Explained(leg, arbiter, arbiter.Keys, h)
        ensures t in Shared(leg, arbiter, h)
      {
        AttributionInRange(leg, arbiter, t, h);
      }
    }
  }

  // ------------------------------------------------------------------ admitted legs agree

  /** What admission says of a leg with fewer than a million shared buckets. */
  lemma AdmittedLegEqualsArbiter(leg: Series, arbiter: Series, t: int)
    requires |Mismatched(leg, arbiter, 0)| * 1000000 <= |Shared(leg, arbiter, 0)| < 1000000
    requires t in arbiter && t in leg
    ensures leg[t] == arbiter[t]
  {
    assert |Mismatched(leg, arbiter, 0)| == 0;
    assert t !in Mismatched(leg, arbiter, 0);
  }

  /** A leg's lookup table: the last candle of an instant wins. */
  function TableOf(candles: seq<Candle>): Series {
    if candles == [] then map[]
    else TableOf(candles[..|candles| - 1])[candles[|candles| - 1].time := candles[|candles| - 1].bar]
  }

  /** The table holds a candle of the leg for every instant of the leg. */
  lemma {:induction false} TableMembers(candles: seq<Candle>, t: int, v: Ohlc)
    requires Candle(t, v) in candles
    ensures t in TableOf(candles) && Candle(t, TableOf(candles)[t]) in candles
  {
    var n := |candles| - 1;
    if candles[n].time == t {
      assert candles[n] == Candle(t, candles[n].bar);
    } else {
      assert Candle(t, v) in candles[..n];
      TableMembers(candles[..n], t, v);
    }
  }

  ghost predicate LastAt(candles: seq<Candle>, i: int, t: int) {
    0 <= i < |candles| && candles[i].time == t && forall j :: i < j < |candles| ==> candles[j].time != t
  }

  /** Exactly: the bar of the last candle of each instant. */
  lemma {:induction false} TableExactly(candles: seq<Candle>, t: int, v: Ohlc)
    ensures t in TableOf(candles) && TableOf(candles)[t] == v <==> exists i :: LastAt(candles, i, t) && candles[i].bar == v
  {
    if candles != [] {
      var n := |candles| - 1;
      var front := candles[..n];
      TableExactly(front, t, v);
      if candles[n].time == t {
        assert LastAt(candles, n, t);
      } else {
        forall i | 0 <= i < n
          ensures LastAt(candles, i, t) <==> LastAt(front, i, t)
        {
          if LastAt(front, i, t) {
            assert forall j :: i < j < n ==> candles[j] == front[j];
          }
          if LastAt(candles, i, t) {
            assert forall j :: i < j < n ==> front[j] == candles[j];
          }
        }
      }
    }
  }

  lemma FlattenMember(groups: seq<seq<Candle>>, c: Candle) returns (g: int)
    requires c in Flatten(groups)
    ensures 0 <= g < |groups| && c in groups[g]
  {
    FlattenExactly(groups, c);
    g :| 0 <= g < |groups| && c in groups[g];
  }

  /** The leg lists two different candles for one instant. */
  ghost predicate ContradictsItself(candles: seq<Candle>, t: int) {
    exists v, w :: v != w && Candle(t, v) in candles && Candle(t, w) in candles
  }

  /** At most one mismatch in a million shared buckets, and fewer than a million of them. */
  ghost predicate Exact(leg: Series, arbiter: Series) {
    |Mismatched(leg, arbiter, 0)| * 1000000 <= |Shared(leg, arbiter, 0)| < 1000000
  }

  /** A candle of an exact leg is the arbiter's, unless the leg contradicts itself there. */
  lemma CandleOfExactLeg(candles: seq<Candle>, arbiter: Series, t: int, v: Ohlc)
    requires Exact(TableOf(candles), arbiter) && t in arbiter && Candle(t, v) in candles
    ensures v == arbiter[t] || ContradictsItself(candles, t)
  {
    TableMembers(candles, t, v);
    AdmittedLegEqualsArbiter(TableOf(candles), arbiter, t);
  }

  /** Admitted legs cannot contradict each other inside the arbiter: a conflict reported at one of
      its buckets is a leg contradicting itself. */
  lemma InsideConflictIsOneLegs(groups: seq<seq<Candle>>, arbiter: Series, t: int)
    requires forall g :: 0 <= g < |groups| ==> Exact(TableOf(groups[g]), arbiter)
    requires t in arbiter && Disputed(Offers(Flatten(groups), t))
    ensures exists g :: 0 <= g < |groups| && ContradictsItself(groups[g], t)
  {
    DisputedMeansDisagreement(Flatten(groups), t);
    var v, w :| v != w && Candle(t, v) in Flatten(groups) && Candle(t, w) in Flatten(groups);
    var g := FlattenMember(groups, Candle(t, v));
    CandleOfExactLeg(groups[g], arbiter, t, v);
    var g' := FlattenMember(groups, Candle(t, w));
    CandleOfExactLeg(groups[g'], arbiter, t, w);
  }

  /** So between legs of unique timestamps a conflict is at a timestamp the arbiter has no bucket
      for. */
  lemma AdmittedLegsConflictOnlyOutsideArbiter(groups: seq<seq<Candle>>, arbiter: Series, t: int)
    requires forall g :: 0 <= g < |groups| ==> UniqueTimes(groups[g]) && Exact(TableOf(groups[g]), arbiter)
    requires Disputed(Offers(Flatten(groups), t))
    ensures t !in arbiter
  {
    if t in arbiter {
      InsideConflictIsOneLegs(groups, arbiter, t);
      assert false;
    }
  }

  /** The legs with these numbers. */
  function Pick(candidates: seq<seq<Candle>>, chosen: seq<nat>): (r: seq<seq<Candle>>)
    requires forall i :: 0 <= i < |chosen| ==> chosen[i] < |candidates|
    ensures |r| == |chosen| && forall i :: 0 <= i < |chosen| ==> r[i] == candidates[chosen[i]]
  {
    seq(|chosen|, i requires 0 <= i < |chosen| => candidates[chosen[i]])
  }

  ghost predicate Admitted(candles: seq<Candle>, arbiter: Series) {
    AlignedAtZero(TableOf(candles), arbiter) && |TestedSegments(TableOf(candles), arbiter)| >= 2
  }

  /** The numbers of the set flags, in order. */
  ghost predicate Picks(chosen: seq<nat>, flags: seq<bool>) {
    && (forall i :: 0 <= i < |chosen| ==> chosen[i] < |flags| && flags[chosen[i]])
    && (forall i, j :: 0 <= i < j < |chosen| ==> chosen[i] < chosen[j])
    && (forall g :: 0 <= g < |flags| && flags[g] ==> g in chosen)
  }

  lemma PicksNext(chosen: seq<nat>, flags: seq<bool>, flag: bool)
    requires Picks(chosen, flags)
    ensures Picks(if flag then chosen + [|flags|] else chosen, flags + [flag])
  {
    var more, longer := flags + [flag], if flag then chosen + [|flags|] else chosen;
    forall i | 0 <= i < |longer|
      ensures longer[i] < |more| && more[longer[i]]
    {
      assert i < |chosen| ==> longer[i] == chosen[i] && more[chosen[i]] == flags[chosen[i]];
    }
    forall g | 0 <= g < |more| && more[g]
      ensures g in longer
    {
      if g < |flags| {
        assert flags[g] && g in chosen;
      } else {
        assert longer[|chosen|] == g;
      }
    }
  }

  method AuditCandidate(candles: seq<Candle>, arbiter: Series) returns (aligned: bool)
    ensures aligned <==> Admitted(candles, arbiter)
  {
    var status, _ := AuditLeg(TableOf(candles), arbiter);
    aligned := status == ALIGNED;
  }

  /** `flags` says which of the first legs are admitted. */
  ghost predicate FlagsAdmitted(flags: seq<bool>, candidates: seq<seq<Candle>>, arbiter: Series) {
    |flags| <= |candidates| && forall g :: 0 <= g < |flags| ==> (flags[g] <==> Admitted(candidates[g], arbiter))
  }

  lemma FlagNext(flags: seq<bool>, flag: bool, candidates: seq<seq<Candle>>, arbiter: Series)
    requires FlagsAdmitted(flags, candidates, arbiter) && |flags| < |candidates|
    requires flag <==> Admitted(candidates[|flags|], arbiter)
    ensures FlagsAdmitted(flags + [flag], candidates, arbiter)
  {
    forall g | 0 <= g < |flags| + 1
      ensures (flags + [flag])[g] <==> Admitted(candidates[g], arbiter)
    {
      assert g < |flags| ==> (flags + [flag])[g] == flags[g];
    }
  }

  /** Every candidate is audited; the aligned ones are listed in source order. */
  method ChooseLegs(candidates: seq<seq<Candle>>, arbiter: Series) returns (chosen: seq<nat>, ghost flags: seq<bool>)
    ensures |flags| == |candidates| && FlagsAdmitted(flags, candidates, arbiter) && Picks(chosen, flags)
  {
    chosen, flags := [], [];
    for g := 0 to |candidates|
      invariant |flags| == g && FlagsAdmitted(flags, candidates, arbiter) && Picks(chosen, flags)
    {
      var aligned := AuditCandidate(candidates[g], arbiter);
      FlagNext(flags, aligned, candidates, arbiter);
      PicksNext(chosen, flags, aligned);
      if aligned {
        chosen := chosen + [g];
      }
      flags := flags + [aligned];
    }
  }

  lemma ChosenExactly(chosen: seq<nat>, flags: seq<bool>, candidates: seq<seq<Candle>>, arbiter: Series)
    requires |flags| == |candidates| && FlagsAdmitted(flags, candidates, arbiter) && Picks(chosen, flags)
    ensures forall i :: 0 <= i < |chosen| ==> chosen[i] < |candidates|
    ensures forall i, j :: 0 <= i < j < |chosen| ==> chosen[i] < chosen[j]
    ensures forall g: nat :: g in chosen <==> g < |candidates| && Admitted(candidates[g], arbiter)
  {
    forall g: nat
      ensures g in chosen <==> g < |candidates| && Admitted(candidates[g], arbiter)
    {
      assert g < |flags| ==> (flags[g] <==> Admitted(candidates[g], arbiter));
    }
  }

  lemma InsideConflicts(candidates: seq<seq<Candle>>, chosen: seq<nat>, arbiter: Series, t: int)
    requires forall i :: 0 <= i < |chosen| ==> chosen[i] < |candidates| && Exact(TableOf(candidates[chosen[i]]), arbiter)
    requires t in arbiter && Disputed(Offers(Flatten(Pick(candidates, chosen)), t))
    ensures exists g: nat :: g in chosen && ContradictsItself(candidates[g], t)
  {
    InsideConflictIsOneLegs(Pick(candidates, chosen), arbiter, t);
    var i :| 0 <= i < |chosen| && ContradictsItself(Pick(candidates, chosen)[i], t);
    assert chosen[i] in chosen && ContradictsItself(candidates[chosen[i]], t);
  }

  lemma PickedFrom(candidates: seq<seq<Candle>>, chosen: seq<nat>, c: Candle)
    requires forall i :: 0 <= i < |chosen| ==> chosen[i] < |candidates|
    requires c in Flatten(Pick(candidates, chosen))
    ensures exists g: nat :: g in chosen && c in candidates[g]
  {
    FlattenExactly(Pick(candidates, chosen), c);
    var i :| 0 <= i < |chosen| && c in Pick(candidates, chosen)[i];
    assert chosen[i] in chosen && c in candidates[chosen[i]];
  }

  lemma AdmittedIsExact(candles: seq<Candle>, arbiter: Series)
    requires Admitted(candles, arbiter) && |Shared(TableOf(candles), arbiter, 0)| < 1000000
    ensures Exact(TableOf(candles), arbiter)
  {
  }

  /** The arbitration of one timeframe: the admitted candidates are merged, and below a million
      shared buckets a conflict inside the arbiter is always one leg's own contradiction. */
  method ArbitrateLegs(candidates: seq<seq<Candle>>, arbiter: Series)
    returns (chosen: seq<nat>, merged: seq<Candle>, conflicts: seq<int>)
    ensures forall i :: 0 <= i < |chosen| ==> chosen[i] < |candidates|
    ensures forall i, j :: 0 <= i < j < |chosen| ==> chosen[i] < chosen[j]
    ensures forall g: nat :: g in chosen <==> g < |candidates| && Admitted(candidates[g], arbiter)
    ensures Ascending(conflicts) && forall t :: t in conflicts <==> Disputed(Offers(Flatten(Pick(candidates, chosen)), t))
    ensures forall i, j :: 0 <= i < j < |merged| ==> merged[i].time < merged[j].time
    ensures forall c :: c in merged ==>
              && (exists g: nat :: g in chosen && c in candidates[g])
              && Standing(Offers(Flatten(Pick(candidates, chosen)), c.time)) == Some(c.bar)
    ensures forall t :: Standing(Offers(Flatten(Pick(candidates, chosen)), t)).Some? ==> exists c :: c in merged && c.time == t
    ensures (forall g: nat :: g in chosen ==> |Shared(TableOf(candidates[g]), arbiter, 0)| < 1000000) ==>
              forall t :: t in conflicts && t in arbiter ==> exists g: nat :: g in chosen && ContradictsItself(candidates[g], t)
  {
    ghost var flags;
    chosen, flags := ChooseLegs(candidates, arbiter);
    ChosenExactly(chosen, flags, candidates, arbiter);
    merged, conflicts := MergeWithConflictDetection(Pick(candidates, chosen));
    forall c | c in merged
      ensures exists g: nat :: g in chosen && c in candidates[g]
    {
      PickedFrom(candidates, chosen, c);
    }
    if forall g: nat :: g in chosen ==> |Shared(TableOf(candidates[g]), arbiter, 0)| < 1000000 {
      forall i | 0 <= i < |chosen|
        ensures Exact(TableOf(candidates[chosen[i]]), arbiter)
      {
        assert chosen[i] in chosen;
        AdmittedIsExact(candidates[chosen[i]], arbiter);
      }
      forall t | t in conflicts && t in arbiter
        ensures exists g: nat :: g in chosen && ContradictsItself(candidates[g], t)
      {
        InsideConflicts(candidates, chosen, arbiter, t);
      }
    }
  }

  // ------------------------------------------------------------------ fractures are found

  /** No two arbiter buckets within six hours carry the same bar. */
  ghost predicate LocallyDistinct(arbiter: Series) {
    forall t, u :: t in arbiter && u in arbiter && t != u && Hours(-6) <= t - u <= Hours(6) ==> arbiter[t] != arbiter[u]
  }

  /** The leg carries the arbiter's buckets `a` moved by `h` hours. */
  ghost predicate Moved(leg: Series, arbiter: Series, a: set<int>, h: int) {
    forall t :: t in a ==> t in arbiter && t + 3600 * h in leg && leg[t + 3600 * h] == arbiter[t]
  }

  /** The leg's bar at `u` equals the arbiter's bucket `t`, at most three hours away. */
  ghost predicate Resembles(leg: Series, arbiter: Series, u: int, t: int) {
    u in leg && t in arbiter && Hours(-3) <= u - t <= Hours(3) && leg[u] == arbiter[t]
  }

  /** Any other bar of the leg equals no arbiter bucket within three hours of it. */
  ghost predicate OtherwiseForeign(leg: Series, arbiter: Series, a: set<int>, h: int, b: set<int>, k: int) {
    forall u, t :: Resembles(leg, arbiter, u, t) ==> u - Hours(h) in a || u - Hours(k) in b
  }

  lemma SameBucket(arbiter: Series, t: int, u: int)
    requires LocallyDistinct(arbiter) && t in arbiter && u in arbiter && arbiter[t] == arbiter[u]
    requires Hours(-6) <= t - u <= Hours(6)
    ensures t == u
  {
  }

  /** Such a bucket matches at its own shift only. */
  lemma MatchesOnlyItsShift(leg: Series, arbiter: Series, a: set<int>, h: int, b: set<int>, k: int, t: int, s: int)
    requires Shift(h) && Shift(k) && a !! b && LocallyDistinct(arbiter)
    requires Moved(leg, arbiter, a, h) && Moved(leg, arbiter, b, k) && OtherwiseForeign(leg, arbiter, a, h, b, k)
    requires t in a && Shift(s) && Matches(leg, arbiter[t], t, s)
    ensures s == h
  {
    var u := t + Hours(s);
    assert Resembles(leg, arbiter, u, t);
    if u - Hours(h) in a {
      assert leg[(u - Hours(h)) + Hours(h)] == arbiter[u - Hours(h)];
      SameBucket(arbiter, u - Hours(h), t);
    } else {
      SameBucket(arbiter, u - Hours(k), t);
    }
  }

  lemma MovedBucketsAreExplained(leg: Series, arbiter: Series, a: set<int>, h: int, b: set<int>, k: int, t: int)
    requires Shift(h) && Shift(k) && a !! b && LocallyDistinct(arbiter)
    requires Moved(leg, arbiter, a, h) && Moved(leg, arbiter, b, k) && OtherwiseForeign(leg, arbiter, a, h, b, k)
    requires t in a
    ensures AttributedTo(leg, arbiter, t, h)
  {
    forall s | -3 <= s < h
      ensures !Matches(leg, arbiter[t], t, s)
    {
      if Matches(leg, arbiter[t], t, s) {
        MatchesOnlyItsShift(leg, arbiter, a, h, b, k, t, s);
      }
    }
    FirstMatchIsLeast(leg, arbiter[t], t, -3, h);
  }

  /** Completeness of fracture detection: a leg that is the arbiter moved by two different
      whole-hour shifts on at least a hundred buckets each is always found fractured. */
  lemma FractureIsDetected(leg: Series, arbiter: Series, a: set<int>, h: int, b: set<int>, k: int)
    requires Shift(h) && Shift(k) && h != k && a !! b && LocallyDistinct(arbiter)
    requires Moved(leg, arbiter, a, h) && Moved(leg, arbiter, b, k) && OtherwiseForeign(leg, arbiter, a, h, b, k)
    requires |a| >= MIN_COMMON_BUCKETS && |b| >= MIN_COMMON_BUCKETS
    ensures Fractured(leg, arbiter)
  {
    forall t | t in a
      ensures t in Explained(leg, arbiter, arbiter.Keys, h)
    {
      MovedBucketsAreExplained(leg, arbiter, a, h, b, k, t);
    }
    forall t | t in b
      ensures t in Explained(leg, arbiter, arbiter.Keys, k)
    {
      MovedBucketsAreExplained(leg, arbiter, b, k, a, h, t);
    }
    CardinalityMonotone(a, Explained(leg, arbiter, arbiter.Keys, h));
    CardinalityMonotone(b, Explained(leg, arbiter, arbiter.Keys, k));
  }

  // ------------------------------------------------------------------ exactly which legs are fractured

  /** The leg carries the arbiter's bucket `t` moved by `h` hours. */
  ghost predicate Carries(leg: Series, arbiter: Series, t: int, h: int) {
    t in arbiter && t + 3600 * h in leg && leg[t + 3600 * h] == arbiter[t]
  }

  /** Buckets moved by `h` that match at no more negative shift. */
  ghost predicate MovedFirst(leg: Series, arbiter: Series, a: set<int>, h: int) {
    Moved(leg, arbiter, a, h) && forall t, s :: t in a && -3 <= s < h ==> !Carries(leg, arbiter, t, s)
  }

  ghost predicate TwoTimeBases(leg: Series, arbiter: Series, a: set<int>, h: int, b: set<int>, k: int) {
    && -3 <= h <= 3 && -3 <= k <= 3 && h != k && |a| >= 100 && |b| >= 100
    && MovedFirst(leg, arbiter, a, h) && MovedFirst(leg, arbiter, b, k)
  }

  lemma MovedFirstIsExplained(leg: Series, arbiter: Series, a: set<int>, h: int)
    requires Shift(h) && MovedFirst(leg, arbiter, a, h)
    ensures |a| <= |Explained(leg, arbiter, arbiter.Keys, h)|
  {
    forall t | t in a
      ensures t in Explained(leg, arbiter, arbiter.Keys, h)
    {
      assert Matches(leg, arbiter[t], t, h);
      assert forall s :: -3 <= s < h ==> (Matches(leg, arbiter[t], t, s) <==> Carries(leg, arbiter, t, s));
      FirstMatchIsLeast(leg, arbiter[t], t, -3, h);
    }
    CardinalityMonotone(a, Explained(leg, arbiter, arbiter.Keys, h));
  }

  lemma ExplainedIsMovedFirst(leg: Series, arbiter: Series, h: int)
    ensures MovedFirst(leg, arbiter, Explained(leg, arbiter, arbiter.Keys, h), h)
  {
    forall t | t in Explained(leg, arbiter, arbiter.Keys, h)
      ensures Carries(leg, arbiter, t, h) && forall s :: -3 <= s < h ==> !Carries(leg, arbiter, t, s)
    {
      FirstMatchIsLeast(leg, arbiter[t], t, -3, h);
      assert forall s :: Matches(leg, arbiter[t], t, s) <==> Carries(leg, arbiter, t, s);
    }
  }

  /** A leg is found fractured exactly when it carries two hundreds of arbiter buckets moved by
      different shifts, none of which also matches at a more negative shift. */
  lemma FracturedExactly(leg: Series, arbiter: Series)
    ensures Fractured(leg, arbiter) <==> exists a, h, b, k :: TwoTimeBases(leg, arbiter, a, h, b, k)
  {
    if a, h, b, k :| TwoTimeBases(leg, arbiter, a, h, b, k) {
      MovedFirstIsExplained(leg, arbiter, a, h);
      MovedFirstIsExplained(leg, arbiter, b, k);
    }
    if h, k :| Shift(h) && Shift(k) && h != k
               && |Explained(leg, arbiter, arbiter.Keys, h)| >= MIN_COMMON_BUCKETS
               && |Explained(leg, arbiter, arbiter.Keys, k)| >= MIN_COMMON_BUCKETS {
      ExplainedIsMovedFirst(leg, arbiter, h);
      ExplainedIsMovedFirst(leg, arbiter, k);
      assert TwoTimeBases(leg, arbiter, Explained(leg, arbiter, arbiter.Keys, h), h,
                          Explained(leg, arbiter, arbiter.Keys, k), k);
    }
  }

  /** A leg that repeats every arbiter bucket three hours early is never found fractured,
      whatever else it carries. */
  lemma EarlyCopyHidesFracture(leg: Series, arbiter: Series)
    requires forall t :: t in arbiter ==> Matches(leg, arbiter[t], t, -3)
    ensures !Fractured(leg, arbiter)
  {
    forall h | h != -3
      ensures Explained(leg, arbiter, arbiter.Keys, h) == {}
    {
      assert forall t :: t in arbiter ==> FirstMatch(leg, arbiter[t], t, -3) == Some(-3);
    }
  }

    function Price(t: int): Ohlc { Ohlc(t as real, t as real, t as real, t as real) }

  /** Two hundred buckets seven hours apart, all with different bars. */
  predicate OnGrid(t: int, n: int) { 0 <= t < 25200 * n && t % 25200 == 0 }

  function GridArbiter(): Series {
    map t | 0 <= t < 25200 * 200 && OnGrid(t, 200) :: Price(t)
  }

  /** The first hundred buckets unmoved, the others an hour late, and all three hours early. */
  function Origin(u: int): int {
    if u % 25200 == Hours(4) then u + Hours(3) else if u % 25200 == Hours(1) then u - Hours(1) else u
  }

  predicate Carried(u: int) {
    || (u % 25200 == Hours(4) && OnGrid(u + Hours(3), 200))
    || OnGrid(u, 100)
    || (u % 25200 == Hours(1) && OnGrid(u - Hours(1), 200) && !OnGrid(u - Hours(1), 100))
  }

  function MixedLeg(): Series {
    map u | -25200 <= u < 25200 * 201 && Carried(u) :: Price(Origin(u))
  }

  ghost function GridPoints(n: nat): set<int> {
    set t | 0 <= t < 25200 * n && OnGrid(t, n)
  }

  lemma {:induction false} GridHasPoints(n: nat)
    ensures |GridPoints(n)| == n
  {
    if n == 0 {
      assert GridPoints(0) == {};
    } else {
      GridHasPoints(n - 1);
      GridGrows(n - 1);
    }
  }

  lemma GridGrows(n: nat)
    ensures GridPoints(n + 1) == GridPoints(n) + {25200 * n} && 25200 * n !in GridPoints(n)
  {
    forall t
      ensures OnGrid(t, n + 1) <==> OnGrid(t, n) || t == 25200 * n
    {
    }
  }

  lemma MixedLegMatches(t: int)
    requires OnGrid(t, 200)
    ensures t in GridArbiter() && Matches(MixedLeg(), Price(t), t, -3)
    ensures Matches(MixedLeg(), Price(t), t, if OnGrid(t, 100) then 0 else 1)
  {
    assert (t - Hours(3)) % 25200 == Hours(4);
    assert (t + Hours(1)) % 25200 == Hours(1);
    assert Carried(t - Hours(3));
    assert Carried(if OnGrid(t, 100) then t else t + Hours(1));
  }

  lemma MixedLegMoved()
    ensures Moved(MixedLeg(), GridArbiter(), GridPoints(100), 0)
    ensures Moved(MixedLeg(), GridArbiter(), GridPoints(200) - GridPoints(100), 1)
  {
    forall t | t in GridPoints(100)
      ensures t in GridArbiter() && Matches(MixedLeg(), GridArbiter()[t], t, 0)
    {
      assert OnGrid(t, 200);
      MixedLegMatches(t);
    }
    forall t | t in GridPoints(200) - GridPoints(100)
      ensures t in GridArbiter() && Matches(MixedLeg(), GridArbiter()[t], t, 1)
    {
      MixedLegMatches(t);
    }
  }

  lemma GridDistinct()
    ensures LocallyDistinct(GridArbiter())
  {
  }

  lemma MixedLegHidden()
    ensures !Fractured(MixedLeg(), GridArbiter())
  {
    forall t | t in GridArbiter()
      ensures Matches(MixedLeg(), GridArbiter()[t], t, -3)
    {
      MixedLegMatches(t);
    }
    EarlyCopyHidesFracture(MixedLeg(), GridArbiter());
  }

  lemma GridHalves()
    ensures |GridPoints(100)| >= MIN_COMMON_BUCKETS && |GridPoints(200) - GridPoints(100)| >= MIN_COMMON_BUCKETS
  {
    GridHasPoints(100);
    GridHasPoints(200);
    assert GridPoints(200) == GridPoints(100) + (GridPoints(200) - GridPoints(100)) by {
      assert forall t :: OnGrid(t, 100) ==> OnGrid(t, 200);
    }
  }

  /** Without a condition on its other bars detection is incomplete: a leg that carries a hundred
      buckets at 0h and a hundred others at +1h, plus an early copy, is not found fractured. */
  lemma FractureCanBeMissed()
    ensures LocallyDistinct(GridArbiter())
    ensures Moved(MixedLeg(), GridArbiter(), GridPoints(100), 0)
    ensures Moved(MixedLeg(), GridArbiter(), GridPoints(200) - GridPoints(100), 1)
    ensures |GridPoints(100)| >= MIN_COMMON_BUCKETS && |GridPoints(200) - GridPoints(100)| >= MIN_COMMON_BUCKETS
    ensures !Fractured(MixedLeg(), GridArbiter())
  {
    GridDistinct();
    MixedLegMoved();
    GridHalves();
    MixedLegHidden();
  }
}
