/** Runs of missing grid slots. The runs list exactly the missing slots, in order, cut wherever
    a slot is present or the market status changes. The status is any predicate on instants; the
    capture passes its New York calendar (ServerClock.MarketClosed). */
module GapRuns {
  datatype GapRun = GapRun(from: int, to: int, missing: nat, closed: bool)

  // ------------------------------------------------------------------ the grid

  function Missing(times: seq<int>, step: int, lo: int, hi: int): seq<int>
    requires step > 0
    decreases hi - lo
  {
    if lo >= hi then []
    else if lo in times then Missing(times, step, lo + step, hi)
    else [lo] + Missing(times, step, lo + step, hi)
  }

  function Present(times: seq<int>, step: int, lo: int, hi: int): seq<int>
    requires step > 0
    decreases hi - lo
  {
    if lo >= hi then []
    else if lo in times then [lo] + Present(times, step, lo + step, hi)
    else Present(times, step, lo + step, hi)
  }

  function GridSize(step: int, lo: int, hi: int): nat
    requires step > 0
    decreases hi - lo
  {
    if lo >= hi then 0 else 1 + GridSize(step, lo + step, hi)
  }

  /** Every slot of the grid is missing or present. */
  lemma {:induction false} GridIsPartitioned(times: seq<int>, step: int, lo: int, hi: int)
    requires step > 0
    ensures |Missing(times, step, lo, hi)| + |Present(times, step, lo, hi)| == GridSize(step, lo, hi)
    decreases hi - lo
  {
    if lo < hi {
      GridIsPartitioned(times, step, lo + step, hi);
    }
  }

  /** The missing slots are exactly the absent grid points of the window. */
  lemma {:induction false} MissingMeaning(times: seq<int>, step: int, lo: int, hi: int, t: int)
    requires step > 0
    ensures t in Missing(times, step, lo, hi) <==> lo <= t < hi && (t - lo) % step == 0 && t !in times
    decreases hi - lo
  {
    if lo < hi {
      MissingMeaning(times, step, lo + step, hi, t);
      OnNextGrid(t - lo, step);
    }
  }

  lemma RemainderUnique(x: int, step: int, k: int, r: int)
    requires 0 <= r < step && x == step * k + r
    ensures x % step == r && x / step == k
  {
    var q := x / step;
    assert x == step * q + x % step;
    assert q < k ==> step * (q + 1) <= step * k;
    assert q > k ==> step * (k + 1) <= step * q;
  }

  lemma OnNextGrid(d: int, step: int)
    requires step > 0
    ensures d % step == (d - step) % step
    ensures 0 < d && d % step == 0 ==> d >= step
    ensures 0 % step == 0
  {
    var q, r := d / step, d % step;
    assert d == step * q + r;
    assert d - step == step * (q - 1) + r;
    RemainderUnique(d - step, step, q - 1, r);
    RemainderUnique(0, step, 0, 0);
    if 0 < d < step {
      RemainderUnique(d, step, 0, d);
    }
  }

  // ------------------------------------------------------------------ runs

  /** The slots of a run. */
  function Slots(from: int, step: int, n: nat): (s: seq<int>)
    ensures |s| == n
  {
    if n == 0 then [] else Slots(from, step, n - 1) + [from + (n - 1) * step]
  }

  function Flatten(runs: seq<GapRun>, step: int): seq<int> {
    if runs == [] then []
    else Flatten(runs[..|runs| - 1], step) + Slots(runs[|runs| - 1].from, step, runs[|runs| - 1].missing)
  }

  function TotalMissing(runs: seq<GapRun>): nat {
    if runs == [] then 0 else TotalMissing(runs[..|runs| - 1]) + runs[|runs| - 1].missing
  }

  lemma {:induction false} TotalIsSlots(runs: seq<GapRun>, step: int)
    ensures |Flatten(runs, step)| == TotalMissing(runs)
  {
    if runs != [] {
      TotalIsSlots(runs[..|runs| - 1], step);
    }
  }

  /** A run is non-empty, spans its count of slots, and has one market status throughout. */
  ghost predicate WellFormed(r: GapRun, step: int, closed: int -> bool) {
    && r.missing > 0
    && r.to - r.from == (r.missing - 1) * step
    && forall t :: t in Slots(r.from, step, r.missing) ==> closed(t) == r.closed
  }

  /** Neighbouring runs are in order and could not be one run. */
  ghost predicate Separated(a: GapRun, b: GapRun, step: int) {
    a.to < b.from && (b.from == a.to + step ==> a.closed != b.closed)
  }

  ghost predicate RunsOk(runs: seq<GapRun>, step: int, closed: int -> bool) {
    && (forall i :: 0 <= i < |runs| ==> WellFormed(runs[i], step, closed))
    && (forall i, j :: 0 <= i && j == i + 1 && j < |runs| ==> Separated(runs[i], runs[j], step))
  }

  /** The loop state before slot `t`: the runs so far, and whether the last one is still open. */
  ghost predicate Before(runs: seq<GapRun>, open: bool, t: int, step: int, closed: int -> bool) {
    && RunsOk(runs, step, closed)
    && (runs != [] ==> runs[|runs| - 1].to <= t - (if open then step else step + step))
    && (open ==> runs != [] && runs[|runs| - 1].to == t - step)
  }

  lemma BeginRun(runs: seq<GapRun>, open: bool, t: int, step: int, closed: int -> bool)
    requires step > 0 && Before(runs, open, t, step, closed)
    requires open ==> runs[|runs| - 1].closed != closed(t)
    ensures var more := runs + [GapRun(t, t, 1, closed(t))];
            Before(more, true, t + step, step, closed) && Flatten(more, step) == Flatten(runs, step) + [t]
  {
    var r := GapRun(t, t, 1, closed(t));
    var more := runs + [r];
    assert more[..|runs|] == runs;
    assert Slots(t, step, 0) == [];
    assert Slots(t, step, 1) == [t];
    assert WellFormed(r, step, closed);
    forall i, j | 0 <= i && j == i + 1 && j < |more|
      ensures Separated(more[i], more[j], step)
    {
      if j < |runs| {
        assert Separated(runs[i], runs[j], step);
      }
    }
  }

  lemma ExtendRun(runs: seq<GapRun>, t: int, step: int, closed: int -> bool)
    requires step > 0 && Before(runs, true, t, step, closed) && runs[|runs| - 1].closed == closed(t)
    ensures var last := runs[|runs| - 1];
            var more := runs[|runs| - 1 := last.(to := t, missing := last.missing + 1)];
            Before(more, true, t + step, step, closed) && Flatten(more, step) == Flatten(runs, step) + [t]
  {
    var n := |runs| - 1;
    var last := runs[n];
    var grown := last.(to := t, missing := last.missing + 1);
    var more := runs[n := grown];
    assert more[..n] == runs[..n];
    assert last.missing * step == (last.missing - 1) * step + step;
    assert Slots(grown.from, step, grown.missing) == Slots(last.from, step, last.missing) + [t];
    forall x | x in Slots(grown.from, step, grown.missing)
      ensures closed(x) == grown.closed
    {
      if x != t {
        assert x in Slots(last.from, step, last.missing);
      }
    }
    assert WellFormed(grown, step, closed);
    forall i, j | 0 <= i && j == i + 1 && j < |more|
      ensures Separated(more[i], more[j], step)
    {
      assert Separated(runs[i], runs[j], step);
    }
  }

  /** Everything the loop maintains before slot `t`. */
  ghost predicate Scanned(runs: seq<GapRun>, open: bool, t: int, times: seq<int>, step: int, lo: int, hi: int, closed: int -> bool)
    requires step > 0
  {
    Before(runs, open, t, step, closed) && Missing(times, step, lo, hi) == Flatten(runs, step) + Missing(times, step, t, hi)
  }

  lemma ScanSlot(runs: seq<GapRun>, open: bool, t: int, times: seq<int>, step: int, lo: int, hi: int, closed: int -> bool)
    requires step > 0 && t < hi && Scanned(runs, open, t, times, step, lo, hi, closed)
    ensures t in times ==> Scanned(runs, false, t + step, times, step, lo, hi, closed)
    ensures t !in times && (open ==> runs[|runs| - 1].closed != closed(t)) ==>
              Scanned(runs + [GapRun(t, t, 1, closed(t))], true, t + step, times, step, lo, hi, closed)
    ensures t !in times && open && runs[|runs| - 1].closed == closed(t) ==>
              var last := runs[|runs| - 1];
              Scanned(runs[|runs| - 1 := last.(to := t, missing := last.missing + 1)], true, t + step, times, step, lo, hi, closed)
  {
    var rest := Missing(times, step, t + step, hi);
    if t !in times {
      assert Missing(times, step, t, hi) == [t] + rest;
      assert Flatten(runs, step) + ([t] + rest) == (Flatten(runs, step) + [t]) + rest;
      if open && runs[|runs| - 1].closed == closed(t) {
        ExtendRun(runs, t, step, closed);
      } else {
        BeginRun(runs, open, t, step, closed);
      }
    }
  }

  /** The runs partition the missing slots of the window: in order, disjoint, maximal and
      homogeneous, each counting exactly its slots. */
  method FindGapRuns(times: seq<int>, step: int, lo: int, hi: int, closed: int -> bool) returns (runs: seq<GapRun>)
    requires step > 0
    ensures Flatten(runs, step) == Missing(times, step, lo, hi)
    ensures RunsOk(runs, step, closed)
    ensures TotalMissing(runs) + |Present(times, step, lo, hi)| == GridSize(step, lo, hi)
  {
    runs := [];
    var open, t := false, lo;
    while t < hi
      invariant Scanned(runs, open, t, times, step, lo, hi, closed)
      decreases hi - t
    {
      ScanSlot(runs, open, t, times, step, lo, hi, closed);
      if t in times {
        open := false;
      } else {
        var status := closed(t);
        if !open || runs[|runs| - 1].closed != status {
          runs := runs + [GapRun(t, t, 1, status)];
        } else {
          var last := runs[|runs| - 1];
          runs := runs[|runs| - 1 := last.(to := t, missing := last.missing + 1)];
        }
        open := true;
      }
      t := t + step;
    }
    TotalIsSlots(runs, step);
    GridIsPartitioned(times, step, lo, hi);
  }

  /** A run's count is its span in steps plus one. */
  lemma CountIsSpan(r: GapRun, step: int, closed: int -> bool)
    requires step > 0 && WellFormed(r, step, closed)
    ensures r.missing == (r.to - r.from) / step + 1
  {
    RemainderUnique(r.to - r.from, step, r.missing - 1, 0);
  }

  /** The present slots are exactly the recorded grid points of the window. */
  lemma {:induction false} PresentMeaning(times: seq<int>, step: int, lo: int, hi: int, t: int)
    requires step > 0
    ensures t in Present(times, step, lo, hi) <==> lo <= t < hi && (t - lo) % step == 0 && t in times
    decreases hi - lo
  {
    if lo < hi {
      PresentMeaning(times, step, lo + step, hi, t);
      OnNextGrid(t - lo, step);
    }
  }

  ghost predicate Ascending(s: seq<int>) {
    forall i, j :: 0 <= i < j < |s| ==> s[i] < s[j]
  }

  /** Each slot is listed once, in order. */
  lemma {:induction false} ListedInOrder(times: seq<int>, step: int, lo: int, hi: int)
    requires step > 0
    ensures Ascending(Missing(times, step, lo, hi)) && Ascending(Present(times, step, lo, hi))
    decreases hi - lo
  {
    if lo < hi {
      ListedInOrder(times, step, lo + step, hi);
      AfterFirst(times, step, lo + step, hi);
      AscendingCons(lo, if lo in times then Present(times, step, lo + step, hi) else Missing(times, step, lo + step, hi));
    }
  }

  lemma AscendingCons(x: int, s: seq<int>)
    requires Ascending(s) && forall i :: 0 <= i < |s| ==> x < s[i]
    ensures Ascending([x] + s)
  {
  }

  lemma {:induction false} AfterFirst(times: seq<int>, step: int, lo: int, hi: int)
    requires step > 0
    ensures forall i :: 0 <= i < |Missing(times, step, lo, hi)| ==> Missing(times, step, lo, hi)[i] >= lo
    ensures forall i :: 0 <= i < |Present(times, step, lo, hi)| ==> Present(times, step, lo, hi)[i] >= lo
    decreases hi - lo
  {
    if lo < hi {
      AfterFirst(times, step, lo + step, hi);
    }
  }

  /** The grid has as many slots as steps begin in the window. */
  lemma {:induction false} GridSizeExactly(step: int, lo: int, hi: int)
    requires step > 0
    ensures lo >= hi ==> GridSize(step, lo, hi) == 0
    ensures lo < hi ==> step * (GridSize(step, lo, hi) - 1) < hi - lo <= step * GridSize(step, lo, hi)
    decreases hi - lo
  {
    if lo < hi {
      GridSizeExactly(step, lo + step, hi);
      var n := GridSize(step, lo + step, hi);
      assert step * (n + 1) == step * n + step;
    }
  }

  /** Slot `k` of a run lies `k` steps after its first. */
  lemma {:induction false} SlotAt(from: int, step: int, n: nat, k: nat)
    requires k < n
    ensures Slots(from, step, n)[k] == from + k * step
  {
    if k < n - 1 {
      SlotAt(from, step, n - 1, k);
    }
  }
}
