/** The event-log invariance check: rebuild the log at every cut and compare, then compare
    against the scans that were handed later bars. */
module SignalInvariance {
  import opened Prelude
  import opened SignalModel
  import opened SignalLog
  import opened SignalEdges
  import opened SignalTheorems
  import opened SignalReplay

  datatype Check = PREFIX | FUTURE_BARS
  datatype Difference = ADDED | REMOVED | CHANGED
  datatype Mismatch = Mismatch(check: Check, position: nat, difference: Difference, kind: Kind, at: Time)

  datatype Report = Report(cuts: set<nat>, mismatches: seq<Mismatch>, pass: bool, log: seq<Entry>)

  function At(log: seq<Entry>, i: nat): Option<Entry> {
    if i < |log| then Some(log[i]) else None
  }

  /** What is reported of position `i`: nothing when both logs agree there. */
  function DifferenceAt(expected: seq<Entry>, got: seq<Entry>, check: Check, i: nat): seq<Mismatch> {
    match (At(expected, i), At(got, i))
    case (None, None) => []
    case (None, Some(b)) => [Mismatch(check, i, ADDED, b.event.kind, b.event.at)]
    case (Some(a), None) => [Mismatch(check, i, REMOVED, a.event.kind, a.event.at)]
    case (Some(a), Some(b)) => if a == b then [] else [Mismatch(check, i, CHANGED, a.event.kind, a.event.at)]
  }

  function Differences(expected: seq<Entry>, got: seq<Entry>, check: Check, n: nat): seq<Mismatch> {
    if n == 0 then [] else Differences(expected, got, check, n - 1) + DifferenceAt(expected, got, check, n - 1)
  }

  /** Position `i` is reported. */
  ghost predicate Reports(found: seq<Mismatch>, i: nat) {
    exists m :: m in found && m.position == i
  }

  lemma ReportsHere(expected: seq<Entry>, got: seq<Entry>, check: Check, n: nat, i: nat)
    ensures Reports(DifferenceAt(expected, got, check, n), i) <==> i == n && At(expected, i) != At(got, i)
    ensures forall m :: m in DifferenceAt(expected, got, check, n) ==> m.check == check
  {
    var here := DifferenceAt(expected, got, check, n);
    if At(expected, n) != At(got, n) {
      assert here[0] in here && here[0].position == n;
      assert forall m :: m in here ==> m == here[0];
    } else {
      assert here == [];
    }
  }

  lemma ReportsConcat(a: seq<Mismatch>, b: seq<Mismatch>, i: nat)
    ensures Reports(a + b, i) <==> Reports(a, i) || Reports(b, i)
  {
    if m :| m in a && m.position == i {
      assert m in a + b;
    }
    if m :| m in b && m.position == i {
      assert m in a + b;
    }
  }

  /** A position below `n` is reported exactly when the logs differ there. */
  lemma {:induction false} DifferencesExact(expected: seq<Entry>, got: seq<Entry>, check: Check, n: nat, i: nat)
    ensures Reports(Differences(expected, got, check, n), i) <==> i < n && At(expected, i) != At(got, i)
    ensures forall m :: m in Differences(expected, got, check, n) ==> m.check == check
  {
    if n > 0 {
      DifferencesExact(expected, got, check, n - 1, i);
      ReportsHere(expected, got, check, n - 1, i);
      ReportsConcat(Differences(expected, got, check, n - 1), DifferenceAt(expected, got, check, n - 1), i);
    }
  }

  /** A mismatch says correctly what differs: an entry only in the rebuilt log was added, one only in
      the expected log was removed, and otherwise both are there and differ; the type and the time
      are those of the expected entry where there is one. */
  ghost predicate Describes(m: Mismatch, expected: seq<Entry>, got: seq<Entry>) {
    match m.difference
    case ADDED => |expected| <= m.position < |got| && m.kind == got[m.position].event.kind && m.at == got[m.position].event.at
    case REMOVED => |got| <= m.position < |expected| && m.kind == expected[m.position].event.kind && m.at == expected[m.position].event.at
    case CHANGED =>
      && m.position < |expected| && m.position < |got| && expected[m.position] != got[m.position]
      && m.kind == expected[m.position].event.kind && m.at == expected[m.position].event.at
  }

  lemma DescribesHere(expected: seq<Entry>, got: seq<Entry>, check: Check, i: nat)
    ensures |DifferenceAt(expected, got, check, i)| <= 1
    ensures forall m :: m in DifferenceAt(expected, got, check, i) ==> m.position == i && Describes(m, expected, got)
  {
  }

  lemma {:induction false} DifferencesDescribe(expected: seq<Entry>, got: seq<Entry>, check: Check, n: nat)
    ensures forall m :: m in Differences(expected, got, check, n) ==> m.position < n && Describes(m, expected, got)
    ensures InOrder(Differences(expected, got, check, n))
  {
    if n > 0 {
      DifferencesDescribe(expected, got, check, n - 1);
      DescribesHere(expected, got, check, n - 1);
      InOrderConcat(Differences(expected, got, check, n - 1), DifferenceAt(expected, got, check, n - 1), n - 1);
    }
  }

  ghost predicate InOrder(found: seq<Mismatch>) {
    forall x, y :: 0 <= x < y < |found| ==> found[x].position < found[y].position
  }

  lemma InOrderConcat(front: seq<Mismatch>, here: seq<Mismatch>, n: nat)
    requires InOrder(front) && |here| <= 1
    requires (forall m :: m in front ==> m.position < n) && (forall m :: m in here ==> m.position == n)
    ensures InOrder(front + here)
  {
    assert forall x :: 0 <= x < |front| ==> front[x] in front;
    assert forall x :: 0 <= x < |here| ==> here[x] in here;
  }

  lemma NoDifferenceIsEquality(expected: seq<Entry>, got: seq<Entry>, check: Check, n: nat)
    requires n >= |expected| && n >= |got|
    ensures Differences(expected, got, check, n) == [] <==> expected == got
  {
    var all := Differences(expected, got, check, n);
    if all == [] {
      forall i: nat | i < n
        ensures At(expected, i) == At(got, i)
      {
        DifferencesExact(expected, got, check, n, i);
      }
      SamePositions(expected, got, n);
    } else {
      var i := all[0].position;
      DifferencesExact(expected, got, check, n, i);
      assert all[0] in all;
      assert Reports(all, i);
    }
  }

  lemma SamePositions(a: seq<Entry>, b: seq<Entry>, n: nat)
    requires n >= |a| && n >= |b|
    requires forall i: nat :: i < n ==> At(a, i) == At(b, i)
    ensures a == b
  {
    var short := if |a| < |b| then |a| else |b|;
    assert short < n ==> At(a, short) == At(b, short);
    assert |a| == |b|;
    forall i: nat | i < |a|
      ensures a[i] == b[i]
    {
      assert At(a, i) == At(b, i);
    }
  }

  /** `out` reports exactly the differing positions, once each, in order and correctly described. */
  ghost predicate IsDiff(out: seq<Mismatch>, expected: seq<Entry>, got: seq<Entry>, check: Check) {
    && (forall i: nat :: Reports(out, i) <==>
          (i < |expected| || i < |got|) && !(i < |expected| && i < |got| && expected[i] == got[i]))
    && (forall m :: m in out ==> m.check == check && Describes(m, expected, got))
    && InOrder(out)
  }

  /** One mismatch per differing position, in order; none exactly when the logs are equal. */
  method DiffEvents(expected: seq<Entry>, got: seq<Entry>, check: Check) returns (out: seq<Mismatch>)
    ensures out == [] <==> expected == got
    ensures IsDiff(out, expected, got, check)
  {
    out := [];
    var n := if |expected| >= |got| then |expected| else |got|;
    for i := 0 to n
      invariant out == Differences(expected, got, check, i)
    {
      var a, b := At(expected, i), At(got, i);
      if a != b {
        var shown := if a.Some? then a.value else b.value;
        out := out + [Mismatch(check, i, if a.None? then ADDED else if b.None? then REMOVED else CHANGED,
                               shown.event.kind, shown.event.at)];
      }
    }
    NoDifferenceIsEquality(expected, got, check, n);
    forall i: nat
      ensures Reports(out, i) <==>
              (i < |expected| || i < |got|) && !(i < |expected| && i < |got| && expected[i] == got[i])
    {
      DifferencesExact(expected, got, check, n, i);
    }
    DifferencesExact(expected, got, check, n, 0);
    DifferencesDescribe(expected, got, check, n);
  }

  function EntriesUpTo(entries: seq<Entry>, cut: Time): seq<Entry> {
    if entries == [] then []
    else
      var front := EntriesUpTo(entries[..|entries| - 1], cut);
      if entries[|entries| - 1].event.at <= cut then front + [entries[|entries| - 1]] else front
  }

  /** Filtering the stored entries is filtering the events and keeping their first numbers. */
  lemma {:induction false} FilterKeepsNumbering(log: seq<Event>, n: nat, cut: Time)
    requires Splits(log, n, cut)
    ensures EntriesUpTo(Numbered(log), cut) == Numbered(log[..n])
  {
    if log != [] {
      var m := |log| - 1;
      assert Numbered(log)[..m] == Numbered(log[..m]);
      if n <= m {
        FilterKeepsNumbering(log[..m], n, cut);
        assert log[..m][..n] == log[..n];
      } else {
        FilterKeepsNumbering(log[..m], m, cut);
        assert log[..m][..m] == log[..m] && log[..n] == log;
        assert Numbered(log) == Numbered(log[..m]) + [Numbered(log)[m]];
      }
    }
  }

  /** A time-ordered log splits at every instant. */
  lemma {:induction false} SortedSplits(log: seq<Event>, cut: Time) returns (n: nat)
    requires Sorted(log)
    ensures Splits(log, n, cut)
  {
    n := |log|;
    if log != [] && log[|log| - 1].at > cut {
      n := SortedSplits(log[..|log| - 1], cut);
    }
  }

  /** Without fills, every event happens at the instant of some scan. */
  lemma EventsHappenAtScans(stream: seq<Scan>, e: Event)
    requires Run(stream, []).Ok? && e in Run(stream, []).value
    ensures exists k :: 0 <= k < |stream| && stream[k].now == e.at
  {
    var acts := RunIsPlay(stream, []);
    LogIsExactlyTheExpectedEvents(acts, e);
    var p :| Accounted(acts, p, e);
    TimelineMembers(Normalize(stream).value, []);
    assert acts[p] in acts;
    NormalizeKeeps(stream);
    assert acts[p].scan in stream;
    var k :| 0 <= k < |stream| && stream[k] == acts[p].scan;
  }

  lemma FillFreePrefix(stream: seq<Scan>, k: nat)
    requires Run(stream, []).Ok? && 0 < k <= |stream|
    ensures Run(stream[..k], []).Ok?
    ensures EntriesUpTo(Numbered(Run(stream, []).value), stream[k - 1].now) == Numbered(Run(stream[..k], []).value)
  {
    PrefixInvariance(stream, [], k);
    var acts := RunIsPlay(stream, []);
    var log, cut := Run(stream, []).value, stream[k - 1].now;
    var n := SortedSplits(log, cut);
    UpToSplit(log, n, cut);
    FilterKeepsNumbering(log, n, cut);
  }

  /** The index of the last scan at each instant. */
  method IndexByTime(stream: seq<Scan>) returns (at: map<Time, nat>)
    ensures forall k :: 0 <= k < |stream| ==> stream[k].now in at
    ensures forall t :: t in at ==> at[t] < |stream| && stream[at[t]].now == t
    ensures forall t, k :: t in at && at[t] < k < |stream| ==> stream[k].now != t
  {
    at := map[];
    for i := 0 to |stream|
      invariant forall k :: 0 <= k < i ==> stream[k].now in at
      invariant forall t :: t in at ==> at[t] < i && stream[at[t]].now == t
      invariant forall t, k :: t in at && at[t] < k < i ==> stream[k].now != t
    {
      at := at[stream[i].now := i];
    }
  }

  /** The first `k` scans end a UTC day of the stream. */
  predicate DayEnd(stream: seq<Scan>, k: nat)
    requires 0 < k <= |stream|
  {
    k == |stream| || Day(stream[k].now) != Day(stream[k - 1].now)
  }

  /** Scan `k` is the last one at the instant of some event. */
  ghost predicate EventScan(stream: seq<Scan>, full: seq<Entry>, k: nat) {
    && k < |stream|
    && (exists x :: 0 <= x < |full| && full[x].event.at == stream[k].now)
    && (forall j :: k < j < |stream| ==> stream[j].now != stream[k].now)
  }

  /** The first `k` scans end just before an event's scan, with it, or one scan after it. */
  ghost predicate NearEvent(stream: seq<Scan>, full: seq<Entry>, k: nat) {
    || EventScan(stream, full, k)
    || (k > 0 && EventScan(stream, full, k - 1))
    || (k > 1 && EventScan(stream, full, k - 2))
  }

  /** The cuts: every day end and around every event. */
  ghost predicate IsCut(stream: seq<Scan>, full: seq<Entry>, k: nat) {
    && 0 < k <= |stream|
    && (k == |stream| || stream[k].now / 86400 != stream[k - 1].now / 86400 || NearEvent(stream, full, k))
  }

  /** The index of an event's instant is its scan. */
  lemma IndexIsEventScan(stream: seq<Scan>, full: seq<Entry>, x: nat, k: nat)
    requires x < |full| && k < |stream| && stream[k].now == full[x].event.at
    requires forall j :: k < j < |stream| ==> stream[j].now != full[x].event.at
    ensures EventScan(stream, full, k)
    ensures forall j: nat :: EventScan(stream, full, j) && stream[j].now == full[x].event.at ==> j == k
  {
  }

  /** The cuts an event adds. */
  ghost predicate Around(stream: seq<Scan>, full: seq<Entry>, x: nat, k: nat)
    requires x < |full|
  {
    exists j: nat :: EventScan(stream, full, j) && stream[j].now == full[x].event.at && j <= k <= j + 2 && k <= |stream|
  }

  /** The cuts after the day ends and the first `n` events. */
  ghost predicate CutBefore(stream: seq<Scan>, full: seq<Entry>, n: nat, k: nat)
    requires n <= |full|
  {
    (0 < k <= |stream| && DayEnd(stream, k)) || exists x :: 0 <= x < n && Around(stream, full, x, k)
  }

  lemma NextCut(stream: seq<Scan>, full: seq<Entry>, n: nat, k: nat)
    requires n < |full|
    ensures CutBefore(stream, full, n + 1, k) <==> CutBefore(stream, full, n, k) || Around(stream, full, n, k)
  {
    if x :| 0 <= x < n + 1 && Around(stream, full, x, k) {
      assert x < n || x == n;
    }
  }

  lemma AroundIsNear(stream: seq<Scan>, full: seq<Entry>, k: nat)
    requires k <= |stream|
    ensures NearEvent(stream, full, k) <==> exists x :: 0 <= x < |full| && Around(stream, full, x, k)
  {
    if j: nat :| EventScan(stream, full, j) && j <= k <= j + 2 {
      var x :| 0 <= x < |full| && full[x].event.at == stream[j].now;
      assert Around(stream, full, x, k);
    }
  }

  lemma CutExactly(stream: seq<Scan>, full: seq<Entry>, k: nat)
    ensures k > 0 && CutBefore(stream, full, |full|, k) <==> IsCut(stream, full, k)
  {
    if k <= |stream| {
      AroundIsNear(stream, full, k);
    }
  }

  /** The cuts that event `x` adds are the three around its scan. */
  lemma ThreeCuts(stream: seq<Scan>, full: seq<Entry>, x: nat, j: nat, k: nat)
    requires x < |full| && j < |stream| && stream[j].now == full[x].event.at
    requires forall i :: j < i < |stream| ==> stream[i].now != full[x].event.at
    ensures k in {j, j + 1, if j + 2 <= |stream| then j + 2 else |stream|} <==> Around(stream, full, x, k)
  {
    IndexIsEventScan(stream, full, x, j);
  }

  /** Exactly the day ends and the cuts around every event. */
  method Cuts(stream: seq<Scan>, full: seq<Entry>) returns (cuts: set<nat>)
    requires forall x :: 0 <= x < |full| ==> exists k :: 0 <= k < |stream| && stream[k].now == full[x].event.at
    ensures forall k: nat :: k in cuts <==> IsCut(stream, full, k)
  {
    var at := IndexByTime(stream);
    cuts := set k | 0 < k <= |stream| && DayEnd(stream, k);
    for x := 0 to |full|
      invariant forall k: nat :: k in cuts <==> CutBefore(stream, full, x, k)
    {
      var j := at[full[x].event.at];
      var three := {j, j + 1, if j + 2 <= |stream| then j + 2 else |stream|};
      forall k: nat
        ensures k in cuts + three <==> CutBefore(stream, full, x + 1, k)
      {
        ThreeCuts(stream, full, x, j, k);
        NextCut(stream, full, x, k);
      }
      cuts := cuts + three;
    }
    cuts := cuts - {0};
    forall k: nat
      ensures k in cuts <==> IsCut(stream, full, k)
    {
      CutExactly(stream, full, k);
    }
  }

  /** Rebuilds the log at every cut: nothing differs on any accepted stream. */
  method PrefixPass(stream: seq<Scan>, full: seq<Entry>, cuts: set<nat>) returns (mismatches: seq<Mismatch>)
    requires Run(stream, []).Ok? && full == Numbered(Run(stream, []).value)
    ensures mismatches == []
  {
    mismatches := [];
    for k := 1 to |stream| + 1
      invariant mismatches == []
    {
      if k in cuts {
        FillFreePrefix(stream, k);
        var got := SignalEvents(stream[..k], []);
        var found := DiffEvents(EntriesUpTo(full, stream[k - 1].now), got.value, PREFIX);
        mismatches := mismatches + found;
      }
    }
  }

  /** The check fails only on the streams themselves: on every accepted stream the PREFIX pass
      reports nothing, so the verdict is PASS exactly when the scans that saw later bars give
      the same log. */
  method EventLogInvariance(stream: seq<Scan>, future: seq<Scan>) returns (r: Result<Report, RunError>)
    ensures r.Ok? <==> Run(stream, []).Ok? && Run(future, []).Ok?
    ensures r.Err? ==> Err(r.error) == if Run(stream, []).Err? then Run(stream, []) else Run(future, [])
    ensures r.Ok? ==>
              && r.value.log == Numbered(Run(stream, []).value)
              && (forall k: nat :: k in r.value.cuts <==> IsCut(stream, r.value.log, k))
              && IsDiff(r.value.mismatches, r.value.log, Numbered(Run(future, []).value), FUTURE_BARS)
              && (r.value.pass <==> r.value.mismatches == [])
              && (r.value.pass <==> Run(stream, []) == Run(future, []))
  {
    var built := SignalEvents(stream, []);
    if built.Err? {
      return Err(built.error);
    }
    var full := built.value;
    forall x | 0 <= x < |full|
      ensures exists k :: 0 <= k < |stream| && stream[k].now == full[x].event.at
    {
      EventsHappenAtScans(stream, full[x].event);
    }
    var cuts := Cuts(stream, full);
    var mismatches := PrefixPass(stream, full, cuts);
    var later := SignalEvents(future, []);
    if later.Err? {
      return Err(later.error);
    }
    var found := DiffEvents(full, later.value, FUTURE_BARS);
    mismatches := mismatches + found;
    assert mismatches == found;
    NumberedInjective(Run(stream, []).value, Run(future, []).value);
    r := Ok(Report(cuts, mismatches, mismatches == [], full));
  }

  lemma NumberedInjective(a: seq<Event>, b: seq<Event>)
    ensures Numbered(a) == Numbered(b) <==> a == b
  {
    if Numbered(a) == Numbered(b) {
      assert |a| == |Numbered(a)| == |Numbered(b)| == |b|;
      forall i | 0 <= i < |a|
        ensures a[i] == b[i]
      {
        assert Numbered(a)[i].event == Numbered(b)[i].event;
      }
    }
  }
}
