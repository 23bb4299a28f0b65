/** The signal event log as a fold over a chronological timeline of scans and fills. The
    replay's in-place loops are proved against `Run` (module SignalReplay); everything said
    about runs is proved here and in SignalTheorems about this fold. */
module SignalLog {
  import opened Prelude
  import opened SignalModel

  datatype RunError = OutOfOrderFill | OutOfOrderScan | ConflictingScan | FillWithoutActiveSignal

  /** The log so far, each signal's phase, the signal being followed and the last scan's key. */
  datatype Sim = Sim(log: seq<Event>, phase: map<Sem, Phase>, active: Option<Sem>, last: Option<Sem>)

  const START := Sim([], map[], None, None)

  function MakeEvent(kind: Kind, at: Time, k: Sem, reason: string, freshness: Option<Freshness>): Event {
    Event(kind, at, k, reason, k.retest, k.direction, freshness)
  }

  function Emitted(s: Sim, e: Event, p: Phase): Sim {
    s.(log := s.log + [e], phase := s.phase[e.signal := p])
  }

  // ------------------------------------------------------------------ one action

  function ExpireStep(s: Sim, now: Time): Sim {
    if s.active.Some? && Lapsed(s.active.value, now) then
      var a := s.active.value;
      var told := if Get(s.phase, a) == Some(Filled) then s else Emitted(s, Expiry(a, now), Expired);
      told.(active := None)
    else s
  }

  function WithdrawStep(s: Sim, now: Time, sem: Sem): Sim {
    if s.active.Some? && KeyOf(sem) != s.active then
      var a := s.active.value;
      var told := if Get(s.phase, a) == Some(Filled) then s else Emitted(s, Withdrawal(a, now, sem), Withdrawn);
      told.(active := None)
    else s
  }

  function IssueStep(s: Sim, now: Time, sem: Sem): Sim {
    if KeyOf(sem).Some? && s.active.None? && Get(s.phase, sem) != Some(Filled)
       && !(s.last == Some(sem) && Get(s.phase, sem) == Some(Expired)) then
      var e := Issue(sem, now, sem in s.phase);
      Emitted(s, e, PhaseAfterEvent(e)).(active := if e.freshness == Some(FRESH) then Some(sem) else None)
    else s
  }

  function Expiry(a: Sem, now: Time): Event {
    MakeEvent(EXPIRE, now, a, if Stale(a, now) then "SIGNAL_STALE" else "UTC_DAY_ROTATION", None)
  }

  function Withdrawal(a: Sem, now: Time, sem: Sem): Event {
    MakeEvent(WITHDRAWN, now, a, if KeyOf(sem).None? then sem.result else "SUPERSEDED", None)
  }

  function Issue(k: Sem, now: Time, again: bool): Event {
    MakeEvent(if again then REISSUE else EMIT, now, k, k.result, Some(if Stale(k, now) then LATE else FRESH))
  }

  function FillEvent(f: Fill): Event {
    MakeEvent(FILL, f.at, f.sem, "FILL_RECORDED", None)
  }

  function ScanStep(s: Sim, c: Scan): Sim {
    IssueStep(WithdrawStep(ExpireStep(s, c.now), c.now, c.sem), c.now, c.sem).(last := KeyOf(c.sem))
  }

  function FillStep(s: Sim, f: Fill): Result<Sim, RunError> {
    if Get(s.phase, f.sem) != Some(Active) then Err(FillWithoutActiveSignal)
    else Ok(Emitted(s, FillEvent(f), Filled))
  }

  // ------------------------------------------------------------------ the timeline

  datatype Action = OnScan(scan: Scan) | OnFill(fill: Fill) {
    function At(): Time {
      if OnScan? then scan.now else fill.at
    }
  }

  function Step(s: Sim, a: Action): Result<Sim, RunError> {
    match a
    case OnScan(c) => Ok(ScanStep(s, c))
    case OnFill(f) => FillStep(s, f)
  }

  function Play(acts: seq<Action>): Result<Sim, RunError> {
    if acts == [] then Ok(START)
    else
      var before :- Play(acts[..|acts| - 1]);
      Step(before, acts[|acts| - 1])
  }

  /** Fills up to and including a scan's instant are applied before that scan. */
  function Timeline(scans: seq<Scan>, fills: seq<Fill>): seq<Action>
    decreases |scans| + |fills|
  {
    if fills != [] && (scans == [] || fills[0].at <= scans[0].now) then
      [OnFill(fills[0])] + Timeline(scans, fills[1..])
    else if scans != [] then
      [OnScan(scans[0])] + Timeline(scans[1..], fills)
    else []
  }

  predicate FillsOrdered(fills: seq<Fill>) {
    forall i :: 0 <= i < |fills| - 1 ==> fills[i].at <= fills[i + 1].at
  }

  /** Scans in time order; a retried scan must repeat the same conclusion and is dropped. */
  function KeepScan(kept: seq<Scan>, c: Scan): Result<seq<Scan>, RunError> {
    if kept == [] || kept[|kept| - 1].now < c.now then Ok(kept + [c])
    else if c.now < kept[|kept| - 1].now then Err(OutOfOrderScan)
    else if kept[|kept| - 1].sem != c.sem then Err(ConflictingScan)
    else Ok(kept)
  }

  function Normalize(stream: seq<Scan>): Result<seq<Scan>, RunError> {
    if stream == [] then Ok([])
    else
      var kept :- Normalize(stream[..|stream| - 1]);
      KeepScan(kept, stream[|stream| - 1])
  }

  function Run(stream: seq<Scan>, fills: seq<Fill>): Result<seq<Event>, RunError> {
    if !FillsOrdered(fills) then Err(OutOfOrderFill)
    else
      var scans :- Normalize(stream);
      var end :- Play(Timeline(scans, fills));
      Ok(end.log)
  }

  // ------------------------------------------------------------------ timelines are chronological

  /** Time never runs back, and everything after a scan is strictly later than it. */
  ghost predicate Chronological(acts: seq<Action>) {
    forall i, j :: 0 <= i < j < |acts| ==>
      acts[i].At() <= acts[j].At() && (acts[i].OnScan? ==> acts[i].At() < acts[j].At())
  }

  ghost predicate StrictlyOrdered(scans: seq<Scan>) {
    forall i, j :: 0 <= i < j < |scans| ==> scans[i].now < scans[j].now
  }

  /** Time never runs back and scans of the same instant agree. */
  ghost predicate Consistent(stream: seq<Scan>) {
    forall i, j :: 0 <= i < j < |stream| ==> stream[i].now < stream[j].now || stream[i] == stream[j]
  }

  /** `kept` normalizes `stream`: strictly ordered, the same scans, ending with the same scan. */
  ghost predicate Normalizes(kept: seq<Scan>, stream: seq<Scan>) {
    && StrictlyOrdered(kept)
    && (forall c :: c in kept <==> c in stream)
    && (stream != [] ==> kept != [] && kept[|kept| - 1] == stream[|stream| - 1])
  }

  lemma KeepScanNormalizes(kept: seq<Scan>, front: seq<Scan>, c: Scan)
    requires Normalizes(kept, front) && KeepScan(kept, c).Ok?
    ensures Normalizes(KeepScan(kept, c).value, front + [c])
  {
    var more := KeepScan(kept, c).value;
    if more == kept {
      assert kept[|kept| - 1] == c;
    } else {
      assert more == kept + [c];
    }
  }

  /** What normalizing keeps. */
  lemma {:induction false} NormalizeKeeps(stream: seq<Scan>)
    requires Normalize(stream).Ok?
    ensures Normalizes(Normalize(stream).value, stream)
  {
    if stream != [] {
      var n := |stream| - 1;
      NormalizeKeeps(stream[..n]);
      KeepScanNormalizes(Normalize(stream[..n]).value, stream[..n], stream[n]);
      assert stream == stream[..n] + [stream[n]];
    }
  }

  lemma ConsistentSnoc(front: seq<Scan>, c: Scan)
    ensures Consistent(front + [c]) <==>
            Consistent(front) && (front != [] ==> front[|front| - 1].now < c.now || front[|front| - 1] == c)
  {
    var stream := front + [c];
    assert forall i :: 0 <= i < |front| ==> stream[i] == front[i];
    if Consistent(stream) && front != [] {
      assert stream[|front| - 1].now < stream[|front|].now || stream[|front| - 1] == stream[|front|];
    }
  }

  /** Normalizing succeeds exactly on consistent streams. */
  lemma {:induction false} NormalizeExact(stream: seq<Scan>)
    ensures Normalize(stream).Ok? <==> Consistent(stream)
  {
    if stream != [] {
      var n := |stream| - 1;
      var front := stream[..n];
      NormalizeExact(front);
      ConsistentSnoc(front, stream[n]);
      assert stream == front + [stream[n]];
      if Normalize(front).Ok? {
        NormalizeKeeps(front);
        var kept := Normalize(front).value;
        assert kept == [] <==> front == [];
      }
    }
  }

  /** A retried scan changes nothing. */
  lemma RetriedScanIsIdempotent(stream: seq<Scan>, fills: seq<Fill>)
    requires stream != []
    ensures Run(stream + [stream[|stream| - 1]], fills) == Run(stream, fills)
  {
    var more := stream + [stream[|stream| - 1]];
    assert more[..|more| - 1] == stream;
    if Normalize(stream).Ok? {
      NormalizeKeeps(stream);
    }
  }

  lemma {:induction false} FillsOrderedMeaning(fills: seq<Fill>, i: nat, j: nat)
    requires FillsOrdered(fills) && i <= j < |fills|
    ensures fills[i].at <= fills[j].at
    decreases j
  {
    if i < j {
      FillsOrderedMeaning(fills, i, j - 1);
    }
  }

  /** Every action of a timeline is one of its scans or fills, so nothing in it is earlier
      than the heads of both lists. */
  lemma {:induction false} TimelineMembers(scans: seq<Scan>, fills: seq<Fill>)
    ensures forall a :: a in Timeline(scans, fills) ==>
              (a.OnScan? && a.scan in scans) || (a.OnFill? && a.fill in fills)
    decreases |scans| + |fills|
  {
    if fills != [] && (scans == [] || fills[0].at <= scans[0].now) {
      TimelineMembers(scans, fills[1..]);
    } else if scans != [] {
      TimelineMembers(scans[1..], fills);
    }
  }

  lemma {:induction false} TimelineChronological(scans: seq<Scan>, fills: seq<Fill>)
    requires StrictlyOrdered(scans) && FillsOrdered(fills)
    ensures Chronological(Timeline(scans, fills))
    decreases |scans| + |fills|
  {
    if fills != [] && (scans == [] || fills[0].at <= scans[0].now) {
      var rest := Timeline(scans, fills[1..]);
      TimelineChronological(scans, fills[1..]);
      TimelineMembers(scans, fills[1..]);
      forall i | 0 <= i < |rest|
        ensures fills[0].at <= rest[i].At()
      {
        var a := rest[i];
        assert a in rest;
        if a.OnFill? {
          var j :| 0 <= j < |fills[1..]| && fills[1..][j] == a.fill;
          FillsOrderedMeaning(fills, 0, j + 1);
        }
      }
      ChronologicalCons(OnFill(fills[0]), rest);
    } else if scans != [] {
      var rest := Timeline(scans[1..], fills);
      TimelineChronological(scans[1..], fills);
      TimelineMembers(scans[1..], fills);
      forall i | 0 <= i < |rest|
        ensures scans[0].now < rest[i].At()
      {
        var a := rest[i];
        assert a in rest;
        if a.OnFill? {
          var j :| 0 <= j < |fills| && fills[j] == a.fill;
          FillsOrderedMeaning(fills, 0, j);
        }
      }
      ChronologicalCons(OnScan(scans[0]), rest);
    }
  }

  lemma ChronologicalCons(a: Action, rest: seq<Action>)
    requires Chronological(rest)
    requires forall i :: 0 <= i < |rest| ==> a.At() <= rest[i].At() && (a.OnScan? ==> a.At() < rest[i].At())
    ensures Chronological([a] + rest)
  {
    var all := [a] + rest;
    forall i, j | 0 <= i < j < |all|
      ensures all[i].At() <= all[j].At() && (all[i].OnScan? ==> all[i].At() < all[j].At())
    {
      assert all[j] == rest[j - 1];
      if i > 0 {
        assert all[i] == rest[i - 1];
      }
    }
  }

  lemma {:induction false} PlayPrefix(acts: seq<Action>, n: nat)
    requires n <= |acts| && Play(acts).Ok?
    ensures Play(acts[..n]).Ok? && Play(acts[..n]).value.log <= Play(acts).value.log
  {
    if n == |acts| {
      assert acts[..n] == acts;
    } else {
      var m := |acts| - 1;
      PlayPrefix(acts[..m], n);
      assert acts[..m][..n] == acts[..n];
      StepExtendsLog(Play(acts[..m]).value, acts[m]);
    }
  }

  lemma StepExtendsLog(s: Sim, a: Action)
    requires Step(s, a).Ok?
    ensures s.log <= Step(s, a).value.log
  {
  }
}
