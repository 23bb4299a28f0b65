/** The replay as it runs: dictionaries and cursors updated in place, every event handed to
    the ledger object. Proved equal to `SignalLog.Run`, which knows nothing of the ledger:
    on no input does the ledger raise, suppress or reorder anything. */
module SignalReplay {
  import opened Prelude
  import opened SignalModel
  import opened SignalLedger
  import opened SignalLog
  import opened SignalEdges
  import opened SignalTheorems

  // ------------------------------------------------------------------ the ledger never objects

  ghost predicate Unbroken(log: seq<Event>) {
    forall k :: Lifecycle(log, k) != Broken
  }

  ghost predicate Safe(log: seq<Event>) {
    Sorted(log) && Distinct(log) && Unbroken(log)
  }

  /** One event keeps the ledger's phase of a signal in step with its life. */
  lemma PhaseStep(before: map<Sem, Phase>, e: Event, l: Life, k: Sem)
    requires LifeOf(Get(before, k)) == l
    requires e.signal == k ==> Advance(l, e) != Broken
    ensures LifeOf(Get(NextPhases(before, e), k)) == if e.signal == k then Advance(l, e) else l
  {
  }

  lemma NumberedSnoc(log: seq<Event>, e: Event)
    ensures Numbered(log + [e]) == Numbered(log) + [Entry(|log|, IdOf(e), e)]
  {
  }

  /** The ledger's phase table after one more event. */
  lemma PhasesNext(log: seq<Event>, e: Event)
    ensures Phases(Numbered(log + [e])) == NextPhases(Phases(Numbered(log)), e)
  {
    NumberedSnoc(log, e);
    Snoc(Numbered(log), Entry(|log|, IdOf(e), e));
  }

  /** The ledger's own phase table agrees with the grammar. */
  lemma {:induction false} LedgerPhases(log: seq<Event>, k: Sem)
    requires Lifecycle(log, k) != Broken
    ensures LifeOf(Get(Phases(Numbered(log)), k)) == Lifecycle(log, k)
  {
    if log != [] {
      var n := |log| - 1;
      var front, e := log[..n], log[n];
      UnbrokenPrefix(log, n, k);
      LedgerPhases(front, k);
      assert log == front + [e];
      PhasesNext(front, e);
      LifecycleSnoc(front, e, k);
      PhaseStep(Phases(Numbered(front)), e, Lifecycle(front, k), k);
    }
  }

  /** The conditions under which an append extends the ledger. */
  lemma NextIsAdmissible(log: seq<Event>, e: Event, after: seq<Event>)
    requires Safe(after) && log + [e] <= after
    ensures IdOf(e) !in ById(Numbered(log))
    ensures log != [] ==> log[|log| - 1].at <= e.at
    ensures Admissible(Phases(Numbered(log)), e)
  {
    NextInOrder(log, e, after);
    NextIsNew(log, e);
    assert Lifecycle(after, e.signal) != Broken;
    NextContinuesLife(log, e, after);
  }

  lemma NextInOrder(log: seq<Event>, e: Event, after: seq<Event>)
    requires Sorted(after) && Distinct(after) && log + [e] <= after
    ensures log != [] ==> log[|log| - 1].at <= e.at
    ensures forall i :: 0 <= i < |log| ==> !(log[i].kind == e.kind && log[i].at == e.at && log[i].signal == e.signal)
  {
    assert after[|log|] == e;
    assert forall i :: 0 <= i < |log| ==> after[i] == log[i];
  }

  lemma NextContinuesLife(log: seq<Event>, e: Event, after: seq<Event>)
    requires Lifecycle(after, e.signal) != Broken && log + [e] <= after
    ensures Admissible(Phases(Numbered(log)), e)
  {
    assert after[..|log|] == log && after[|log|] == e;
    UnbrokenPrefix(after, |log|, e.signal);
    AdvancesAt(after, |log|, e.signal);
    LedgerPhases(log, e.signal);
  }

  /** An event unlike all before it has an identifier unlike all before it. */
  lemma NextIsNew(log: seq<Event>, e: Event)
    requires forall i :: 0 <= i < |log| ==> !(log[i].kind == e.kind && log[i].at == e.at && log[i].signal == e.signal)
    ensures IdOf(e) !in ById(Numbered(log))
  {
    ByIdMeaning(Numbered(log));
    assert forall x :: x in Numbered(log) ==> x.id != IdOf(e);
  }

  /** One append of the replay: always accepted, never suppressed. */
  method Record(ledger: SignalEventLedger, e: Event, ghost log: seq<Event>, ghost after: seq<Event>)
    requires ledger.Valid() && ledger.events == Numbered(log)
    requires Safe(after) && log + [e] <= after
    modifies ledger
    ensures ledger.Valid() && ledger.events == Numbered(log + [e])
  {
    NextIsAdmissible(log, e, after);
    NumberedSnoc(log, e);
    var appended := ledger.Append(e);
    assert appended == Ok(Some(Entry(|log|, IdOf(e), e)));
  }

  lemma SafeAfter(acts: seq<Action>, n: nat)
    requires Chronological(acts) && n <= |acts| && Play(acts[..n]).Ok?
    ensures Safe(Play(acts[..n]).value.log)
  {
    ChronologicalPrefix(acts, n);
    LogOrderedAndDistinct(acts[..n]);
    EveryLogIsGrammatical(acts[..n]);
    var s := Play(acts[..n]).value;
    forall k
      ensures Lifecycle(s.log, k) != Broken
    {
      assert Lifecycle(s.log, k) == LifeOf(Get(s.phase, k));
    }
  }

  lemma {:induction false} PlayErrorSticks(acts: seq<Action>, n: nat)
    requires n <= |acts| && Play(acts[..n]).Err?
    ensures Play(acts) == Err(Play(acts[..n]).error)
  {
    if n == |acts| {
      assert acts[..n] == acts;
    } else {
      assert acts[..|acts| - 1][..n] == acts[..n];
      PlayErrorSticks(acts[..|acts| - 1], n);
    }
  }

  // ------------------------------------------------------------------ the steps in place

  method ApplyFill(ledger: SignalEventLedger, phase: map<Sem, Phase>, f: Fill, ghost s: Sim)
    returns (r: Result<map<Sem, Phase>, RunError>)
    requires ledger.Valid() && ledger.events == Numbered(s.log) && s.phase == phase
    requires FillStep(s, f).Ok? ==> Safe(FillStep(s, f).value.log)
    modifies ledger
    ensures r.Err? ==> FillStep(s, f) == Err(r.error)
    ensures r.Ok? ==>
              && FillStep(s, f) == Ok(Sim(s.log + [FillEvent(f)], r.value, s.active, s.last))
              && ledger.Valid() && ledger.events == Numbered(s.log + [FillEvent(f)])
  {
    if Get(phase, f.sem) != Some(Active) {
      return Err(FillWithoutActiveSignal);
    }
    Record(ledger, FillEvent(f), s.log, s.log + [FillEvent(f)]);
    r := Ok(phase[f.sem := Filled]);
  }

  lemma StagesExtend(s: Sim, c: Scan)
    ensures var s1 := ExpireStep(s, c.now);
            var s2 := WithdrawStep(s1, c.now, c.sem);
            s.log <= s1.log <= s2.log <= ScanStep(s, c).log
  {
  }

  /** `active` lapses at `now`. */
  method ExpireActive(ledger: SignalEventLedger, phase: map<Sem, Phase>, active: Option<Sem>, now: Time,
                      ghost s: Sim, ghost after: seq<Event>)
    returns (phase': map<Sem, Phase>, active': Option<Sem>)
    requires ledger.Valid() && ledger.events == Numbered(s.log)
    requires s.phase == phase && s.active == active && Safe(after) && ExpireStep(s, now).log <= after
    modifies ledger
    ensures ledger.Valid() && ledger.events == Numbered(ExpireStep(s, now).log)
    ensures ExpireStep(s, now) == Sim(ExpireStep(s, now).log, phase', active', s.last)
  {
    phase', active' := phase, active;
    if active.Some? && Lapsed(active.value, now) {
      if Get(phase, active.value) != Some(Filled) {
        Record(ledger, Expiry(active.value, now), s.log, after);
        phase' := phase[active.value := Expired];
      }
      active' := None;
    }
  }

  /** `active` is no longer what the scan concludes. */
  method WithdrawActive(ledger: SignalEventLedger, phase: map<Sem, Phase>, active: Option<Sem>, c: Scan,
                        ghost s: Sim, ghost after: seq<Event>)
    returns (phase': map<Sem, Phase>, active': Option<Sem>)
    requires ledger.Valid() && ledger.events == Numbered(s.log)
    requires s.phase == phase && s.active == active && Safe(after) && WithdrawStep(s, c.now, c.sem).log <= after
    modifies ledger
    ensures ledger.Valid() && ledger.events == Numbered(WithdrawStep(s, c.now, c.sem).log)
    ensures WithdrawStep(s, c.now, c.sem) == Sim(WithdrawStep(s, c.now, c.sem).log, phase', active', s.last)
  {
    phase', active' := phase, active;
    if active.Some? && KeyOf(c.sem) != active {
      if Get(phase, active.value) != Some(Filled) {
        Record(ledger, Withdrawal(active.value, c.now, c.sem), s.log, after);
        phase' := phase[active.value := Withdrawn];
      }
      active' := None;
    }
  }

  /** The scan's own signal is issued, unless it is still active, filled, or just expired. */
  method IssueKey(ledger: SignalEventLedger, phase: map<Sem, Phase>, active: Option<Sem>, last: Option<Sem>, c: Scan,
                  ghost s: Sim)
    returns (phase': map<Sem, Phase>, active': Option<Sem>)
    requires ledger.Valid() && ledger.events == Numbered(s.log)
    requires s == Sim(s.log, phase, active, last) && Safe(IssueStep(s, c.now, c.sem).log)
    modifies ledger
    ensures ledger.Valid() && ledger.events == Numbered(IssueStep(s, c.now, c.sem).log)
    ensures IssueStep(s, c.now, c.sem) == Sim(IssueStep(s, c.now, c.sem).log, phase', active', last)
  {
    phase', active' := phase, active;
    var key := KeyOf(c.sem);
    if key.Some? && active.None? && Get(phase, c.sem) != Some(Filled)
       && !(key == last && Get(phase, c.sem) == Some(Expired)) {
      var inTime := c.now <= c.sem.retest + SIGNAL_TTL;
      Record(ledger, Issue(c.sem, c.now, c.sem in phase), s.log, IssueStep(s, c.now, c.sem).log);
      phase' := phase[c.sem := if inTime then Active else Expired];
      active' := if inTime then key else None;
    }
  }

  method ApplyScan(ledger: SignalEventLedger, phase: map<Sem, Phase>, active: Option<Sem>, last: Option<Sem>, c: Scan,
                   ghost s: Sim)
    returns (phase': map<Sem, Phase>, active': Option<Sem>)
    requires ledger.Valid() && ledger.events == Numbered(s.log)
    requires s == Sim(s.log, phase, active, last) && Safe(ScanStep(s, c).log)
    modifies ledger
    ensures ledger.Valid() && ledger.events == Numbered(ScanStep(s, c).log)
    ensures ScanStep(s, c) == Sim(ScanStep(s, c).log, phase', active', KeyOf(c.sem))
  {
    ghost var after := ScanStep(s, c).log;
    StagesExtend(s, c);
    phase', active' := ExpireActive(ledger, phase, active, c.now, s, after);
    ghost var s1 := ExpireStep(s, c.now);
    phase', active' := WithdrawActive(ledger, phase', active', c, s1, after);
    ghost var s2 := WithdrawStep(s1, c.now, c.sem);
    phase', active' := IssueKey(ledger, phase', active', last, c, s2);
  }

  /** `seen` maps the instants of the kept scans to their conclusions. */
  ghost predicate Indexes(seen: map<Time, Sem>, kept: seq<Scan>) {
    && (forall x :: 0 <= x < |kept| ==> kept[x].now in seen && seen[kept[x].now] == kept[x].sem)
    && (forall t :: t in seen ==> exists x :: 0 <= x < |kept| && kept[x].now == t)
  }

  lemma IndexesSnoc(seen: map<Time, Sem>, kept: seq<Scan>, c: Scan)
    requires Indexes(seen, kept) && c.now !in seen
    ensures Indexes(seen[c.now := c.sem], kept + [c])
  {
    var more := kept + [c];
    var newer := seen[c.now := c.sem];
    forall t | t in newer
      ensures exists x :: 0 <= x < |more| && more[x].now == t
    {
      if t == c.now {
        assert more[|kept|].now == t;
      } else {
        var x :| 0 <= x < |kept| && kept[x].now == t;
        assert more[x].now == t;
      }
    }
  }

  /** The dictionary lookups decide what `KeepScan` decides. */
  lemma KeepScanBySeen(kept: seq<Scan>, seen: map<Time, Sem>, c: Scan)
    requires StrictlyOrdered(kept) && Indexes(seen, kept)
    ensures KeepScan(kept, c) ==
            if kept != [] && c.now < kept[|kept| - 1].now then Err(OutOfOrderScan)
            else if c.now !in seen then Ok(kept + [c])
            else if seen[c.now] != c.sem then Err(ConflictingScan)
            else Ok(kept)
  {
    if c.now in seen {
      var x :| 0 <= x < |kept| && kept[x].now == c.now;
      assert kept[|kept| - 1].now <= c.now ==> x == |kept| - 1;
    } else if kept != [] {
      assert kept[|kept| - 1].now in seen;
    }
  }

  lemma NormalizeNext(stream: seq<Scan>, i: nat, kept: seq<Scan>)
    requires i < |stream| && Normalize(stream[..i]) == Ok(kept)
    ensures Normalize(stream[..i + 1]) == KeepScan(kept, stream[i]) && StrictlyOrdered(kept)
    ensures KeepScan(kept, stream[i]).Err? ==> Normalize(stream) == KeepScan(kept, stream[i])
  {
    assert stream[..i + 1][..i] == stream[..i];
    NormalizeKeeps(stream[..i]);
    if KeepScan(kept, stream[i]).Err? {
      NormalizeErrorSticks(stream, i + 1);
    }
  }

  /** The locals of the loop: the kept scans, their conclusions by instant, the latest instant. */
  datatype Seen = Seen(kept: seq<Scan>, byTime: map<Time, Sem>, lastTime: Option<Time>)

  ghost predicate SeenAfter(stream: seq<Scan>, i: nat, s: Seen)
    requires i <= |stream|
  {
    && Normalize(stream[..i]) == Ok(s.kept)
    && Indexes(s.byTime, s.kept)
    && s.lastTime == if s.kept == [] then None else Some(s.kept[|s.kept| - 1].now)
  }

  /** One scan of the stream: kept, dropped as a retry, or refused. */
  method AbsorbScan(stream: seq<Scan>, i: nat, s: Seen) returns (r: Result<Seen, RunError>)
    requires i < |stream| && SeenAfter(stream, i, s)
    ensures r.Err? ==> Normalize(stream) == Err(r.error)
    ensures r.Ok? ==> SeenAfter(stream, i + 1, r.value)
  {
    var c := stream[i];
    NormalizeNext(stream, i, s.kept);
    KeepScanBySeen(s.kept, s.byTime, c);
    if s.lastTime.Some? && c.now < s.lastTime.value {
      return Err(OutOfOrderScan);
    }
    if c.now in s.byTime {
      if s.byTime[c.now] != c.sem {
        return Err(ConflictingScan);
      }
      return Ok(s);
    }
    IndexesSnoc(s.byTime, s.kept, c);
    r := Ok(Seen(s.kept + [c], s.byTime[c.now := c.sem], Some(c.now)));
  }

  /** Drops retried scans and refuses a stream that runs back or contradicts itself. */
  method NormalizeStream(stream: seq<Scan>) returns (r: Result<seq<Scan>, RunError>)
    ensures r == Normalize(stream)
  {
    var s := Seen([], map[], None);
    for i := 0 to |stream|
      invariant SeenAfter(stream, i, s)
    {
      var absorbed := AbsorbScan(stream, i, s);
      if absorbed.Err? {
        return Err(absorbed.error);
      }
      s := absorbed.value;
    }
    assert stream[..|stream|] == stream;
    r := Ok(s.kept);
  }

  lemma {:induction false} NormalizeErrorSticks(stream: seq<Scan>, n: nat)
    requires n <= |stream| && Normalize(stream[..n]).Err?
    ensures Normalize(stream) == Err(Normalize(stream[..n]).error)
  {
    if n == |stream| {
      assert stream[..n] == stream;
    } else {
      assert stream[..|stream| - 1][..n] == stream[..n];
      NormalizeErrorSticks(stream[..|stream| - 1], n);
    }
  }

  // ------------------------------------------------------------------ the whole replay

  /** The timeline of the scans from `i` and the fills from `j`. */
  ghost function Ahead(scans: seq<Scan>, fills: seq<Fill>, i: nat, j: nat): seq<Action>
    requires i <= |scans| && j <= |fills|
    decreases |scans| + |fills| - i - j
  {
    if j < |fills| && (i < |scans| ==> fills[j].at <= scans[i].now) then [OnFill(fills[j])] + Ahead(scans, fills, i, j + 1)
    else if i < |scans| then [OnScan(scans[i])] + Ahead(scans, fills, i + 1, j)
    else []
  }

  lemma {:induction false} AheadIsTimeline(scans: seq<Scan>, fills: seq<Fill>, i: nat, j: nat)
    requires i <= |scans| && j <= |fills|
    ensures Ahead(scans, fills, i, j) == Timeline(scans[i..], fills[j..])
    decreases |scans| + |fills| - i - j
  {
    if j < |fills| && (i < |scans| ==> fills[j].at <= scans[i].now) {
      AheadIsTimeline(scans, fills, i, j + 1);
      assert fills[j..][1..] == fills[j + 1..];
    } else if i < |scans| {
      AheadIsTimeline(scans, fills, i + 1, j);
      assert scans[i..][1..] == scans[i + 1..];
    }
  }

  /** The states before and after each of the first `n` actions. */
  ghost predicate IsTrace(acts: seq<Action>, n: nat, trace: seq<Sim>) {
    && n <= |acts| && |trace| == n + 1 && trace[0] == START
    && (forall k {:trigger Step(trace[k], acts[k])} :: 0 <= k < n ==> Step(trace[k], acts[k]) == Ok(trace[k + 1]))
  }

  ghost predicate LeadsTo(acts: seq<Action>, n: nat, s: Sim) {
    exists trace :: IsTrace(acts, n, trace) && trace[n] == s
  }

  lemma {:induction false} TraceIsPlay(acts: seq<Action>, n: nat, trace: seq<Sim>)
    requires IsTrace(acts, n, trace)
    ensures Play(acts[..n]) == Ok(trace[n])
  {
    if n > 0 {
      assert Step(trace[n - 1], acts[n - 1]) == Ok(trace[n]);
      TraceIsPlay(acts, n - 1, trace[..n]);
      assert acts[..n] == acts[..n - 1] + [acts[n - 1]];
      PlaySnoc(acts[..n - 1], acts[n - 1], trace[n - 1]);
    }
  }

  lemma LeadsToPlay(acts: seq<Action>, n: nat, s: Sim)
    requires LeadsTo(acts, n, s)
    ensures n <= |acts| && Play(acts[..n]) == Ok(s)
  {
    var trace :| IsTrace(acts, n, trace) && trace[n] == s;
    TraceIsPlay(acts, n, trace);
  }

  lemma LeadsOn(acts: seq<Action>, n: nat, s: Sim, next: Sim)
    requires LeadsTo(acts, n, s) && n < |acts| && Step(s, acts[n]) == Ok(next)
    ensures LeadsTo(acts, n + 1, next)
  {
    var trace :| IsTrace(acts, n, trace) && trace[n] == s;
    var more := trace + [next];
    forall k | 0 <= k < n + 1
      ensures Step(more[k], acts[k]) == Ok(more[k + 1])
    {
      assert k < n ==> Step(trace[k], acts[k]) == Ok(trace[k + 1]);
    }
    assert IsTrace(acts, n + 1, more);
  }

  /** The loops have played the first `i` scans and `j` fills, which reached `s`. */
  ghost predicate Reached(acts: seq<Action>, scans: seq<Scan>, fills: seq<Fill>, i: nat, j: nat, s: Sim) {
    && i <= |scans| && j <= |fills| && i + j <= |acts|
    && Chronological(acts)
    && acts[i + j..] == Ahead(scans, fills, i, j)
    && LeadsTo(acts, i + j, s)
  }

  lemma NextAction(acts: seq<Action>, n: nat, a: Action, rest: seq<Action>, s: Sim)
    requires Chronological(acts) && LeadsTo(acts, n, s) && n <= |acts| && acts[n..] == [a] + rest
    ensures n < |acts| && acts[n + 1..] == rest
    ensures Step(s, a).Ok? ==> Safe(Step(s, a).value.log) && LeadsTo(acts, n + 1, Step(s, a).value)
    ensures Step(s, a).Err? ==> Play(acts) == Err(Step(s, a).error)
  {
    TakeNext(acts, n, a, rest);
    LeadsToPlay(acts, n, s);
    PlaySnoc(acts[..n], a, s);
    if Step(s, a).Ok? {
      SafeAfter(acts, n + 1);
      LeadsOn(acts, n, s, Step(s, a).value);
    } else {
      PlayErrorSticks(acts, n + 1);
    }
  }

  lemma TakeNext(acts: seq<Action>, n: nat, a: Action, rest: seq<Action>)
    requires n <= |acts| && acts[n..] == [a] + rest
    ensures n < |acts| && acts[n] == a && acts[n + 1..] == rest && acts[..n + 1] == acts[..n] + [a]
  {
    assert acts[n] == acts[n..][0] == a;
    assert acts[n + 1..] == acts[n..][1..];
  }

  lemma PlaySnoc(done: seq<Action>, a: Action, s: Sim)
    requires Play(done) == Ok(s)
    ensures Play(done + [a]) == Step(s, a)
  {
    assert (done + [a])[..|done|] == done;
  }

  lemma ReachNextFill(acts: seq<Action>, scans: seq<Scan>, fills: seq<Fill>, i: nat, j: nat, s: Sim)
    requires Reached(acts, scans, fills, i, j, s)
    requires j < |fills| && (i < |scans| ==> fills[j].at <= scans[i].now)
    ensures FillStep(s, fills[j]).Ok? ==>
              Safe(FillStep(s, fills[j]).value.log) && Reached(acts, scans, fills, i, j + 1, FillStep(s, fills[j]).value)
    ensures FillStep(s, fills[j]).Err? ==> Play(acts) == Err(FillStep(s, fills[j]).error)
  {
    NextAction(acts, i + j, OnFill(fills[j]), Ahead(scans, fills, i, j + 1), s);
  }

  lemma ReachNextScan(acts: seq<Action>, scans: seq<Scan>, fills: seq<Fill>, i: nat, j: nat, s: Sim)
    requires Reached(acts, scans, fills, i, j, s)
    requires i < |scans| && (j < |fills| ==> fills[j].at > scans[i].now)
    ensures Safe(ScanStep(s, scans[i]).log)
    ensures Reached(acts, scans, fills, i + 1, j, ScanStep(s, scans[i]))
  {
    NextAction(acts, i + j, OnScan(scans[i]), Ahead(scans, fills, i + 1, j), s);
  }

  lemma ReachStart(scans: seq<Scan>, fills: seq<Fill>)
    requires StrictlyOrdered(scans) && FillsOrdered(fills)
    ensures Reached(Timeline(scans, fills), scans, fills, 0, 0, START)
  {
    TimelineChronological(scans, fills);
    AheadIsTimeline(scans, fills, 0, 0);
    assert scans[0..] == scans && fills[0..] == fills;
    assert IsTrace(Timeline(scans, fills), 0, [START]);
  }

  lemma ReachEnd(acts: seq<Action>, scans: seq<Scan>, fills: seq<Fill>, s: Sim)
    requires Reached(acts, scans, fills, |scans|, |fills|, s)
    ensures Play(acts) == Ok(s)
  {
    LeadsToPlay(acts, |scans| + |fills|, s);
    assert acts[|scans| + |fills|..] == [];
    assert acts[..|scans| + |fills|] == acts;
  }

  /** Everything the loops maintain: the timeline played so far, and the ledger and the local
      variables in step with it. */
  ghost predicate InStep(ledger: SignalEventLedger, s: Sim, phase: map<Sem, Phase>, active: Option<Sem>, last: Option<Sem>)
    reads ledger
  {
    s == Sim(s.log, phase, active, last) && ledger.Valid() && ledger.events == Numbered(s.log)
  }

  /** One fill of the inner loop. */
  method PlayFill(ledger: SignalEventLedger, fills: seq<Fill>, j: nat, phase: map<Sem, Phase>,
                  ghost acts: seq<Action>, ghost scans: seq<Scan>, ghost i: nat, ghost s: Sim)
    returns (r: Result<map<Sem, Phase>, RunError>, ghost s': Sim)
    requires Reached(acts, scans, fills, i, j, s) && InStep(ledger, s, phase, s.active, s.last)
    requires j < |fills| && (i < |scans| ==> fills[j].at <= scans[i].now)
    modifies ledger
    ensures r.Err? ==> Play(acts) == Err(r.error)
    ensures r.Ok? ==> Reached(acts, scans, fills, i, j + 1, s') && InStep(ledger, s', r.value, s.active, s.last)
  {
    ReachNextFill(acts, scans, fills, i, j, s);
    r := ApplyFill(ledger, phase, fills[j], s);
    s' := if r.Ok? then FillStep(s, fills[j]).value else s;
  }

  /** The inner loop: fills up to `now` (all of them, after the last scan). */
  method PlayFills(ledger: SignalEventLedger, fills: seq<Fill>, from: nat, now: Option<Time>, phase: map<Sem, Phase>,
                   ghost acts: seq<Action>, ghost scans: seq<Scan>, ghost i: nat, ghost s: Sim)
    returns (j: nat, r: Result<map<Sem, Phase>, RunError>, ghost s': Sim)
    requires Reached(acts, scans, fills, i, from, s) && InStep(ledger, s, phase, s.active, s.last)
    requires now == if i < |scans| then Some(scans[i].now) else None
    modifies ledger
    ensures r.Err? ==> Play(acts) == Err(r.error)
    ensures r.Ok? ==>
              && Reached(acts, scans, fills, i, j, s')
              && InStep(ledger, s', r.value, s.active, s.last)
              && (j < |fills| ==> now.Some? && fills[j].at > now.value)
  {
    j, r, s' := from, Ok(phase), s;
    while j < |fills| && (now.None? || fills[j].at <= now.value)
      invariant r.Ok? && Reached(acts, scans, fills, i, j, s')
      invariant InStep(ledger, s', r.value, s.active, s.last)
    {
      r, s' := PlayFill(ledger, fills, j, r.value, acts, scans, i, s');
      if r.Err? {
        return;
      }
      j := j + 1;
    }
  }

  /** The outer loop over normalized scans, then the fills that remain. */
  method PlayScans(scans: seq<Scan>, fills: seq<Fill>) returns (r: Result<seq<Entry>, RunError>)
    requires StrictlyOrdered(scans) && FillsOrdered(fills)
    ensures r == match Play(Timeline(scans, fills)) { case Ok(s) => Ok(Numbered(s.log)) case Err(e) => Err(e) }
    ensures r.Ok? ==> Lawful(r.value)
  {
    ghost var acts := Timeline(scans, fills);
    ReachStart(scans, fills);
    var ledger := new SignalEventLedger();
    var phase: map<Sem, Phase>, active: Option<Sem>, last: Option<Sem> := map[], None, None;
    var i, j := 0, 0;
    ghost var s := START;
    var filled: Result<map<Sem, Phase>, RunError>;
    while i < |scans|
      invariant Reached(acts, scans, fills, i, j, s)
      invariant fresh(ledger) && InStep(ledger, s, phase, active, last)
    {
      j, filled, s := PlayFills(ledger, fills, j, Some(scans[i].now), phase, acts, scans, i, s);
      if filled.Err? {
        return Err(filled.error);
      }
      ReachNextScan(acts, scans, fills, i, j, s);
      phase, active := ApplyScan(ledger, filled.value, active, last, scans[i], s);
      last := KeyOf(scans[i].sem);
      s := ScanStep(s, scans[i]);
      i := i + 1;
    }
    j, filled, s := PlayFills(ledger, fills, j, None, phase, acts, scans, i, s);
    if filled.Err? {
      return Err(filled.error);
    }
    ReachEnd(acts, scans, fills, s);
    var snapshot := ledger.Snapshot();
    r := Ok(snapshot);
  }

  /** The replay returns the numbered log of the specification, or its error; a stored log is
      one that `SignalLedger.Replay` accepts after a restart. */
  method SignalEvents(stream: seq<Scan>, fills: seq<Fill>) returns (r: Result<seq<Entry>, RunError>)
    ensures r == match Run(stream, fills) { case Ok(log) => Ok(Numbered(log)) case Err(e) => Err(e) }
    ensures r.Ok? ==> Lawful(r.value)
  {
    if !FillsOrdered(fills) {
      return Err(OutOfOrderFill);
    }
    var normalized := NormalizeStream(stream);
    if normalized.Err? {
      return Err(normalized.error);
    }
    NormalizeKeeps(stream);
    r := PlayScans(normalized.value, fills);
  }
}
