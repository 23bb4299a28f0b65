/** Safety of every run's log: the per-signal grammar, time order, distinctness of events,
    permanence of staleness, and prefix invariance. */
module SignalTheorems {
  import opened Prelude
  import opened SignalModel
  import opened SignalLog
  import opened SignalEdges

  // ------------------------------------------------------------------ the per-signal grammar

  datatype Life = Unseen | In(phase: Phase) | Broken

  function Advance(l: Life, e: Event): Life {
    match e.kind
    case EMIT => if l == Unseen then In(PhaseAfterEvent(e)) else Broken
    case REISSUE => if l == In(Withdrawn) || l == In(Expired) then In(PhaseAfterEvent(e)) else Broken
    case _ => if l == In(Active) then In(PhaseAfterEvent(e)) else Broken
  }

  /** The life of one signal along a log. */
  function Lifecycle(log: seq<Event>, k: Sem): Life {
    if log == [] then Unseen
    else
      var l := Lifecycle(log[..|log| - 1], k);
      if log[|log| - 1].signal == k then Advance(l, log[|log| - 1]) else l
  }

  lemma LifecycleSnoc(log: seq<Event>, e: Event, k: Sem)
    ensures Lifecycle(log + [e], k) == if e.signal == k then Advance(Lifecycle(log, k), e) else Lifecycle(log, k)
  {
    assert (log + [e])[..|log + [e]| - 1] == log;
  }

  function LifeOf(p: Option<Phase>): Life {
    if p.Some? then In(p.value) else Unseen
  }

  /** The phase table is the fold of the grammar over the log, for every signal. */
  ghost predicate Grammatical(s: Sim) {
    forall k :: Lifecycle(s.log, k) == LifeOf(Get(s.phase, k))
  }

  lemma EmittedKeepsGrammar(s: Sim, e: Event)
    requires Grammatical(s)
    requires Advance(LifeOf(Get(s.phase, e.signal)), e) == In(PhaseAfterEvent(e))
    ensures Grammatical(Emitted(s, e, PhaseAfterEvent(e)))
  {
    forall k {
      LifecycleSnoc(s.log, e, k);
    }
  }

  lemma ExpireKeepsGrammar(s: Sim, now: Time)
    requires Coherent(s) && Grammatical(s)
    ensures Grammatical(ExpireStep(s, now))
  {
    if s.active.Some? && Held(s, s.active.value) {
      EmittedKeepsGrammar(s, Expiry(s.active.value, now));
    }
  }

  lemma WithdrawKeepsGrammar(s: Sim, now: Time, sem: Sem)
    requires Coherent(s) && Grammatical(s)
    ensures Grammatical(WithdrawStep(s, now, sem))
  {
    if s.active.Some? && Held(s, s.active.value) {
      EmittedKeepsGrammar(s, Withdrawal(s.active.value, now, sem));
    }
  }

  lemma IssueKeepsGrammar(s: Sim, now: Time, sem: Sem)
    requires Closed(s, KeyOf(sem)) && Grammatical(s)
    ensures Grammatical(IssueStep(s, now, sem))
  {
    if IssueStep(s, now, sem) != s {
      EmittedKeepsGrammar(s, Issue(sem, now, sem in s.phase));
    }
  }

  lemma StepKeepsGrammar(s: Sim, a: Action)
    requires Coherent(s) && Grammatical(s) && Step(s, a).Ok?
    ensures Grammatical(Step(s, a).value)
  {
    match a
    case OnFill(f) =>
      EmittedKeepsGrammar(s, FillEvent(f));
    case OnScan(c) =>
      ExpireKeepsCoherent(s, c.now);
      ExpireKeepsGrammar(s, c.now);
      var s1 := ExpireStep(s, c.now);
      WithdrawCloses(s1, c.now, c.sem);
      WithdrawKeepsGrammar(s1, c.now, c.sem);
      IssueKeepsGrammar(WithdrawStep(s1, c.now, c.sem), c.now, c.sem);
  }

  lemma {:induction false} EveryLogIsGrammatical(acts: seq<Action>)
    requires Play(acts).Ok?
    ensures Grammatical(Play(acts).value)
  {
    if acts != [] {
      var n := |acts| - 1;
      EveryLogIsGrammatical(acts[..n]);
      StateIsHistory(acts[..n]);
      StepKeepsGrammar(Play(acts[..n]).value, acts[n]);
    }
  }

  /** No prefix of an unbroken life is broken. */
  lemma {:induction false} UnbrokenPrefix(log: seq<Event>, n: nat, k: Sem)
    requires n <= |log| && Lifecycle(log, k) != Broken
    ensures Lifecycle(log[..n], k) != Broken
  {
    if n == |log| {
      assert log[..n] == log;
    } else {
      var m := |log| - 1;
      UnbrokenPrefix(log[..m], n, k);
      assert log[..m][..n] == log[..n];
    }
  }

  lemma {:induction false} QuietStretch(log: seq<Event>, i: nat, j: nat, k: Sem)
    requires i <= j <= |log|
    requires forall m :: i <= m < j ==> log[m].signal != k
    ensures Lifecycle(log[..j], k) == Lifecycle(log[..i], k)
    decreases j
  {
    if i < j {
      QuietStretch(log, i, j - 1, k);
      assert log[..j] == log[..j - 1] + [log[j - 1]];
      LifecycleSnoc(log[..j - 1], log[j - 1], k);
    }
  }

  /** After a signal's event its life is settled by that event alone. */
  lemma LifeAfterEvent(log: seq<Event>, i: nat, k: Sem)
    requires i < |log| && log[i].signal == k && Lifecycle(log, k) != Broken
    ensures Lifecycle(log[..i + 1], k) == In(PhaseAfterEvent(log[i]))
  {
    UnbrokenPrefix(log, i + 1, k);
    assert log[..i + 1] == log[..i] + [log[i]];
    LifecycleSnoc(log[..i], log[i], k);
  }

  lemma LogIsUnbroken(acts: seq<Action>, k: Sem)
    requires Play(acts).Ok?
    ensures Lifecycle(Play(acts).value.log, k) != Broken
  {
    EveryLogIsGrammatical(acts);
    assert Lifecycle(Play(acts).value.log, k) == LifeOf(Get(Play(acts).value.phase, k));
  }

  lemma AdvancesAt(log: seq<Event>, j: nat, k: Sem)
    requires j < |log| && log[j].signal == k && Lifecycle(log, k) != Broken
    ensures Advance(Lifecycle(log[..j], k), log[j]) != Broken
  {
    UnbrokenPrefix(log, j + 1, k);
    assert log[..j + 1] == log[..j] + [log[j]];
    LifecycleSnoc(log[..j], log[j], k);
  }

  lemma LifeAtEvent(acts: seq<Action>, j: nat)
    requires Play(acts).Ok? && j < |Play(acts).value.log|
    ensures var log := Play(acts).value.log;
            var k := log[j].signal;
            Lifecycle(log, k) != Broken && Advance(Lifecycle(log[..j], k), log[j]) != Broken
  {
    var log := Play(acts).value.log;
    LogIsUnbroken(acts, log[j].signal);
    AdvancesAt(log, j, log[j].signal);
  }

  /** The first event of a signal is its EMIT. */
  lemma FirstEventIsEmit(acts: seq<Action>, j: nat)
    requires Play(acts).Ok? && j < |Play(acts).value.log|
    requires forall m :: 0 <= m < j ==> Play(acts).value.log[m].signal != Play(acts).value.log[j].signal
    ensures Play(acts).value.log[j].kind == EMIT
  {
    LifeAtEvent(acts, j);
    QuietStretch(Play(acts).value.log, 0, j, Play(acts).value.log[j].signal);
  }

  /** Of two consecutive events of one signal, the second closes (by WITHDRAWN, EXPIRE or
      FILL) a FRESH issuance, or reissues a signal whose last event was WITHDRAWN, EXPIRE or a
      LATE issuance; and nothing follows a FILL. */
  ghost predicate Succeeds(first: Event, second: Event) {
    if Issuance(first) && first.freshness == Some(FRESH) then second.kind in {WITHDRAWN, EXPIRE, FILL}
    else first.kind != FILL && second.kind == REISSUE
  }

  lemma ConsecutiveInLife(log: seq<Event>, i: nat, j: nat, k: Sem)
    requires i < j < |log| && log[i].signal == log[j].signal == k
    requires forall m :: i < m < j ==> log[m].signal != k
    requires Lifecycle(log, k) != Broken && Advance(Lifecycle(log[..j], k), log[j]) != Broken
    ensures Succeeds(log[i], log[j])
  {
    LifeAfterEvent(log, i, k);
    QuietStretch(log, i + 1, j, k);
  }

  lemma ConsecutiveEvents(acts: seq<Action>, i: nat, j: nat)
    requires Play(acts).Ok? && i < j < |Play(acts).value.log|
    requires Play(acts).value.log[i].signal == Play(acts).value.log[j].signal
    requires forall m :: i < m < j ==> Play(acts).value.log[m].signal != Play(acts).value.log[j].signal
    ensures Succeeds(Play(acts).value.log[i], Play(acts).value.log[j])
  {
    LifeAtEvent(acts, j);
    ConsecutiveInLife(Play(acts).value.log, i, j, Play(acts).value.log[j].signal);
  }

  /** Nothing ever follows a FILL of the same signal. */
  lemma {:induction false} FilledForever(log: seq<Event>, i: nat, j: nat, k: Sem)
    requires i < j <= |log| && log[i].signal == k && log[i].kind == FILL
    requires Lifecycle(log, k) != Broken
    ensures Lifecycle(log[..j], k) == In(Filled)
    ensures forall m :: i < m < j ==> log[m].signal != k
    decreases j
  {
    if j == i + 1 {
      LifeAfterEvent(log, i, k);
    } else {
      FilledForever(log, i, j - 1, k);
      if log[j - 1].signal == k {
        AdvancesAt(log, j - 1, k);
        assert false;
      }
      assert log[..j] == log[..j - 1] + [log[j - 1]];
      LifecycleSnoc(log[..j - 1], log[j - 1], k);
    }
  }

  lemma FillIsFinal(acts: seq<Action>, i: nat, j: nat)
    requires Play(acts).Ok? && i < j < |Play(acts).value.log| && Play(acts).value.log[i].kind == FILL
    ensures Play(acts).value.log[j].signal != Play(acts).value.log[i].signal
  {
    var s := Play(acts).value;
    LifeAtEvent(acts, i);
    FilledForever(s.log, i, |s.log|, s.log[i].signal);
  }

  lemma {:induction false} NeverUnseenAgain(log: seq<Event>, i: nat, j: nat, k: Sem)
    requires i < j <= |log| && log[i].signal == k && Lifecycle(log, k) != Broken
    ensures Lifecycle(log[..j], k) != Unseen
    decreases j
  {
    if j == i + 1 {
      LifeAfterEvent(log, i, k);
    } else {
      NeverUnseenAgain(log, i, j - 1, k);
      assert log[..j] == log[..j - 1] + [log[j - 1]];
      LifecycleSnoc(log[..j - 1], log[j - 1], k);
    }
  }

  /** A signal is emitted at most once, before any of its other events. */
  lemma EmitIsFirst(acts: seq<Action>, i: nat, j: nat)
    requires Play(acts).Ok? && i < j < |Play(acts).value.log|
    requires Play(acts).value.log[i].signal == Play(acts).value.log[j].signal
    ensures Play(acts).value.log[j].kind != EMIT
  {
    var s := Play(acts).value;
    var k := s.log[j].signal;
    LifeAtEvent(acts, j);
    NeverUnseenAgain(s.log, i, j, k);
  }

  // ------------------------------------------------------------------ time order and distinctness

  /** Nothing is later than `now`, and only fills may be as late. */
  ghost predicate Settled(log: seq<Event>, now: Time) {
    forall i :: 0 <= i < |log| ==> log[i].at <= now && (log[i].kind != FILL ==> log[i].at < now)
  }

  ghost predicate Distinct(log: seq<Event>) {
    forall i, j :: 0 <= i < j < |log| ==>
      !(log[i].kind == log[j].kind && log[i].at == log[j].at && log[i].signal == log[j].signal)
  }

  ghost predicate Sorted(log: seq<Event>) {
    forall i, j :: 0 <= i < j < |log| ==> log[i].at <= log[j].at
  }

  lemma ScanEventShape(s: Sim, c: Scan, e: Event)
    requires ClosedBy(s, c, e) || IssuedBy(s, c, e)
    ensures e.at == c.now && e.kind != FILL
  {
  }

  /** What one action appends: events of its own instant, of distinct kinds, FILL only by a fill. */
  lemma StepAppends(s: Sim, a: Action) returns (batch: seq<Event>)
    requires Coherent(s) && Step(s, a).Ok?
    ensures Step(s, a).value.log == s.log + batch
    ensures forall i :: 0 <= i < |batch| ==> batch[i].at == a.At() && (batch[i].kind == FILL <==> a.OnFill?)
    ensures |batch| <= 2 && (|batch| == 2 ==> batch[0].kind != batch[1].kind)
    ensures a.OnFill? ==> batch == [FillEvent(a.fill)]
  {
    match a
    case OnFill(f) =>
      batch := [FillEvent(f)];
    case OnScan(c) =>
      batch := ScanAppends(s, c);
      forall i | 0 <= i < |batch|
        ensures batch[i].at == c.now && batch[i].kind != FILL
      {
        assert batch[i] in batch;
        ScanEventShape(s, c, batch[i]);
      }
  }

  lemma BatchKeepsDistinct(log: seq<Event>, batch: seq<Event>, now: Time)
    requires Distinct(log) && Sorted(log) && Settled(log, now)
    requires forall i :: 0 <= i < |batch| ==> batch[i].at == now
    requires |batch| <= 2 && (|batch| == 2 ==> batch[0].kind != batch[1].kind)
    requires forall i, j :: 0 <= i < |log| && 0 <= j < |batch| && log[i].kind == FILL && batch[j].kind == FILL ==>
               log[i].signal != batch[j].signal
    ensures Distinct(log + batch) && Sorted(log + batch)
  {
  }

  /** Before the next action, the log is settled at that action's instant. */
  lemma {:induction false} LogSettled(acts: seq<Action>, a: Action)
    requires Play(acts).Ok? && Chronological(acts + [a])
    ensures Settled(Play(acts).value.log, a.At())
  {
    if acts != [] {
      var n := |acts| - 1;
      var front, last := acts[..n], acts[n];
      var more := acts + [a];
      assert acts == front + [last] && more[n] == last && more[|acts|] == a;
      ChronologicalPrefix(more, |acts|);
      LogSettled(front, last);
      StateIsHistory(front);
      var batch := StepAppends(Play(front).value, last);
      SettledThen(Play(front).value.log, batch, last, a.At());
    }
  }

  lemma SettledThen(log: seq<Event>, batch: seq<Event>, last: Action, now: Time)
    requires Settled(log, last.At()) && last.At() <= now && (last.OnScan? ==> last.At() < now)
    requires forall i :: 0 <= i < |batch| ==> batch[i].at == last.At() && (batch[i].kind == FILL <==> last.OnFill?)
    ensures Settled(log + batch, now)
  {
  }

  lemma ChronologicalPrefix(acts: seq<Action>, n: nat)
    requires Chronological(acts) && n <= |acts|
    ensures Chronological(acts[..n])
  {
  }

  /** A fill in the last step is of a signal never filled before. */
  lemma LastFillIsNew(acts: seq<Action>, log: seq<Event>, batch: seq<Event>)
    requires Play(acts).Ok? && Play(acts).value.log == log + batch
    ensures forall i, j :: 0 <= i < |log| && 0 <= j < |batch| && log[i].kind == FILL ==> log[i].signal != batch[j].signal
  {
    forall i, j | 0 <= i < |log| && 0 <= j < |batch| && log[i].kind == FILL
      ensures log[i].signal != batch[j].signal
    {
      assert (log + batch)[i] == log[i] && (log + batch)[|log| + j] == batch[j];
      FillIsFinal(acts, i, |log| + j);
    }
  }

  /** Every log is in time order and holds no two events of the same kind, time and signal. */
  lemma {:induction false} LogOrderedAndDistinct(acts: seq<Action>)
    requires Play(acts).Ok? && Chronological(acts)
    ensures Sorted(Play(acts).value.log) && Distinct(Play(acts).value.log)
  {
    if acts != [] {
      var n := |acts| - 1;
      var front, last := acts[..n], acts[n];
      assert acts == front + [last];
      ChronologicalPrefix(acts, n);
      LogOrderedAndDistinct(front);
      LogSettled(front, last);
      StateIsHistory(front);
      var log := Play(front).value.log;
      var batch := StepAppends(Play(front).value, last);
      LastFillIsNew(acts, log, batch);
      BatchKeepsDistinct(log, batch, last.At());
    }
  }

  // ------------------------------------------------------------------ staleness

  /** After every scan the followed signal is inside its validity window. */
  lemma ActiveIsNeverStale(acts: seq<Action>, c: Scan)
    requires Play(acts).Ok?
    ensures Play(acts + [OnScan(c)]).Ok?
    ensures var s := Play(acts + [OnScan(c)]).value;
            s.active.Some? ==> c.now <= s.active.value.retest + SIGNAL_TTL
  {
    assert (acts + [OnScan(c)])[..|acts|] == acts;
    StateIsHistory(acts);
    var s := Play(acts).value;
    if ScanStep(s, c).active.Some? {
      ScanEffect(s, c, ScanStep(s, c).active.value);
    }
  }

  /** Issuances are FRESH exactly inside the validity window, and SIGNAL_STALE means outside. */
  ghost predicate Honest(e: Event) {
    && (Issuance(e) ==> (e.freshness == Some(FRESH) <==> !Stale(e.signal, e.at)))
    && (e.kind == EXPIRE && e.reason == "SIGNAL_STALE" ==> Stale(e.signal, e.at))
  }

  lemma {:induction false} LogIsHonest(acts: seq<Action>)
    requires Play(acts).Ok?
    ensures forall e :: e in Play(acts).value.log ==> Honest(e)
  {
    forall e | e in Play(acts).value.log
      ensures Honest(e)
    {
      LogIsExactlyTheExpectedEvents(acts, e);
    }
  }

  ghost predicate DeclaredStale(e: Event) {
    (e.kind == EXPIRE && e.reason == "SIGNAL_STALE") || (Issuance(e) && e.freshness != Some(FRESH))
  }

  /** An honest reissue after a declaration of staleness is late. */
  lemma LateAgain(first: Event, second: Event)
    requires DeclaredStale(first) && Honest(first) && Honest(second)
    requires first.signal == second.signal && first.at <= second.at && second.kind == REISSUE
    ensures second.freshness != Some(FRESH)
  {
  }

  /** An expired life is only continued by a late reissue. */
  lemma StaleNext(log: seq<Event>, i: nat, j: nat, k: Sem)
    requires i < j < |log| && log[i].signal == k && DeclaredStale(log[i])
    requires Lifecycle(log, k) != Broken && Lifecycle(log[..j], k) == In(Expired)
    requires log[i].at <= log[j].at && Honest(log[i]) && Honest(log[j])
    ensures Lifecycle(log[..j + 1], k) == In(Expired)
    ensures log[j].signal == k ==> log[j].kind == REISSUE && log[j].freshness != Some(FRESH)
  {
    assert log[..j + 1] == log[..j] + [log[j]];
    LifecycleSnoc(log[..j], log[j], k);
    if log[j].signal == k {
      AdvancesAt(log, j, k);
      LateAgain(log[i], log[j]);
    }
  }

  lemma {:induction false} StaleForever(log: seq<Event>, i: nat, j: nat, k: Sem)
    requires i < j <= |log| && log[i].signal == k && DeclaredStale(log[i])
    requires Lifecycle(log, k) != Broken && Sorted(log)
    requires forall e :: e in log ==> Honest(e)
    ensures Lifecycle(log[..j], k) == In(Expired)
    ensures forall m :: i < m < j && log[m].signal == k ==> log[m].kind == REISSUE && log[m].freshness != Some(FRESH)
    decreases j
  {
    if j == i + 1 {
      LifeAfterEvent(log, i, k);
    } else {
      StaleForever(log, i, j - 1, k);
      StaleNext(log, i, j - 1, k);
    }
  }

  /** Once a signal is declared stale, all it can ever produce again is a LATE reissue: no
      FRESH issuance, no WITHDRAWN, no FILL. */
  lemma StalenessIsPermanent(acts: seq<Action>, i: nat, j: nat)
    requires Play(acts).Ok? && Chronological(acts)
    requires i < j < |Play(acts).value.log|
    requires DeclaredStale(Play(acts).value.log[i])
    requires Play(acts).value.log[i].signal == Play(acts).value.log[j].signal
    ensures Play(acts).value.log[j].kind == REISSUE && Play(acts).value.log[j].freshness == Some(LATE)
  {
    var s := Play(acts).value;
    var k := s.log[i].signal;
    LifeAtEvent(acts, i);
    LogOrderedAndDistinct(acts);
    LogIsHonest(acts);
    StaleForever(s.log, i, |s.log|, k);
    LogIsExactlyTheExpectedEvents(acts, s.log[j]);
  }

  // ------------------------------------------------------------------ prefix invariance

  function UpTo(log: seq<Event>, cut: Time): seq<Event> {
    if log == [] then []
    else
      var front := UpTo(log[..|log| - 1], cut);
      if log[|log| - 1].at <= cut then front + [log[|log| - 1]] else front
  }

  lemma SplitsFront(log: seq<Event>, n: nat, cut: Time)
    requires Splits(log, n, cut) && log != []
    ensures Splits(log[..|log| - 1], if n < |log| then n else n - 1, cut)
    ensures log[|log| - 1].at <= cut <==> n == |log|
  {
  }

  lemma SliceOfFront(log: seq<Event>, n: nat)
    requires log != [] && n <= |log|
    ensures var m := |log| - 1;
            log[..n] == if n <= m then log[..m][..n] else log[..m][..m] + [log[m]]
  {
  }

  lemma {:induction false} UpToSplit(log: seq<Event>, n: nat, cut: Time)
    requires Splits(log, n, cut)
    ensures UpTo(log, cut) == log[..n]
  {
    if |log| > 0 {
      var m := |log| - 1;
      SplitsFront(log, n, cut);
      UpToSplit(log[..m], if n <= m then n else m, cut);
      SliceOfFront(log, n);
    }
  }

  /** The events of the first `n` actions, cut at the instant of the last of them, are what the
      whole timeline's log holds at or before that instant, when that action is a scan. */
  lemma TimelinePrefix(acts: seq<Action>, n: nat)
    requires Play(acts).Ok? && Chronological(acts) && 0 < n <= |acts| && acts[n - 1].OnScan?
    ensures Play(acts[..n]).Ok?
    ensures Play(acts[..n]).value.log == UpTo(Play(acts).value.log, acts[n - 1].At())
  {
    PlayPrefix(acts, n);
    var cut := acts[n - 1].At();
    var part, full := Play(acts[..n]).value.log, Play(acts).value.log;
    assert forall i :: 0 <= i < |part| ==> full[i] == part[i];
    EventsWithin(acts, n);
    UpToSplit(full, |part|, cut);
    assert full[..|part|] == part;
  }

  /** The events of `log` at or before `cut` are its first `n`. */
  ghost predicate Splits(log: seq<Event>, n: nat, cut: Time) {
    n <= |log| && forall i :: 0 <= i < |log| ==> (log[i].at <= cut <==> i < n)
  }

  lemma SplitsSnoc(log: seq<Event>, batch: seq<Event>, n: nat, cut: Time)
    requires Splits(log, n, cut) && forall i :: 0 <= i < |batch| ==> batch[i].at > cut
    ensures Splits(log + batch, n, cut)
  {
  }

  lemma SplitsAll(log: seq<Event>, batch: seq<Event>, now: Time)
    requires Settled(log, now) && forall i :: 0 <= i < |batch| ==> batch[i].at == now
    ensures Splits(log + batch, |log + batch|, now)
  {
  }

  /** Events of the first `n` actions lie at or before the n-th; later ones lie after it. */
  lemma {:induction false} EventsWithin(acts: seq<Action>, n: nat)
    requires Play(acts).Ok? && Chronological(acts) && 0 < n <= |acts| && acts[n - 1].OnScan?
    ensures Play(acts[..n]).Ok?
    ensures Splits(Play(acts).value.log, |Play(acts[..n]).value.log|, acts[n - 1].At())
  {
    var m := |acts| - 1;
    var front := acts[..m];
    assert acts == front + [acts[m]];
    StateIsHistory(front);
    var batch := StepAppends(Play(front).value, acts[m]);
    if n == |acts| {
      assert acts[..n] == acts;
      LogSettled(front, acts[m]);
      SplitsAll(Play(front).value.log, batch, acts[m].At());
    } else {
      ChronologicalPrefix(acts, m);
      EventsWithin(front, n);
      assert front[..n] == acts[..n];
      SplitsSnoc(Play(front).value.log, batch, |Play(front[..n]).value.log|, acts[n - 1].At());
    }
  }

  function FillsUpTo(fills: seq<Fill>, cut: Time): seq<Fill> {
    if fills == [] then []
    else if fills[0].at <= cut then [fills[0]] + FillsUpTo(fills[1..], cut)
    else FillsUpTo(fills[1..], cut)
  }

  lemma {:induction false} FillsUpToOrdered(fills: seq<Fill>, cut: Time)
    requires FillsOrdered(fills)
    ensures FillsUpTo(fills, cut) <= fills && FillsOrdered(FillsUpTo(fills, cut))
    ensures fills != [] && fills[0].at > cut ==> FillsUpTo(fills, cut) == []
  {
    if fills != [] {
      FillsUpToOrdered(fills[1..], cut);
      assert fills == [fills[0]] + fills[1..];
      if fills[0].at > cut && |fills| > 1 {
        assert fills[0].at <= fills[1].at;
      }
    }
  }

  /** The first `n` actions end with scan `c` and are the timeline of `scans` and `fills`. */
  ghost predicate CutsAt(acts: seq<Action>, n: int, c: Scan, scans: seq<Scan>, fills: seq<Fill>) {
    0 < n <= |acts| && acts[n - 1] == OnScan(c) && acts[..n] == Timeline(scans, fills)
  }

  lemma CutAfterFill(acts: seq<Action>, n: int, c: Scan, scans: seq<Scan>, few: seq<Fill>, f: Fill)
    requires CutsAt(acts, n, c, scans, few) && scans != [] && f.at <= scans[0].now
    ensures CutsAt([OnFill(f)] + acts, n + 1, c, scans, [f] + few)
  {
    assert ([f] + few)[1..] == few;
    assert ([OnFill(f)] + acts)[..n + 1] == [OnFill(f)] + acts[..n];
  }

  lemma CutAfterScan(acts: seq<Action>, n: int, c: Scan, scans: seq<Scan>, few: seq<Fill>, first: Scan)
    requires CutsAt(acts, n, c, scans, few) && (few != [] ==> few[0].at > first.now)
    ensures CutsAt([OnScan(first)] + acts, n + 1, c, [first] + scans, few)
  {
    assert ([first] + scans)[1..] == scans;
    assert ([OnScan(first)] + acts)[..n + 1] == [OnScan(first)] + acts[..n];
  }

  lemma CutAtFirstScan(acts: seq<Action>, first: Scan)
    ensures CutsAt([OnScan(first)] + acts, 1, first, [first], [])
  {
    assert ([OnScan(first)] + acts)[..1] == [OnScan(first)];
    assert [first][1..] == [];
    assert Timeline([], []) == [];
    assert Timeline([first], []) == [OnScan(first)] + Timeline([first][1..], []);
  }

  /** Cutting the scans at `k` and the fills at that scan's instant cuts the timeline there. */
  lemma {:induction false} CutTimeline(scans: seq<Scan>, fills: seq<Fill>, k: nat) returns (n: int)
    requires StrictlyOrdered(scans) && FillsOrdered(fills) && 0 < k <= |scans|
    ensures CutsAt(Timeline(scans, fills), n, scans[k - 1], scans[..k], FillsUpTo(fills, scans[k - 1].now))
    decreases |scans| + |fills|
  {
    var cut := scans[k - 1].now;
    FillsUpToOrdered(fills, cut);
    if fills != [] && fills[0].at <= scans[0].now {
      n := CutTimeline(scans, fills[1..], k);
      CutAfterFill(Timeline(scans, fills[1..]), n, scans[k - 1], scans[..k], FillsUpTo(fills[1..], cut), fills[0]);
      n := n + 1;
      assert FillsUpTo(fills, cut) == [fills[0]] + FillsUpTo(fills[1..], cut);
    } else if k == 1 {
      n := 1;
      CutAtFirstScan(Timeline(scans[1..], fills), scans[0]);
      assert scans[..1] == [scans[0]] && FillsUpTo(fills, cut) == [];
    } else {
      n := CutTimeline(scans[1..], fills, k - 1);
      assert scans[..k] == [scans[0]] + scans[1..][..k - 1];
      CutAfterScan(Timeline(scans[1..], fills), n, scans[k - 1], scans[1..][..k - 1], FillsUpTo(fills, cut), scans[0]);
      n := n + 1;
    }
  }

  lemma {:induction false} NormalizePrefix(stream: seq<Scan>, k: nat)
    requires Normalize(stream).Ok? && k <= |stream|
    ensures Normalize(stream[..k]).Ok? && Normalize(stream[..k]).value <= Normalize(stream).value
  {
    if k == |stream| {
      assert stream[..k] == stream;
    } else {
      var m := |stream| - 1;
      NormalizePrefix(stream[..m], k);
      assert stream[..m][..k] == stream[..k];
    }
  }

  /** The first `k` scans normalize to the first `m` kept ones, which end at the same instant. */
  lemma NormalizedPrefix(stream: seq<Scan>, k: nat) returns (m: nat)
    requires Normalize(stream).Ok? && 0 < k <= |stream|
    ensures StrictlyOrdered(Normalize(stream).value) && 0 < m <= |Normalize(stream).value|
    ensures Normalize(stream[..k]) == Ok(Normalize(stream).value[..m])
    ensures Normalize(stream).value[m - 1].now == stream[k - 1].now
  {
    NormalizePrefix(stream, k);
    NormalizeKeeps(stream);
    NormalizeKeeps(stream[..k]);
    var kept := Normalize(stream[..k]).value;
    assert stream[..k][k - 1] == stream[k - 1];
    assert Normalize(stream).value[..|kept|] == kept;
    m := |kept|;
  }

  /** Prefix invariance: replaying the first `k` scans, with the fills up to that instant, is
      accepted and yields exactly the full log's events at or before that instant. */
  lemma PrefixInvariance(stream: seq<Scan>, fills: seq<Fill>, k: nat)
    requires Run(stream, fills).Ok? && 0 < k <= |stream|
    ensures Run(stream[..k], FillsUpTo(fills, stream[k - 1].now)) ==
            Ok(UpTo(Run(stream, fills).value, stream[k - 1].now))
  {
    var cut := stream[k - 1].now;
    var scans := Normalize(stream).value;
    var m := NormalizedPrefix(stream, k);
    FillsUpToOrdered(fills, cut);
    TimelineChronological(scans, fills);
    var n := CutTimeline(scans, fills, m);
    TimelinePrefix(Timeline(scans, fills), n);
  }

  /** The order, distinctness and grammar results, said of a run's log. */
  lemma RunIsPlay(stream: seq<Scan>, fills: seq<Fill>) returns (acts: seq<Action>)
    requires Run(stream, fills).Ok?
    ensures Play(acts).Ok? && Chronological(acts) && Run(stream, fills) == Ok(Play(acts).value.log)
    ensures Normalize(stream).Ok? && acts == Timeline(Normalize(stream).value, fills)
    ensures Sorted(Run(stream, fills).value) && Distinct(Run(stream, fills).value)
  {
    acts := Timeline(Normalize(stream).value, fills);
    NormalizeKeeps(stream);
    TimelineChronological(Normalize(stream).value, fills);
    LogOrderedAndDistinct(acts);
  }
}
