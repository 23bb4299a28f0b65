/** The event log against a specification that mentions no state at all: which signal is
    being followed, which events a scan produces and which runs are accepted are read off the
    timeline of scans and fills alone. */
module SignalEdges {
  import opened Prelude
  import opened SignalModel
  import opened SignalLog

  // ------------------------------------------------------------------ reading a timeline

  ghost predicate FilledIn(acts: seq<Action>, k: Sem) {
    exists i :: 0 <= i < |acts| && acts[i].OnFill? && acts[i].fill.sem == k
  }

  ghost predicate SeenIn(acts: seq<Action>, k: Sem) {
    exists i :: 0 <= i < |acts| && acts[i].OnScan? && KeyOf(acts[i].scan.sem) == Some(k)
  }

  /** The key of the latest scan. */
  function LastKey(acts: seq<Action>): Option<Sem> {
    if acts == [] then None
    else if acts[|acts| - 1].OnScan? then KeyOf(acts[|acts| - 1].scan.sem)
    else LastKey(acts[..|acts| - 1])
  }

  /** Scan `c` begins a run of scans with key `k`: the scan before it had another key, and the
      signal was not filled in the meantime. */
  ghost predicate Begins(acts: seq<Action>, c: Scan, k: Sem) {
    KeyOf(c.sem) == Some(k) && LastKey(acts) != Some(k) && !FilledIn(acts, k)
  }

  /** The scan at `j` begins a run of `k` in time, and every scan after it repeats `k` inside
      its validity window and its UTC day. */
  ghost predicate LiveRun(acts: seq<Action>, j: int, k: Sem) {
    && 0 <= j < |acts|
    && acts[j].OnScan?
    && Begins(acts[..j], acts[j].scan, k)
    && !Stale(k, acts[j].scan.now)
    && (forall m :: j < m < |acts| && acts[m].OnScan? ==>
          acts[m].scan.sem == k && !Lapsed(k, acts[m].scan.now))
  }

  /** The signal an observer of the timeline would be following. */
  ghost predicate Following(acts: seq<Action>, k: Sem) {
    exists j :: LiveRun(acts, j, k)
  }

  /** Exactly the events a scan must produce after a history `acts`. */
  ghost predicate Expected(acts: seq<Action>, c: Scan, e: Event) {
    var k := e.signal;
    || (e == Expiry(k, c.now) && Following(acts, k) && !FilledIn(acts, k) && Lapsed(k, c.now))
    || (e == Withdrawal(k, c.now, c.sem) && Following(acts, k) && !FilledIn(acts, k) && !Lapsed(k, c.now)
        && KeyOf(c.sem) != Some(k))
    || (e == Issue(k, c.now, SeenIn(acts, k)) && Begins(acts, c, k))
  }

  /** A fill must name the followed signal, once. */
  ghost predicate FillLegal(acts: seq<Action>, f: Fill) {
    Following(acts, f.sem) && !FilledIn(acts, f.sem)
  }

  // ------------------------------------------------------------------ invariants of the state

  /** At most one signal is active and it is the followed one; the followed signal is the last
      scan's key; a signal last seen is never left withdrawn. */
  ghost predicate Coherent(s: Sim) {
    && (s.active.Some? ==> s.last == s.active && Get(s.phase, s.active.value) in {Some(Active), Some(Filled)})
    && (forall k :: k in s.phase && s.phase[k] == Active ==> s.active == Some(k))
    && (s.last.Some? ==> s.last.value in s.phase && s.phase[s.last.value] != Withdrawn)
    && (forall k :: k in s.phase ==> KeyOf(k) == Some(k))
  }

  /** Between the closing of a scan and its issuance: as coherent, except that what was followed
      may just have been withdrawn for another key; what is still followed is the scan's key. */
  ghost predicate Closed(s: Sim, key: Option<Sem>) {
    && (s.active.Some? ==> s.active == s.last == key && Get(s.phase, s.active.value) in {Some(Active), Some(Filled)})
    && (forall k :: k in s.phase && s.phase[k] == Active ==> s.active == Some(k))
    && (s.last.Some? ==> s.last.value in s.phase && (s.phase[s.last.value] == Withdrawn ==> s.last != key))
    && (forall k :: k in s.phase ==> KeyOf(k) == Some(k))
  }

  lemma ExpireKeepsCoherent(s: Sim, now: Time)
    requires Coherent(s)
    ensures Coherent(ExpireStep(s, now))
  {
  }

  lemma WithdrawCloses(s: Sim, now: Time, sem: Sem)
    requires Coherent(s)
    ensures Closed(WithdrawStep(s, now, sem), KeyOf(sem))
  {
  }

  lemma IssueKeepsCoherent(s: Sim, now: Time, sem: Sem)
    requires Closed(s, KeyOf(sem))
    ensures Coherent(IssueStep(s, now, sem).(last := KeyOf(sem)))
  {
  }

  lemma ScanKeepsCoherent(s: Sim, c: Scan)
    requires Coherent(s)
    ensures Coherent(ScanStep(s, c))
  {
    ExpireKeepsCoherent(s, c.now);
    WithdrawCloses(ExpireStep(s, c.now), c.now, c.sem);
    IssueKeepsCoherent(WithdrawStep(ExpireStep(s, c.now), c.now, c.sem), c.now, c.sem);
  }

  lemma FillKeepsCoherent(s: Sim, f: Fill)
    requires Coherent(s) && FillStep(s, f).Ok?
    ensures Coherent(FillStep(s, f).value)
  {
  }

  /** The state after a timeline, said in terms of the timeline. */
  ghost predicate Tracks(s: Sim, acts: seq<Action>) {
    && s.last == LastKey(acts)
    && (forall k :: k in s.phase <==> SeenIn(acts, k))
    && (forall k :: Get(s.phase, k) == Some(Filled) <==> FilledIn(acts, k))
    && (forall k :: s.active == Some(k) <==> Following(acts, k))
  }

  lemma SnocVocabulary(acts: seq<Action>, a: Action, k: Sem)
    ensures FilledIn(acts + [a], k) <==> FilledIn(acts, k) || (a.OnFill? && a.fill.sem == k)
    ensures SeenIn(acts + [a], k) <==> SeenIn(acts, k) || (a.OnScan? && KeyOf(a.scan.sem) == Some(k))
    ensures LastKey(acts + [a]) == if a.OnScan? then KeyOf(a.scan.sem) else LastKey(acts)
  {
    var more := acts + [a];
    assert more[..|more| - 1] == acts;
    assert forall i :: 0 <= i < |acts| ==> more[i] == acts[i];
    assert more[|acts|] == a;
    if FilledIn(acts, k) {
      var i :| 0 <= i < |acts| && acts[i].OnFill? && acts[i].fill.sem == k;
      assert more[i].OnFill? && more[i].fill.sem == k;
    }
    if SeenIn(acts, k) {
      var i :| 0 <= i < |acts| && acts[i].OnScan? && KeyOf(acts[i].scan.sem) == Some(k);
      assert more[i].OnScan? && KeyOf(more[i].scan.sem) == Some(k);
    }
  }

  lemma SnocLiveRun(acts: seq<Action>, a: Action, j: int, k: Sem)
    ensures 0 <= j < |acts| ==>
              (LiveRun(acts + [a], j, k) <==>
               LiveRun(acts, j, k) && (a.OnScan? ==> a.scan.sem == k && !Lapsed(k, a.scan.now)))
    ensures LiveRun(acts + [a], |acts|, k) <==> a.OnScan? && Begins(acts, a.scan, k) && !Stale(k, a.scan.now)
  {
    var more := acts + [a];
    assert forall i :: 0 <= i < |acts| ==> more[i] == acts[i];
    assert more[|acts|] == a && more[..|acts|] == acts;
    if 0 <= j < |acts| {
      assert more[..j] == acts[..j];
      if LiveRun(more, j, k) {
        forall m | j < m < |acts| && acts[m].OnScan?
          ensures acts[m].scan.sem == k && !Lapsed(k, acts[m].scan.now)
        {
          assert more[m].OnScan?;
        }
      }
    }
  }

  lemma SnocFollowing(acts: seq<Action>, a: Action, k: Sem)
    ensures Following(acts + [a], k) <==>
            || (Following(acts, k) && (a.OnScan? ==> a.scan.sem == k && !Lapsed(k, a.scan.now)))
            || (a.OnScan? && Begins(acts, a.scan, k) && !Stale(k, a.scan.now))
  {
    SnocLiveRun(acts, a, 0, k);
    if Following(acts + [a], k) {
      var j :| LiveRun(acts + [a], j, k);
      SnocLiveRun(acts, a, j, k);
    }
    if Following(acts, k) {
      var j :| LiveRun(acts, j, k);
      SnocLiveRun(acts, a, j, k);
    }
  }

  /** A followed signal is the last scan's key, so at most one signal is followed. */
  lemma FollowedIsLastKey(acts: seq<Action>, k: Sem)
    requires Following(acts, k)
    ensures KeyOf(k) == Some(k) && LastKey(acts) == Some(k)
  {
    var j :| LiveRun(acts, j, k);
    LiveRunLastKey(acts, j, k);
  }

  lemma {:induction false} LiveRunLastKey(acts: seq<Action>, j: int, k: Sem)
    requires LiveRun(acts, j, k)
    ensures KeyOf(k) == Some(k) && LastKey(acts) == Some(k)
  {
    var n := |acts| - 1;
    if !acts[n].OnScan? {
      assert acts == acts[..n] + [acts[n]];
      SnocLiveRun(acts[..n], acts[n], j, k);
      LiveRunLastKey(acts[..n], j, k);
    }
  }

  // ------------------------------------------------------------------ one step

  /** The state after the closing stages of a scan. */
  function CloseStep(s: Sim, c: Scan): Sim { WithdrawStep(ExpireStep(s, c.now), c.now, c.sem) }

  /** The followed signal, still unfilled. */
  ghost predicate Held(s: Sim, k: Sem) {
    s.active == Some(k) && Get(s.phase, k) != Some(Filled)
  }

  /** The key of a scan that is to be issued. */
  ghost predicate Opening(s: Sim, c: Scan, k: Sem) {
    KeyOf(c.sem) == Some(k) && s.last != Some(k) && Get(s.phase, k) != Some(Filled)
  }

  /** The event that closes the followed signal at a scan. */
  ghost predicate ClosedBy(s: Sim, c: Scan, e: Event) {
    var k := e.signal;
    || (e == Expiry(k, c.now) && Held(s, k) && Lapsed(k, c.now))
    || (e == Withdrawal(k, c.now, c.sem) && Held(s, k) && !Lapsed(k, c.now) && KeyOf(c.sem) != Some(k))
  }

  /** The event that issues the scan's key. */
  ghost predicate IssuedBy(s: Sim, c: Scan, e: Event) {
    e == Issue(e.signal, c.now, e.signal in s.phase) && Opening(s, c, e.signal)
  }

  /** What the closing stages append. */
  lemma CloseAppends(s: Sim, c: Scan) returns (closing: seq<Event>)
    requires Coherent(s)
    ensures CloseStep(s, c).log == s.log + closing && |closing| <= 1
    ensures forall e :: e in closing <==> ClosedBy(s, c, e)
  {
    closing :=
      if s.active.None? || Get(s.phase, s.active.value) == Some(Filled) then []
      else if Lapsed(s.active.value, c.now) then [Expiry(s.active.value, c.now)]
      else if KeyOf(c.sem) != s.active then [Withdrawal(s.active.value, c.now, c.sem)]
      else [];
  }

  lemma CloseEffect(s: Sim, c: Scan, k: Sem)
    requires Coherent(s)
    ensures Closed(CloseStep(s, c), KeyOf(c.sem)) && CloseStep(s, c).last == s.last
    ensures k in CloseStep(s, c).phase <==> k in s.phase
    ensures Get(CloseStep(s, c).phase, k) == Some(Filled) <==> Get(s.phase, k) == Some(Filled)
    ensures CloseStep(s, c).active == Some(k) <==> s.active == Some(k) && c.sem == k && !Lapsed(k, c.now)
  {
    ExpireKeepsCoherent(s, c.now);
    WithdrawCloses(ExpireStep(s, c.now), c.now, c.sem);
  }

  /** With the same key as the last scan nothing is issued: it is followed, filled or expired. */
  lemma IssueEffect(s: Sim, c: Scan)
    requires Closed(s, KeyOf(c.sem))
    ensures IssueStep(s, c.now, c.sem).log ==
            s.log + if Opening(s, c, c.sem) then [Issue(c.sem, c.now, c.sem in s.phase)] else []
    ensures IssueStep(s, c.now, c.sem).phase ==
            if Opening(s, c, c.sem) then s.phase[c.sem := if Stale(c.sem, c.now) then Expired else Active] else s.phase
    ensures IssueStep(s, c.now, c.sem).active ==
            if Opening(s, c, c.sem) && !Stale(c.sem, c.now) then Some(c.sem) else s.active
  {
  }

  /** What the issuance appends. */
  lemma IssueAppends(s: Sim, c: Scan) returns (opening: seq<Event>)
    requires Coherent(s)
    ensures ScanStep(s, c).log == CloseStep(s, c).log + opening && |opening| <= 1
    ensures forall e :: e in opening <==> IssuedBy(s, c, e)
  {
    CloseEffect(s, c, c.sem);
    IssueEffect(CloseStep(s, c), c);
    opening := if Opening(s, c, c.sem) then [Issue(c.sem, c.now, c.sem in s.phase)] else [];
  }

  /** A closing event and an issuance of the same scan are of different signals. */
  lemma ClosedThenIssued(s: Sim, c: Scan, closing: Event, opening: Event)
    requires Coherent(s) && ClosedBy(s, c, closing) && IssuedBy(s, c, opening)
    ensures !Issuance(closing) && Issuance(opening) && closing.signal != opening.signal
  {
  }

  /** The events one scan appends, as a member test on the state before it. */
  lemma ScanAppends(s: Sim, c: Scan) returns (batch: seq<Event>)
    requires Coherent(s)
    ensures ScanStep(s, c).log == s.log + batch
    ensures |batch| <= 2
    ensures |batch| == 2 ==> !Issuance(batch[0]) && Issuance(batch[1]) && batch[0].signal != batch[1].signal
    ensures forall e :: e in batch <==> ClosedBy(s, c, e) || IssuedBy(s, c, e)
  {
    var closing := CloseAppends(s, c);
    var opening := IssueAppends(s, c);
    batch := closing + opening;
    Regroup(s.log, closing, opening);
    if |batch| == 2 {
      ClosedThenIssued(s, c, closing[0], opening[0]);
    }
  }

  lemma Regroup(log: seq<Event>, closing: seq<Event>, opening: seq<Event>)
    requires |closing| <= 1 && |opening| <= 1
    ensures (log + closing) + opening == log + (closing + opening)
    ensures forall e :: e in closing + opening <==> e in closing || e in opening
    ensures |closing + opening| == 2 ==>
              && closing != [] && opening != [] && closing[0] in closing && opening[0] in opening
              && closing + opening == [closing[0], opening[0]]
  {
  }

  /** What one scan does to the phase table and the followed signal. */
  lemma ScanEffect(s: Sim, c: Scan, k: Sem)
    requires Coherent(s)
    ensures k in ScanStep(s, c).phase <==> k in s.phase || KeyOf(c.sem) == Some(k)
    ensures Get(ScanStep(s, c).phase, k) == Some(Filled) <==> Get(s.phase, k) == Some(Filled)
    ensures ScanStep(s, c).active == Some(k) <==>
            || (s.active == Some(k) && c.sem == k && !Lapsed(k, c.now))
            || (Opening(s, c, k) && !Stale(k, c.now))
  {
    CloseEffect(s, c, k);
    CloseEffect(s, c, c.sem);
    IssueEffect(CloseStep(s, c), c);
  }

  lemma ScanKeepsTracks(s: Sim, acts: seq<Action>, c: Scan)
    requires Coherent(s) && Tracks(s, acts)
    ensures Tracks(ScanStep(s, c), acts + [OnScan(c)])
  {
    var t := ScanStep(s, c);
    var more := acts + [OnScan(c)];
    forall k
      ensures k in t.phase <==> SeenIn(more, k)
      ensures Get(t.phase, k) == Some(Filled) <==> FilledIn(more, k)
      ensures t.active == Some(k) <==> Following(more, k)
    {
      ScanEffect(s, c, k);
      SnocVocabulary(acts, OnScan(c), k);
      SnocFollowing(acts, OnScan(c), k);
    }
    SnocVocabulary(acts, OnScan(c), c.sem);
  }

  lemma FillKeepsTracks(s: Sim, acts: seq<Action>, f: Fill)
    requires Coherent(s) && Tracks(s, acts)
    ensures FillStep(s, f).Ok? <==> FillLegal(acts, f)
    ensures FillStep(s, f).Ok? ==> Tracks(FillStep(s, f).value, acts + [OnFill(f)])
  {
    if FillStep(s, f).Ok? {
      var t := FillStep(s, f).value;
      var more := acts + [OnFill(f)];
      forall k
        ensures k in t.phase <==> SeenIn(more, k)
        ensures Get(t.phase, k) == Some(Filled) <==> FilledIn(more, k)
        ensures t.active == Some(k) <==> Following(more, k)
      {
        SnocVocabulary(acts, OnFill(f), k);
        SnocFollowing(acts, OnFill(f), k);
      }
      SnocVocabulary(acts, OnFill(f), f.sem);
    }
  }

  // ------------------------------------------------------------------ whole runs

  /** Refinement of the state: after every accepted timeline the followed signal, the last key,
      the known signals and the filled signals are those read off the timeline. */
  lemma {:induction false} StateIsHistory(acts: seq<Action>)
    requires Play(acts).Ok?
    ensures Coherent(Play(acts).value) && Tracks(Play(acts).value, acts)
  {
    if acts != [] {
      var n := |acts| - 1;
      var front, a := acts[..n], acts[n];
      assert acts == front + [a];
      StateIsHistory(front);
      var s := Play(front).value;
      match a
      case OnScan(c) =>
        ScanKeepsCoherent(s, c);
        ScanKeepsTracks(s, front, c);
      case OnFill(f) =>
        FillKeepsCoherent(s, f);
        FillKeepsTracks(s, front, f);
    }
  }

  ghost predicate FillsLegal(acts: seq<Action>) {
    forall p :: 0 <= p < |acts| && acts[p].OnFill? ==> FillLegal(acts[..p], acts[p].fill)
  }

  lemma FillsLegalSnoc(front: seq<Action>, a: Action)
    ensures FillsLegal(front + [a]) <==> FillsLegal(front) && (a.OnFill? ==> FillLegal(front, a.fill))
  {
    var acts := front + [a];
    assert acts[..|front|] == front && acts[|front|] == a;
    assert forall p :: 0 <= p < |front| ==> acts[..p] == front[..p] && acts[p] == front[p];
    if FillsLegal(acts) {
      forall p | 0 <= p < |front| && front[p].OnFill?
        ensures FillLegal(front[..p], front[p].fill)
      {
        assert acts[p].OnFill?;
      }
    }
  }

  /** A timeline is accepted exactly when every fill in it is legal. */
  lemma {:induction false} AcceptedExactly(acts: seq<Action>)
    ensures Play(acts).Ok? <==> FillsLegal(acts)
  {
    if acts != [] {
      var n := |acts| - 1;
      var front, a := acts[..n], acts[n];
      assert acts == front + [a];
      AcceptedExactly(front);
      FillsLegalSnoc(front, a);
      if Play(front).Ok? {
        StateIsHistory(front);
        if a.OnFill? {
          FillKeepsTracks(Play(front).value, front, a.fill);
        }
      }
    }
  }

  /** A state that tracks a timeline produces the events expected of the timeline. */
  lemma ExpectedByState(s: Sim, acts: seq<Action>, c: Scan, e: Event)
    requires Tracks(s, acts)
    ensures ClosedBy(s, c, e) || IssuedBy(s, c, e) <==> Expected(acts, c, e)
  {
    var k := e.signal;
    assert Get(s.phase, k) == Some(Filled) <==> FilledIn(acts, k);
    assert s.active == Some(k) <==> Following(acts, k);
    assert k in s.phase <==> SeenIn(acts, k);
  }

  /** The edge specification: the scan that extends an accepted history appends exactly the
      expected events, at most one closing event followed by at most one issuance. */
  lemma EdgeSpecification(acts: seq<Action>, c: Scan) returns (batch: seq<Event>)
    requires Play(acts).Ok?
    ensures Play(acts + [OnScan(c)]).Ok?
    ensures Play(acts + [OnScan(c)]).value.log == Play(acts).value.log + batch
    ensures |batch| <= 2
    ensures |batch| == 2 ==> !Issuance(batch[0]) && Issuance(batch[1]) && batch[0].signal != batch[1].signal
    ensures forall e :: e in batch <==> Expected(acts, c, e)
  {
    assert (acts + [OnScan(c)])[..|acts|] == acts;
    StateIsHistory(acts);
    var s := Play(acts).value;
    batch := ScanAppends(s, c);
    forall e
      ensures ClosedBy(s, c, e) || IssuedBy(s, c, e) <==> Expected(acts, c, e)
    {
      ExpectedByState(s, acts, c, e);
    }
  }

  /** Soundness and completeness of the whole log: it holds exactly the expected events of its
      scans and one event per fill. */
  ghost predicate Accounted(acts: seq<Action>, p: int, e: Event) {
    && 0 <= p < |acts|
    && match acts[p]
       case OnScan(c) => Expected(acts[..p], c, e)
       case OnFill(f) => e == FillEvent(f)
  }

  lemma AccountedSnoc(front: seq<Action>, a: Action, p: int, e: Event)
    requires 0 <= p < |front|
    ensures Accounted(front + [a], p, e) <==> Accounted(front, p, e)
  {
    assert (front + [a])[..p] == front[..p] && (front + [a])[p] == front[p];
  }

  lemma {:induction false} LogIsExactlyTheExpectedEvents(acts: seq<Action>, e: Event)
    requires Play(acts).Ok?
    ensures e in Play(acts).value.log <==> exists p :: Accounted(acts, p, e)
  {
    if acts != [] {
      var n := |acts| - 1;
      var front, a := acts[..n], acts[n];
      assert acts == front + [a];
      LogIsExactlyTheExpectedEvents(front, e);
      var before, after := Play(front).value.log, Play(acts).value.log;
      var batch: seq<Event>;
      match a {
        case OnScan(c) => batch := EdgeSpecification(front, c);
        case OnFill(f) => batch := [FillEvent(f)];
      }
      assert after == before + batch;
      assert e in batch <==> Accounted(acts, n, e);
      if e in before {
        var p :| Accounted(front, p, e);
        AccountedSnoc(front, a, p, e);
      }
      if p :| Accounted(acts, p, e) && p != n {
        AccountedSnoc(front, a, p, e);
      }
    }
  }

  /** When a run of the replay is accepted at all. */
  lemma RunAcceptedExactly(stream: seq<Scan>, fills: seq<Fill>)
    ensures Run(stream, fills).Ok? <==>
            && FillsOrdered(fills)
            && Consistent(stream)
            && (Normalize(stream).Ok? ==> FillsLegal(Timeline(Normalize(stream).value, fills)))
  {
    NormalizeExact(stream);
    if Normalize(stream).Ok? {
      AcceptedExactly(Timeline(Normalize(stream).value, fills));
    }
  }
}
