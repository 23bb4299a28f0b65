/** The log in plain terms. The specification of SignalEdges and the replay share the vocabulary of
    SignalModel (keys, validity windows, the events themselves); here every word of it is fixed by
    what it means for a log: literal texts, seconds and days. */
module SignalLaws {
  import opened Prelude
  import opened SignalModel
  import opened SignalLedger
  import opened SignalLog
  import opened SignalEdges
  import opened SignalTheorems

  // ------------------------------------------------------------------ the validity window

  /** Within twenty minutes of the retest, and on its UTC day. */
  ghost predicate Valid(k: Sem, now: Time) {
    now <= k.retest + 1200 && now / 86400 == k.retest / 86400
  }

  /** What a scan leaves followed: the signal followed before, if the scan repeats it while it is
      valid; or the scan's own signal, if it is new to the last scan, unfilled and in time. */
  lemma FollowedAfterScan(acts: seq<Action>, c: Scan, k: Sem)
    requires Play(acts).Ok?
    ensures Play(acts + [OnScan(c)]).Ok?
    ensures Play(acts + [OnScan(c)]).value.active == Some(k) <==>
            || (Play(acts).value.active == Some(k) && c.sem == k && Valid(k, c.now))
            || (&& c.sem == k && k.result == "ENTRY_VALID" && LastKey(acts) != Some(k) && !FilledIn(acts, k)
                && c.now <= k.retest + 1200)
  {
    assert (acts + [OnScan(c)])[..|acts|] == acts;
    StateIsHistory(acts);
    ScanEffect(Play(acts).value, c, k);
  }

  /** A signal followed before and after a scan is valid at it. */
  lemma HeldSignalIsValid(acts: seq<Action>, c: Scan, k: Sem)
    requires Play(acts).Ok? && Play(acts).value.active == Some(k) && Play(acts + [OnScan(c)]).value.active == Some(k)
    ensures c.now <= k.retest + 1200 && c.now / 86400 == k.retest / 86400
  {
    FollowedAfterScan(acts, c, k);
    StateIsHistory(acts);
    FollowedIsLastKey(acts, k);
  }

  // ------------------------------------------------------------------ the fields of an event

  /** A scan of the timeline at `now` that concluded `sem`. */
  ghost predicate Scanned(acts: seq<Action>, now: Time, sem: Sem) {
    OnScan(Scan(now, sem)) in acts
  }

  /** Why a scan's conclusion withdraws another signal. */
  function Reason(sem: Sem): string {
    if sem.result == "ENTRY_VALID" then "SUPERSEDED" else sem.result
  }

  ghost predicate PlainEvent(acts: seq<Action>, e: Event) {
    && e.signal.result == "ENTRY_VALID" && e.retest == e.signal.retest && e.direction == e.signal.direction
    && match e.kind
       case EMIT => e.reason == "ENTRY_VALID" && Scanned(acts, e.at, e.signal)
                    && e.freshness == Some(if e.at <= e.retest + 1200 then FRESH else LATE)
       case REISSUE => e.reason == "ENTRY_VALID" && Scanned(acts, e.at, e.signal)
                       && e.freshness == Some(if e.at <= e.retest + 1200 then FRESH else LATE)
       case EXPIRE => e.freshness == None && !Valid(e.signal, e.at)
                      && e.reason == (if e.at > e.retest + 1200 then "SIGNAL_STALE" else "UTC_DAY_ROTATION")
       case WITHDRAWN => e.freshness == None && Valid(e.signal, e.at)
                         && exists sem :: Scanned(acts, e.at, sem) && sem != e.signal && e.reason == Reason(sem)
       case FILL => e.freshness == None && e.reason == "FILL_RECORDED" && OnFill(Fill(e.at, e.signal)) in acts
  }

  lemma ExpectedIsPlain(acts: seq<Action>, p: int, e: Event)
    requires 0 <= p < |acts| && acts[p].OnScan? && Expected(acts[..p], acts[p].scan, e)
    ensures PlainEvent(acts, e)
  {
    var c := acts[p].scan;
    assert acts[p] == OnScan(Scan(c.now, c.sem));
    assert Scanned(acts, c.now, c.sem);
    if Following(acts[..p], e.signal) {
      FollowedIsLastKey(acts[..p], e.signal);
    }
  }

  /** Every event of every log carries its signal's own retest and direction, and is what its kind
      says: issuances repeat their scan and are FRESH within twenty minutes of the retest; a signal
      expires only outside its window, with the reason that applies; it is withdrawn only inside it,
      by a scan that concluded something else; a fill is one of the given fills. */
  lemma EveryEventIsPlain(acts: seq<Action>, e: Event)
    requires Play(acts).Ok? && e in Play(acts).value.log
    ensures PlainEvent(acts, e)
  {
    LogIsExactlyTheExpectedEvents(acts, e);
    var p :| Accounted(acts, p, e);
    match acts[p]
    case OnScan(c) =>
      ExpectedIsPlain(acts, p, e);
    case OnFill(f) =>
      AcceptedExactly(acts);
      assert FillLegal(acts[..p], f);
      FollowedIsLastKey(acts[..p], f.sem);
      assert acts[p] == OnFill(Fill(f.at, f.sem));
  }

  /** Conversely: the first scan of a valid entry, repeated the next day, is emitted and expired by
      the rotation of the day; a fill after that is refused. */
  lemma SignalAcrossMidnight(k: Sem)
    requires k.result == "ENTRY_VALID" && k.retest == 86100
    ensures Run([Scan(86200, k), Scan(86500, k)], []) ==
            Ok([Event(EMIT, 86200, k, "ENTRY_VALID", 86100, k.direction, Some(FRESH)),
                Event(EXPIRE, 86500, k, "UTC_DAY_ROTATION", 86100, k.direction, None)])
    ensures Run([Scan(86200, k), Scan(86500, k)], [Fill(86600, k)]) == Err(FillWithoutActiveSignal)
  {
    var a, b, f := Scan(86200, k), Scan(86500, k), Fill(86600, k);
    TwoScans(a, b, []);
    TwoScans(a, b, [f]);
    EmittedThenExpired(k);
    PlayTwo(a, b);
    PlaySnoc([OnScan(a), OnScan(b)], OnFill(f));
    assert [OnScan(a), OnScan(b)] + [] == [OnScan(a), OnScan(b)];
  }

  lemma EmittedThenExpired(k: Sem)
    requires k.result == "ENTRY_VALID" && k.retest == 86100
    ensures ScanStep(ScanStep(START, Scan(86200, k)), Scan(86500, k)) ==
            Sim([Event(EMIT, 86200, k, "ENTRY_VALID", 86100, k.direction, Some(FRESH)),
                 Event(EXPIRE, 86500, k, "UTC_DAY_ROTATION", 86100, k.direction, None)], map[k := Expired], None, Some(k))
  {
    var s := ScanStep(START, Scan(86200, k));
    assert s == Sim([Issue(k, 86200, false)], map[k := Active], Some(k), Some(k));
    assert ExpireStep(s, 86500) == Sim([Issue(k, 86200, false), Expiry(k, 86500)], map[k := Expired], None, Some(k));
  }

  lemma {:induction false} TwoScans(a: Scan, b: Scan, fills: seq<Fill>)
    requires a.now < b.now && |fills| <= 1 && (fills != [] ==> b.now < fills[0].at)
    ensures Normalize([a, b]) == Ok([a, b])
    ensures Timeline([a, b], fills) == [OnScan(a), OnScan(b)] + if fills == [] then [] else [OnFill(fills[0])]
  {
    assert [a, b][..1] == [a] && [a][..0] == [];
    assert Normalize([a][..0]) == Ok([]);
    assert Normalize([a]) == Ok([a]) by {
      assert [a][|[a]| - 1] == a && [] + [a] == [a];
    }
    assert [a][|[a]| - 1].now < b.now && [a] + [b] == [a, b];
    assert KeepScan([a], b) == Ok([a] + [b]);
    assert [a, b][..|[a, b]| - 1] == [a] && [a, b][|[a, b]| - 1] == b;
    assert [a, b][1..] == [b] && [b][1..] == [];
    assert fills != [] ==> fills[1..] == [];
    assert Timeline([], fills) == if fills == [] then [] else [OnFill(fills[0])] + Timeline([], fills[1..]);
    assert Timeline([b], fills) == [OnScan(b)] + Timeline([], fills);
  }

  lemma PlaySnoc(acts: seq<Action>, a: Action)
    ensures Play(acts + [a]) == match Play(acts) { case Ok(s) => Step(s, a) case Err(e) => Err(e) }
  {
    assert (acts + [a])[..|acts|] == acts;
  }

  lemma PlayTwo(a: Scan, b: Scan)
    ensures Play([OnScan(a), OnScan(b)]) == Ok(ScanStep(ScanStep(START, a), b))
  {
    PlaySnoc([], OnScan(a));
    assert [] + [OnScan(a)] == [OnScan(a)];
    PlaySnoc([OnScan(a)], OnScan(b));
    assert [OnScan(a)] + [OnScan(b)] == [OnScan(a), OnScan(b)];
  }

  // ------------------------------------------------------------------ the timeline

  function ScansOf(acts: seq<Action>): seq<Scan> {
    if acts == [] then [] else (if acts[0].OnScan? then [acts[0].scan] else []) + ScansOf(acts[1..])
  }

  function FillsOf(acts: seq<Action>): seq<Fill> {
    if acts == [] then [] else (if acts[0].OnFill? then [acts[0].fill] else []) + FillsOf(acts[1..])
  }

  /** The timeline holds every scan and every fill once, each list in its own order. */
  lemma {:induction false} TimelineHoldsAll(scans: seq<Scan>, fills: seq<Fill>)
    ensures ScansOf(Timeline(scans, fills)) == scans && FillsOf(Timeline(scans, fills)) == fills
    decreases |scans| + |fills|
  {
    if fills != [] && (scans == [] || fills[0].at <= scans[0].now) {
      TimelineHoldsAll(scans, fills[1..]);
      assert fills == [fills[0]] + fills[1..];
    } else if scans != [] {
      TimelineHoldsAll(scans[1..], fills);
      assert scans == [scans[0]] + scans[1..];
    }
  }

  /** A fill comes before a scan exactly when it is not later than it. */
  lemma FillsBeforeScans(scans: seq<Scan>, fills: seq<Fill>, i: int, j: int)
    requires StrictlyOrdered(scans) && FillsOrdered(fills) && 0 <= i < |Timeline(scans, fills)| && 0 <= j < |Timeline(scans, fills)|
    requires Timeline(scans, fills)[i].OnFill? && Timeline(scans, fills)[j].OnScan?
    ensures i < j <==> Timeline(scans, fills)[i].fill.at <= Timeline(scans, fills)[j].scan.now
  {
    TimelineChronological(scans, fills);
    var acts := Timeline(scans, fills);
    assert i < j ==> acts[i].At() <= acts[j].At();
    assert j < i ==> acts[j].At() < acts[i].At();
  }

  // ------------------------------------------------------------------ which error

  /** Fills are in order exactly when no fill is earlier than one given before it. */
  lemma FillsOrderedExactly(fills: seq<Fill>)
    ensures FillsOrdered(fills) <==> forall i, j :: 0 <= i < j < |fills| ==> fills[i].at <= fills[j].at
  {
    if FillsOrdered(fills) {
      forall i, j | 0 <= i < j < |fills|
        ensures fills[i].at <= fills[j].at
      {
        FillsOrderedMeaning(fills, i, j);
      }
    }
  }

  /** The stream fails at its first bad scan: out of order when it is earlier than the one before it,
      conflicting when it is as early and concludes something else. */
  lemma StreamErrorExactly(stream: seq<Scan>, c: Scan)
    requires Normalize(stream).Ok?
    ensures Normalize(stream + [c]) == Err(OutOfOrderScan) <==> stream != [] && c.now < stream[|stream| - 1].now
    ensures Normalize(stream + [c]) == Err(ConflictingScan) <==>
            stream != [] && c.now == stream[|stream| - 1].now && c.sem != stream[|stream| - 1].sem
  {
    assert (stream + [c])[..|stream|] == stream;
    NormalizeKeeps(stream);
    if stream == [] {
      assert Normalize(stream).value == [];
    }
  }

  /** Fills out of order are reported before anything else, a bad stream before any fill. */
  lemma ErrorPrecedence(stream: seq<Scan>, fills: seq<Fill>)
    ensures Run(stream, fills) == Err(OutOfOrderFill) <==> exists i :: 0 <= i < |fills| - 1 && fills[i].at > fills[i + 1].at
    ensures FillsOrdered(fills) && Normalize(stream).Err? ==> Run(stream, fills) == Err(Normalize(stream).error)
    ensures Run(stream, fills) == Err(FillWithoutActiveSignal) ==> FillsOrdered(fills) && Normalize(stream).Ok?
  {
    StreamErrors(stream);
    if FillsOrdered(fills) && Normalize(stream).Ok? {
      OnlyFillsFail(Timeline(Normalize(stream).value, fills));
    }
  }

  lemma {:induction false} StreamErrors(stream: seq<Scan>)
    ensures Normalize(stream).Err? ==> Normalize(stream).error in {OutOfOrderScan, ConflictingScan}
  {
    if stream != [] {
      StreamErrors(stream[..|stream| - 1]);
    }
  }

  lemma {:induction false} OnlyFillsFail(acts: seq<Action>)
    ensures Play(acts).Err? ==> Play(acts).error == FillWithoutActiveSignal
  {
    if acts != [] {
      OnlyFillsFail(acts[..|acts| - 1]);
    }
  }

  // ------------------------------------------------------------------ the ledger

  /** Two events share an identifier exactly when they share type, time, signal and reason. */
  lemma IdentifierFields(a: Event, b: Event)
    ensures IdOf(a) == IdOf(b) <==> a.kind == b.kind && a.at == b.at && a.signal == b.signal && a.reason == b.reason
  {
  }

  ghost predicate LastOf(entries: seq<Entry>, k: Sem, i: int) {
    0 <= i < |entries| && entries[i].event.signal == k && forall j :: i < j < |entries| ==> entries[j].event.signal != k
  }

  /** The ledger holds a signal ACTIVE exactly when its last event is a FRESH issuance. */
  lemma {:induction false} LedgerActiveExactly(entries: seq<Entry>, k: Sem)
    ensures Get(Phases(entries), k) == Some(Active) <==>
            exists i :: LastOf(entries, k, i) && entries[i].event.kind in {EMIT, REISSUE} && entries[i].event.freshness == Some(FRESH)
  {
    if entries != [] {
      var n := |entries| - 1;
      LedgerActiveExactly(entries[..n], k);
      if entries[n].event.signal == k {
        assert LastOf(entries, k, n);
      } else {
        LastOfFront(entries, k);
      }
    }
  }

  lemma LastOfFront(entries: seq<Entry>, k: Sem)
    requires entries != [] && entries[|entries| - 1].event.signal != k
    ensures forall i :: LastOf(entries, k, i) <==> LastOf(entries[..|entries| - 1], k, i)
  {
    var front := entries[..|entries| - 1];
    forall i
      ensures LastOf(entries, k, i) <==> LastOf(front, k, i)
    {
      assert forall j :: 0 <= j < |front| ==> front[j] == entries[j];
    }
  }

  /** Filled at `i`, and since then at most expired. */
  ghost predicate FilledSince(entries: seq<Entry>, k: Sem, i: int) {
    && 0 <= i < |entries| && entries[i].event.signal == k && entries[i].event.kind == FILL
    && (forall j :: i < j < |entries| && entries[j].event.signal == k ==> entries[j].event.kind == EXPIRE)
  }

  /** The ledger holds a signal FILLED exactly when only EXPIREs of it followed its FILL. */
  lemma {:induction false} LedgerFilledExactly(entries: seq<Entry>, k: Sem)
    ensures Get(Phases(entries), k) == Some(Filled) <==> exists i :: FilledSince(entries, k, i)
  {
    if entries != [] {
      var n := |entries| - 1;
      var front, e := entries[..n], entries[n].event;
      LedgerFilledExactly(front, k);
      forall i | 0 <= i < n
        ensures FilledSince(entries, k, i) <==> FilledSince(front, k, i) && (e.signal == k ==> e.kind == EXPIRE)
      {
        assert forall j :: 0 <= j < n ==> front[j] == entries[j];
      }
      if e.signal == k && e.kind == FILL {
        assert FilledSince(entries, k, n);
      }
    }
  }
}
