/** The research ledger: an append-only event list with duplicate suppression, a time-order
    check and its own copy of every signal's phase. */
module SignalLedger {
  import opened Prelude
  import opened SignalModel

  datatype LedgerError = OutOfOrderTime | SequenceGap | ConflictingDuplicate | FillNotActive | WithdrawnAfterFill

  /** The ledger's phase table after a list of entries. EXPIRE leaves a filled signal filled. */
  function Phases(entries: seq<Entry>): map<Sem, Phase> {
    if entries == [] then map[]
    else NextPhases(Phases(entries[..|entries| - 1]), entries[|entries| - 1].event)
  }

  function NextPhases(before: map<Sem, Phase>, e: Event): map<Sem, Phase> {
    if e.kind == EXPIRE && Get(before, e.signal) == Some(Filled) then before
    else before[e.signal := PhaseAfterEvent(e)]
  }

  /** What `e` may follow: FILL needs an active signal and WITHDRAWN an unfilled one. */
  predicate Admissible(before: map<Sem, Phase>, e: Event) {
    && (e.kind == FILL ==> Get(before, e.signal) == Some(Active))
    && (e.kind == WITHDRAWN ==> Get(before, e.signal) != Some(Filled))
  }

  /** The identifier index of a list of entries. */
  function ById(entries: seq<Entry>): map<EventId, Entry> {
    if entries == [] then map[]
    else ById(entries[..|entries| - 1])[entries[|entries| - 1].id := entries[|entries| - 1]]
  }

  function LastTime(entries: seq<Entry>): Option<Time> {
    if entries == [] then None else Some(entries[|entries| - 1].event.at)
  }

  /** Whether `x` may extend `entries`: next number, not earlier than the last event, a new
      identifier, admissible after the events before it. */
  predicate Extends(entries: seq<Entry>, x: Entry) {
    && x.index == |entries|
    && (entries != [] ==> entries[|entries| - 1].event.at <= x.event.at)
    && x.id !in ById(entries)
    && Admissible(Phases(entries), x.event)
  }

  /** The first reason why `x` may not extend `entries`. */
  function LoadError(entries: seq<Entry>, x: Entry): LedgerError {
    if entries != [] && x.event.at < entries[|entries| - 1].event.at then OutOfOrderTime
    else if x.index != |entries| then SequenceGap
    else if x.id in ById(entries) then ConflictingDuplicate
    else if x.event.kind == FILL then FillNotActive
    else WithdrawnAfterFill
  }

  /** The entry lists a ledger can hold. */
  predicate Lawful(entries: seq<Entry>) {
    entries == [] ||
    (Lawful(entries[..|entries| - 1]) && Extends(entries[..|entries| - 1], entries[|entries| - 1]))
  }

  lemma Snoc(entries: seq<Entry>, x: Entry)
    ensures (entries + [x])[..|entries + [x]| - 1] == entries
    ensures Lawful(entries + [x]) <==> Lawful(entries) && Extends(entries, x)
    ensures Phases(entries + [x]) == NextPhases(Phases(entries), x.event)
    ensures ById(entries + [x]) == ById(entries)[x.id := x]
  {
    assert (entries + [x])[..|entries + [x]| - 1] == entries;
  }

  /** The index holds only entries of the list, each under its own identifier. */
  lemma {:induction false} ByIdMeaning(entries: seq<Entry>)
    ensures forall d :: d in ById(entries) ==> ById(entries)[d] in entries && ById(entries)[d].id == d
    ensures forall i :: 0 <= i < |entries| ==> entries[i].id in ById(entries)
  {
    if entries != [] {
      var m := |entries| - 1;
      ByIdMeaning(entries[..m]);
      assert forall i :: 0 <= i < m ==> entries[..m][i] == entries[i];
      assert entries == entries[..m] + [entries[m]];
    }
  }

  lemma {:induction false} LawfulAt(entries: seq<Entry>, n: nat)
    requires n < |entries| && Lawful(entries)
    ensures Extends(entries[..n], entries[n])
  {
    var m := |entries| - 1;
    if n < m {
      LawfulAt(entries[..m], n);
      assert entries[..m][..n] == entries[..n];
    }
  }

  lemma {:induction false} TimesAscend(entries: seq<Entry>, i: nat, j: nat)
    requires i <= j < |entries| && Lawful(entries)
    ensures entries[i].event.at <= entries[j].event.at
    decreases j
  {
    if i < j {
      TimesAscend(entries, i, j - 1);
      LawfulAt(entries, j);
    }
  }

  lemma IdsDiffer(entries: seq<Entry>, i: nat, j: nat)
    requires i < j < |entries| && Lawful(entries)
    ensures entries[i].id != entries[j].id
  {
    LawfulAt(entries, j);
    ByIdMeaning(entries[..j]);
    assert entries[..j][i] == entries[i];
  }

  /** A lawful list is numbered from zero, in time order, with pairwise distinct identifiers. */
  lemma LawfulMeaning(entries: seq<Entry>)
    requires Lawful(entries)
    ensures forall i :: 0 <= i < |entries| ==> entries[i].index == i
    ensures forall i, j :: 0 <= i < j < |entries| ==> entries[i].event.at <= entries[j].event.at
    ensures forall i, j :: 0 <= i < j < |entries| ==> entries[i].id != entries[j].id
  {
    forall i | 0 <= i < |entries|
      ensures entries[i].index == i
    {
      LawfulAt(entries, i);
    }
    forall i, j | 0 <= i < j < |entries|
      ensures entries[i].event.at <= entries[j].event.at && entries[i].id != entries[j].id
    {
      TimesAscend(entries, i, j);
      IdsDiffer(entries, i, j);
    }
  }

  /** An entry found in the index carries a smaller number than the next one. */
  lemma KnownIsOlder(entries: seq<Entry>, d: EventId)
    requires Lawful(entries) && d in ById(entries)
    ensures ById(entries)[d].index < |entries| && ById(entries)[d].id == d
  {
    ByIdMeaning(entries);
    var i :| 0 <= i < |entries| && entries[i] == ById(entries)[d];
    LawfulAt(entries, i);
  }

  class SignalEventLedger {
    var events: seq<Entry>
    var byId: map<EventId, Entry>
    var phases: map<Sem, Phase>
    var lastTime: Option<Time>

    /** Every field is determined by the event list, which is lawful. */
    ghost predicate Valid()
      reads this
    {
      && Lawful(events)
      && phases == Phases(events)
      && byId == ById(events)
      && lastTime == LastTime(events)
    }

    constructor ()
      ensures Valid() && events == []
    {
      events, byId, phases, lastTime := [], map[], map[], None;
    }

    /** Loading one stored entry succeeds exactly when it may extend the list. */
    method Load(x: Entry) returns (r: Result<(), LedgerError>)
      requires Valid()
      modifies this
      ensures r.Ok? <==> Extends(old(events), x)
      ensures r.Err? ==> r.error == LoadError(old(events), x)
      ensures r.Ok? ==> Valid() && events == old(events) + [x]
    {
      if lastTime.Some? && x.event.at < lastTime.value {
        return Err(OutOfOrderTime);
      }
      if x.index != |events| {
        return Err(SequenceGap);
      }
      if x.id in byId {
        KnownIsOlder(events, x.id);
        // A prior entry always carries a smaller number, so it can never equal this one.
        if byId[x.id] != x {
          return Err(ConflictingDuplicate);
        }
        assert false;
      }
      Snoc(events, x);
      var signal := x.event.signal;
      events := events + [x];
      byId := byId[x.id := x];
      match x.event.kind {
        case EMIT =>
          phases := phases[signal := if x.event.freshness == Some(FRESH) then Active else Expired];
        case REISSUE =>
          phases := phases[signal := if x.event.freshness == Some(FRESH) then Active else Expired];
        case FILL =>
          if Get(phases, signal) != Some(Active) {
            return Err(FillNotActive);
          }
          phases := phases[signal := Filled];
        case WITHDRAWN =>
          if Get(phases, signal) == Some(Filled) {
            return Err(WithdrawnAfterFill);
          }
          phases := phases[signal := Withdrawn];
        case EXPIRE =>
          if Get(phases, signal) != Some(Filled) {
            phases := phases[signal := Expired];
          }
      }
      lastTime := Some(x.event.at);
      r := Ok(());
    }

    /** Appending is idempotent on an identifier already present, refuses a conflicting or
        back-dated event, drops a withdrawal of a filled signal, and otherwise extends the
        list by exactly one entry. A refusal changes nothing. */
    method Append(e: Event) returns (r: Result<Option<Entry>, LedgerError>)
      requires Valid()
      modifies this
      ensures Valid()
      ensures var was := old(events);
              if IdOf(e) in ById(was) then
                && events == was
                && r == if ById(was)[IdOf(e)].event == e then Ok(Some(ById(was)[IdOf(e)])) else Err(ConflictingDuplicate)
              else if was != [] && e.at < was[|was| - 1].event.at then
                r == Err(OutOfOrderTime) && events == was
              else if e.kind == FILL && Get(Phases(was), e.signal) != Some(Active) then
                r == Err(FillNotActive) && events == was
              else if e.kind == WITHDRAWN && Get(Phases(was), e.signal) == Some(Filled) then
                r == Ok(None) && events == was
              else
                && r == Ok(Some(Entry(|was|, IdOf(e), e)))
                && events == was + [Entry(|was|, IdOf(e), e)]
    {
      var candidate := Entry(|events|, IdOf(e), e);
      if candidate.id in byId {
        var prior := byId[candidate.id];
        if prior.event != e {
          return Err(ConflictingDuplicate);
        }
        return Ok(Some(prior));
      }
      if lastTime.Some? && e.at < lastTime.value {
        return Err(OutOfOrderTime);
      }
      var current := Get(phases, e.signal);
      if e.kind == FILL && current != Some(Active) {
        return Err(FillNotActive);
      }
      if e.kind == WITHDRAWN && current == Some(Filled) {
        return Ok(None);
      }
      var loaded := Load(candidate);
      r := Ok(Some(candidate));
    }

    method Snapshot() returns (r: seq<Entry>)
      requires Valid()
      ensures r == events && Lawful(r)
    {
      r := events;
    }
  }

  /** Entry `i` is the first that may not be loaded. */
  ghost predicate FailsAt(entries: seq<Entry>, i: int) {
    0 <= i < |entries| && Lawful(entries[..i]) && !Extends(entries[..i], entries[i])
  }

  lemma Refused(entries: seq<Entry>, i: nat)
    requires i < |entries| && Lawful(entries[..i]) && !Extends(entries[..i], entries[i])
    ensures !Lawful(entries) && FailsAt(entries, i)
  {
    if Lawful(entries) {
      LawfulAt(entries, i);
    }
  }

  /** Restart: a stored list is accepted exactly when it is lawful, and then the rebuilt
      ledger holds the same entries in the same order. */
  method Replay(entries: seq<Entry>) returns (r: Result<SignalEventLedger, LedgerError>)
    ensures r.Ok? <==> Lawful(entries)
    ensures r.Err? ==> exists i :: FailsAt(entries, i) && r.error == LoadError(entries[..i], entries[i])
    ensures r.Ok? ==> fresh(r.value) && r.value.Valid() && r.value.events == entries
  {
    var ledger := new SignalEventLedger();
    for i := 0 to |entries|
      invariant fresh(ledger) && ledger.Valid() && ledger.events == entries[..i]
    {
      assert entries[..i + 1] == entries[..i] + [entries[i]];
      var loaded := ledger.Load(entries[i]);
      if loaded.Err? {
        Refused(entries, i);
        return Err(loaded.error);
      }
    }
    assert entries[..|entries|] == entries;
    r := Ok(ledger);
  }
}
