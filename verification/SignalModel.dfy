/** The entities of the append-only signal event log: scans, fills, signals and events.
    Times are whole UTC seconds. A signal is identified by its full semantic record, which
    stands both for the JSON key and for the (truncated) hash derived from it. */
module SignalModel {
  import opened Prelude

  type Time = int

  // One M5 bar plus fifteen minutes.
  const SIGNAL_TTL: int := 1200
  const DAY_SECONDS: int := 86400

  const ENTRY_VALID := "ENTRY_VALID"

  /** What one scan concluded. `detail` stands for every remaining semantic field. */
  datatype Sem = Sem(result: string, retest: Time, direction: string, detail: string)

  datatype Scan = Scan(now: Time, sem: Sem)
  datatype Fill = Fill(at: Time, sem: Sem)

  datatype Kind = EMIT | WITHDRAWN | EXPIRE | REISSUE | FILL
  datatype Freshness = FRESH | LATE
  datatype Phase = Active | Withdrawn | Expired | Filled

  datatype Event = Event(kind: Kind, at: Time, signal: Sem, reason: string, retest: Time, direction: string,
                         freshness: Option<Freshness>)

  datatype EventId = EventId(kind: Kind, at: Time, signal: Sem, reason: string)

  /** An event as the ledger stores it, with its sequence number and identifier. */
  datatype Entry = Entry(index: nat, id: EventId, event: Event)

  function IdOf(e: Event): EventId {
    EventId(e.kind, e.at, e.signal, e.reason)
  }

  function Numbered(log: seq<Event>): (r: seq<Entry>)
    ensures |r| == |log|
    ensures forall i :: 0 <= i < |log| ==> r[i] == Entry(i, IdOf(log[i]), log[i])
  {
    seq(|log|, i requires 0 <= i < |log| => Entry(i, IdOf(log[i]), log[i]))
  }

  function KeyOf(sem: Sem): Option<Sem> {
    if sem.result == ENTRY_VALID then Some(sem) else None
  }

  function Day(t: Time): int { t / DAY_SECONDS }

  predicate Stale(k: Sem, now: Time) { now > k.retest + SIGNAL_TTL }

  predicate Lapsed(k: Sem, now: Time) { Stale(k, now) || Day(now) != Day(k.retest) }

  predicate Issuance(e: Event) { e.kind == EMIT || e.kind == REISSUE }

  /** The phase a signal is in right after one of its events. */
  function PhaseAfterEvent(e: Event): Phase {
    match e.kind
    case EMIT => if e.freshness == Some(FRESH) then Active else Expired
    case REISSUE => if e.freshness == Some(FRESH) then Active else Expired
    case FILL => Filled
    case WITHDRAWN => Withdrawn
    case EXPIRE => Expired
  }
}
