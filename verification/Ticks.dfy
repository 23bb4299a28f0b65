/** The per-tick loop of the gap adjudication: counters and three online per-minute bars. Stamps
    are whole microseconds, minutes are whole seconds. On time-ordered rows (which the
    non-monotonic counter certifies) each online bar is the batch bar of its minute. */
module Ticks {
  import opened Prelude
  import opened Candles

  /** A row of the export. A blank side is absent, not invalid. */
  datatype Row = Unparsed | Tick(ts: int, bid: Option<Price>, ask: Option<Price>)

  datatype Side = Bid | Ask | Mid

  datatype Tally = Tally(rows: nat, parseFailures: nat, duplicates: nat, nonMonotonic: nat, invalid: nat,
                         crossed: nat, bidOnly: nat, askOnly: nat, bothSides: nat)

  predicate Quoted(p: Option<Price>) { p.Some? && p.value > 0.0 }

  // ------------------------------------------------------------------ rounding

  /** How prices are rounded before they are stored. */
  type Rounding = Price -> Price

  ghost predicate Monotone(round: Rounding) {
    forall p, q :: p <= q ==> round(p) <= round(q)
  }

  /** The nearest whole number, an even one when two are equally near. */
  function RoundHalfEven(x: real): int {
    var f := x.Floor;
    var d := x - f as real;
    if d < 0.5 || (d == 0.5 && f % 2 == 0) then f else f + 1
  }

  /** A price rounded to five decimals. */
  function Round5(p: Price): Price { RoundHalfEven(p * 100000.0) as real / 100000.0 }

  /** No five-decimal price is nearer, and of two nearest the even one is taken. */
  lemma Round5IsNearest(p: Price, k: int)
    ensures Round5(p) - p <= 0.000005 && p - Round5(p) <= 0.000005
    ensures Round5(p) <= p ==> p - Round5(p) <= (if k as real / 100000.0 <= p then p - k as real / 100000.0 else k as real / 100000.0 - p)
    ensures Round5(p) > p ==> Round5(p) - p <= (if k as real / 100000.0 <= p then p - k as real / 100000.0 else k as real / 100000.0 - p)
    ensures p * 100000.0 == k as real + 0.5 ==> RoundHalfEven(p * 100000.0) % 2 == 0
  {
    var x := p * 100000.0;
    var f := x.Floor;
    assert f as real <= x < f as real + 1.0;
    assert k <= f ==> k as real <= f as real;
    assert k > f ==> k as real >= f as real + 1.0;
    assert x == k as real + 0.5 ==> f == k;
  }

  lemma Round5IsMonotone(p: Price, q: Price)
    requires p <= q
    ensures Round5(p) <= Round5(q)
  {
    var x, y := p * 100000.0, q * 100000.0;
    assert x.Floor <= y.Floor;
    assert RoundHalfEven(x) <= RoundHalfEven(y);
  }

  // ------------------------------------------------------------------ quotes

  /** What a row quotes on a side, before rounding. */
  function QuoteOf(row: Row, side: Side): Option<Price> {
    if row.Unparsed? then None
    else
      match side
      case Bid => if Quoted(row.bid) then row.bid else None
      case Ask => if Quoted(row.ask) then row.ask else None
      case Mid => if Quoted(row.bid) && Quoted(row.ask) then Some((row.bid.value + row.ask.value) / 2.0) else None
  }

  function PriceOf(round: Rounding, row: Row, side: Side): Option<Price> {
    match QuoteOf(row, side)
    case Some(p) => Some(round(p))
    case None => None
  }

  function Flat(ts: int, p: Price): Candle {
    Candle(ts, Ohlc(p, p, p, p))
  }

  /** The quotes of one side as one-price candles, in file order. */
  function Quotes(round: Rounding, rows: seq<Row>, side: Side): seq<Candle> {
    if rows == [] then []
    else
      var row := rows[|rows| - 1];
      var front := Quotes(round, rows[..|rows| - 1], side);
      if PriceOf(round, row, side).Some? then front + [Flat(row.ts, PriceOf(round, row, side).value)] else front
  }

  function Stamps(rows: seq<Row>): seq<int> {
    if rows == [] then []
    else
      var front := Stamps(rows[..|rows| - 1]);
      if rows[|rows| - 1].Tick? then front + [rows[|rows| - 1].ts] else front
  }

  ghost predicate NonDecreasing(s: seq<int>) {
    forall i, j :: 0 <= i < j < |s| ==> s[i] <= s[j]
  }

  ghost predicate Increasing(s: seq<int>) {
    forall i, j :: 0 <= i < j < |s| ==> s[i] < s[j]
  }

  lemma SnocOrder(s: seq<int>, x: int)
    ensures NonDecreasing(s + [x]) <==> NonDecreasing(s) && (s != [] ==> s[|s| - 1] <= x)
    ensures Increasing(s + [x]) <==> Increasing(s) && (s != [] ==> s[|s| - 1] < x)
  {
    var t := s + [x];
    assert forall i :: 0 <= i < |s| ==> t[i] == s[i];
    assert t[|s|] == x;
    if NonDecreasing(t) && s != [] {
      assert t[|s| - 1] <= t[|s|];
    }
  }

  /** How often a stamp falls behind its predecessor, and how often it repeats it. */
  function Descents(s: seq<int>): nat {
    if |s| < 2 then 0 else Descents(s[..|s| - 1]) + if s[|s| - 1] < s[|s| - 2] then 1 else 0
  }

  function Repeats(s: seq<int>): nat {
    if |s| < 2 then 0 else Repeats(s[..|s| - 1]) + if s[|s| - 1] == s[|s| - 2] then 1 else 0
  }

  /** The order counters are zero exactly on ordered stamps. */
  lemma {:induction false} CountersCertifyOrder(s: seq<int>)
    ensures Descents(s) == 0 <==> NonDecreasing(s)
    ensures Descents(s) == 0 && Repeats(s) == 0 <==> Increasing(s)
  {
    if |s| >= 2 {
      var n := |s| - 1;
      CountersCertifyOrder(s[..n]);
      SnocOrder(s[..n], s[n]);
      assert s == s[..n] + [s[n]];
    }
  }

  // ------------------------------------------------------------------ one quote

  function Updated(bars: map<int, Ohlc>, minute: int, p: Price): map<int, Ohlc> {
    bars[minute := if minute in bars then WithPrice(bars[minute], p) else Ohlc(p, p, p, p)]
  }

  lemma SnocIn(cs: seq<Candle>, c: Candle, b: Bucketing, t: int, i: int)
    ensures In(cs + [c], b, t, i) <==> In(cs, b, t, i) || (i == |cs| && b(c.time) == t)
  {
  }

  /** The opening candle stays, unless an earlier one arrives. */
  lemma OpenStays(cs: seq<Candle>, c: Candle, b: Bucketing, t: int, i: int)
    requires Opens(cs, b, t, i) && (b(c.time) == t ==> cs[i].time <= c.time)
    ensures Opens(cs + [c], b, t, i)
  {
    forall j | In(cs + [c], b, t, j)
      ensures Precedes(cs + [c], i, j)
    {
      SnocIn(cs, c, b, t, j);
    }
  }

  lemma CloseStays(cs: seq<Candle>, c: Candle, b: Bucketing, t: int, i: int)
    requires Closes(cs, b, t, i) && b(c.time) != t
    ensures Closes(cs + [c], b, t, i)
  {
    forall j | In(cs + [c], b, t, j)
      ensures Precedes(cs + [c], j, i)
    {
      SnocIn(cs, c, b, t, j);
    }
  }

  lemma PeakStays(cs: seq<Candle>, c: Candle, b: Bucketing, t: int, i: int)
    requires Peaks(cs, b, t, i) && (b(c.time) == t ==> c.bar.high <= cs[i].bar.high)
    ensures Peaks(cs + [c], b, t, i)
  {
    forall j | In(cs + [c], b, t, j)
      ensures (cs + [c])[j].bar.high <= (cs + [c])[i].bar.high
    {
      SnocIn(cs, c, b, t, j);
    }
  }

  lemma TroughStays(cs: seq<Candle>, c: Candle, b: Bucketing, t: int, i: int)
    requires Troughs(cs, b, t, i) && (b(c.time) == t ==> cs[i].bar.low <= c.bar.low)
    ensures Troughs(cs + [c], b, t, i)
  {
    forall j | In(cs + [c], b, t, j)
      ensures (cs + [c])[i].bar.low <= (cs + [c])[j].bar.low
    {
      SnocIn(cs, c, b, t, j);
    }
  }

  /** A candle no earlier than the others closes its bucket. */
  lemma LastCloses(cs: seq<Candle>, c: Candle, b: Bucketing)
    requires forall i :: 0 <= i < |cs| ==> cs[i].time <= c.time
    ensures Closes(cs + [c], b, b(c.time), |cs|)
  {
  }

  lemma NewPeak(cs: seq<Candle>, c: Candle, b: Bucketing, t: int, i: int)
    requires Peaks(cs, b, t, i) && b(c.time) == t && c.bar.high >= cs[i].bar.high
    ensures Peaks(cs + [c], b, t, |cs|)
  {
    forall j | In(cs + [c], b, t, j)
      ensures (cs + [c])[j].bar.high <= c.bar.high
    {
      SnocIn(cs, c, b, t, j);
    }
  }

  lemma NewTrough(cs: seq<Candle>, c: Candle, b: Bucketing, t: int, i: int)
    requires Troughs(cs, b, t, i) && b(c.time) == t && c.bar.low <= cs[i].bar.low
    ensures Troughs(cs + [c], b, t, |cs|)
  {
    forall j | In(cs + [c], b, t, j)
      ensures c.bar.low <= (cs + [c])[j].bar.low
    {
      SnocIn(cs, c, b, t, j);
    }
  }

  /** A bucket that the new candle does not touch keeps its bar. */
  lemma OtherBar(cs: seq<Candle>, c: Candle, b: Bucketing, t: int, v: Ohlc)
    requires IsBar(cs, b, t, v) && b(c.time) != t
    ensures IsBar(cs + [c], b, t, v)
  {
    var i :| Opens(cs, b, t, i) && cs[i].bar.open == v.open;
    OpenStays(cs, c, b, t, i);
    var j :| Peaks(cs, b, t, j) && cs[j].bar.high == v.high;
    PeakStays(cs, c, b, t, j);
    var k :| Troughs(cs, b, t, k) && cs[k].bar.low == v.low;
    TroughStays(cs, c, b, t, k);
    var l :| Closes(cs, b, t, l) && cs[l].bar.close == v.close;
    CloseStays(cs, c, b, t, l);
  }

  /** The first quote of a bucket. */
  lemma NewBar(cs: seq<Candle>, c: Candle, b: Bucketing)
    requires forall i :: !In(cs, b, b(c.time), i)
    ensures IsBar(cs + [c], b, b(c.time), c.bar)
  {
    var more, n, t := cs + [c], |cs|, b(c.time);
    forall i
      ensures In(more, b, t, i) <==> i == n
    {
      SnocIn(cs, c, b, t, i);
    }
    assert Opens(more, b, t, n) && Peaks(more, b, t, n) && Troughs(more, b, t, n) && Closes(more, b, t, n);
  }

  function WithPrice(v: Ohlc, p: Price): Ohlc {
    Ohlc(v.open, if p > v.high then p else v.high, if p < v.low then p else v.low, p)
  }

  lemma SameHigh(cs: seq<Candle>, c: Candle, b: Bucketing, t: int, high: Price) returns (i: int)
    requires b(c.time) == t && exists j :: Peaks(cs, b, t, j) && cs[j].bar.high == high
    ensures Peaks(cs + [c], b, t, i) && (cs + [c])[i].bar.high == if c.bar.high > high then c.bar.high else high
  {
    i :| Peaks(cs, b, t, i) && cs[i].bar.high == high;
    if c.bar.high > high {
      NewPeak(cs, c, b, t, i);
      i := |cs|;
    } else {
      PeakStays(cs, c, b, t, i);
    }
  }

  lemma SameLow(cs: seq<Candle>, c: Candle, b: Bucketing, t: int, low: Price) returns (i: int)
    requires b(c.time) == t && exists j :: Troughs(cs, b, t, j) && cs[j].bar.low == low
    ensures Troughs(cs + [c], b, t, i) && (cs + [c])[i].bar.low == if c.bar.low < low then c.bar.low else low
  {
    i :| Troughs(cs, b, t, i) && cs[i].bar.low == low;
    if c.bar.low < low {
      NewTrough(cs, c, b, t, i);
      i := |cs|;
    } else {
      TroughStays(cs, c, b, t, i);
    }
  }

  /** A later quote of the same bucket. */
  lemma SameBar(cs: seq<Candle>, ts: int, p: Price, b: Bucketing, v: Ohlc)
    requires IsBar(cs, b, b(ts), v) && forall i :: 0 <= i < |cs| ==> cs[i].time <= ts
    ensures IsBar(cs + [Flat(ts, p)], b, b(ts), WithPrice(v, p))
  {
    var c, t := Flat(ts, p), b(ts);
    var i :| Opens(cs, b, t, i) && cs[i].bar.open == v.open;
    OpenStays(cs, c, b, t, i);
    LastCloses(cs, c, b);
    var j := SameHigh(cs, c, b, t, v.high);
    var k := SameLow(cs, c, b, t, v.low);
    assert (cs + [c])[i].bar.open == v.open && (cs + [c])[|cs|].bar.close == p;
  }

  lemma SnocBuckets(cs: seq<Candle>, c: Candle, b: Bucketing, t: int)
    ensures (exists i :: In(cs + [c], b, t, i)) <==> (exists i :: In(cs, b, t, i)) || b(c.time) == t
  {
    if i :| In(cs, b, t, i) {
      SnocIn(cs, c, b, t, i);
    }
    SnocIn(cs, c, b, t, |cs|);
    if i :| In(cs + [c], b, t, i) {
      SnocIn(cs, c, b, t, i);
    }
  }

  /** The online update is the batch aggregation of one more quote, no earlier than the rest. */
  lemma OnlineIsBatch(bars: map<int, Ohlc>, cs: seq<Candle>, ts: int, p: Price, b: Bucketing)
    requires IsAggregate(bars, cs, b)
    requires forall i :: 0 <= i < |cs| ==> cs[i].time <= ts
    ensures IsAggregate(Updated(bars, b(ts), p), cs + [Flat(ts, p)], b)
  {
    var c := Flat(ts, p);
    var next := Updated(bars, b(ts), p);
    forall t
      ensures t in next <==> exists i :: In(cs + [c], b, t, i)
    {
      SnocBuckets(cs, c, b, t);
    }
    forall t | t in next
      ensures IsBar(cs + [c], b, t, next[t])
    {
      if t != b(ts) {
        OtherBar(cs, c, b, t, bars[t]);
      } else if t in bars {
        SameBar(cs, ts, p, b, bars[t]);
      } else {
        NewBar(cs, c, b);
      }
    }
  }

  // ------------------------------------------------------------------ the loop

  /** The UTC minute a stamp falls in. */
  function MinuteOf(us: int): int { 60 * (us / 60000000) }

  /** It is the one-minute bucket of the stamp's second. */
  lemma MinuteIsBucket(us: int)
    ensures MinuteOf(us) == BucketStart(us / 1000000, 1)
  {
    var s := us / 1000000;
    assert s / 60 == us / 60000000;
  }

  const ByMinute: Bucketing := us => MinuteOf(us)

  /** The bars after a list of quotes, in file order. */
  function Online(cs: seq<Candle>): map<int, Ohlc> {
    if cs == [] then map[]
    else Updated(Online(cs[..|cs| - 1]), MinuteOf(cs[|cs| - 1].time), cs[|cs| - 1].bar.close)
  }

  /** Quotes are one-price candles, never later than the last stamp of ordered rows. */
  lemma {:induction false} QuotesBounded(round: Rounding, rows: seq<Row>, side: Side)
    requires NonDecreasing(Stamps(rows))
    ensures Quotes(round, rows, side) != [] ==> Stamps(rows) != []
    ensures forall i :: 0 <= i < |Quotes(round, rows, side)| ==> Quotes(round, rows, side)[i].time <= Stamps(rows)[|Stamps(rows)| - 1]
  {
    if rows != [] {
      var n := |rows| - 1;
      var front := Stamps(rows[..n]);
      if rows[n].Tick? {
        SnocOrder(front, rows[n].ts);
      }
      QuotesBounded(round, rows[..n], side);
    }
  }

  /** On time-ordered rows the online bars are the batch bars. */
  lemma {:induction false} OnlineBarsAreBatchBars(round: Rounding, rows: seq<Row>, side: Side)
    requires NonDecreasing(Stamps(rows))
    ensures IsAggregate(Online(Quotes(round, rows, side)), Quotes(round, rows, side), ByMinute)
  {
    if rows != [] {
      var n := |rows| - 1;
      var row := rows[n];
      if row.Tick? {
        SnocOrder(Stamps(rows[..n]), row.ts);
      }
      OnlineBarsAreBatchBars(round, rows[..n], side);
      if PriceOf(round, row, side).Some? {
        var front, p := Quotes(round, rows[..n], side), PriceOf(round, row, side).value;
        QuotesBounded(round, rows[..n], side);
        OnlineIsBatch(Online(front), front, row.ts, p, ByMinute);
        assert (front + [Flat(row.ts, p)])[..|front|] == front;
      }
    }
  }

  /** One side's bars after one more row. */
  function Next(bars: map<int, Ohlc>, minute: int, price: Option<Price>): map<int, Ohlc> {
    if price.Some? then Updated(bars, minute, price.value) else bars
  }

  lemma OnlineStep(round: Rounding, rows: seq<Row>, n: nat, side: Side)
    requires n < |rows|
    ensures Online(Quotes(round, rows[..n + 1], side)) ==
            if rows[n].Tick? then Next(Online(Quotes(round, rows[..n], side)), MinuteOf(rows[n].ts), PriceOf(round, rows[n], side))
            else Online(Quotes(round, rows[..n], side))
  {
    assert rows[..n + 1][..n] == rows[..n];
    var front := Quotes(round, rows[..n], side);
    if PriceOf(round, rows[n], side).Some? {
      var c := Flat(rows[n].ts, PriceOf(round, rows[n], side).value);
      assert (front + [c])[..|front|] == front;
    }
  }

  ghost predicate OnlineBars(round: Rounding, rows: seq<Row>, bids: map<int, Ohlc>, asks: map<int, Ohlc>, mids: map<int, Ohlc>) {
    bids == Online(Quotes(round, rows, Bid)) && asks == Online(Quotes(round, rows, Ask)) && mids == Online(Quotes(round, rows, Mid))
  }

  ghost predicate BatchBars(round: Rounding, rows: seq<Row>, bids: map<int, Ohlc>, asks: map<int, Ohlc>, mids: map<int, Ohlc>) {
    && IsAggregate(bids, Quotes(round, rows, Bid), ByMinute)
    && IsAggregate(asks, Quotes(round, rows, Ask), ByMinute)
    && IsAggregate(mids, Quotes(round, rows, Mid), ByMinute)
  }

  lemma StampsStep(rows: seq<Row>, n: nat)
    requires n < |rows|
    ensures Stamps(rows[..n + 1]) == if rows[n].Tick? then Stamps(rows[..n]) + [rows[n].ts] else Stamps(rows[..n])
  {
    assert rows[..n + 1][..n] == rows[..n];
  }

  lemma UnquotedStep(round: Rounding, rows: seq<Row>, n: nat, side: Side)
    requires n < |rows| && PriceOf(round, rows[n], side).None?
    ensures Quotes(round, rows[..n + 1], side) == Quotes(round, rows[..n], side)
  {
    assert rows[..n + 1][..n] == rows[..n];
  }

  // ------------------------------------------------------------------ the counters

  predicate Crossed(row: Row) {
    row.Tick? && Quoted(row.bid) && Quoted(row.ask) && row.ask.value < row.bid.value
  }

  function CrossedRows(rows: seq<Row>): nat {
    if rows == [] then 0 else CrossedRows(rows[..|rows| - 1]) + if Crossed(rows[|rows| - 1]) then 1 else 0
  }

  /** Every row is unparsed or counted once, by the sides it quotes. */
  ghost predicate CountsSides(round: Rounding, t: Tally, rows: seq<Row>) {
    && t.rows + t.parseFailures == |rows| && t.rows == |Stamps(rows)|
    && t.bothSides + t.bidOnly + t.askOnly + t.invalid == t.rows
    && t.bothSides == |Quotes(round, rows, Mid)|
    && t.bothSides + t.bidOnly == |Quotes(round, rows, Bid)|
    && t.bothSides + t.askOnly == |Quotes(round, rows, Ask)|
    && t.crossed == CrossedRows(rows)
  }

  ghost predicate CountsOrder(t: Tally, rows: seq<Row>) {
    t.nonMonotonic == Descents(Stamps(rows)) && t.duplicates == Repeats(Stamps(rows))
  }

  /** What the counters say about the rows read so far. */
  ghost predicate Counts(round: Rounding, t: Tally, rows: seq<Row>) {
    CountsSides(round, t, rows) && CountsOrder(t, rows)
  }

  function LastStamp(rows: seq<Row>): Option<int> {
    if Stamps(rows) == [] then None else Some(Stamps(rows)[|Stamps(rows)| - 1])
  }

  method CountSides(round: Rounding, before: Tally, rows: seq<Row>, i: nat) returns (tally: Tally)
    requires i < |rows| && rows[i].Tick? && CountsSides(round, before, rows[..i])
    ensures CountsSides(round, tally, rows[..i + 1])
    ensures tally.nonMonotonic == before.nonMonotonic && tally.duplicates == before.duplicates
  {
    assert rows[..i + 1][..i] == rows[..i];
    var bid, ask := rows[i].bid, rows[i].ask;
    tally := before.(rows := before.rows + 1);
    if Quoted(bid) && Quoted(ask) {
      tally := tally.(bothSides := tally.bothSides + 1);
    } else if Quoted(bid) {
      tally := tally.(bidOnly := tally.bidOnly + 1);
    } else if Quoted(ask) {
      tally := tally.(askOnly := tally.askOnly + 1);
    } else {
      tally := tally.(invalid := tally.invalid + 1);
    }
    if Quoted(bid) && Quoted(ask) && ask.value < bid.value {
      tally := tally.(crossed := tally.crossed + 1);
    }
  }

  method CountOrder(before: Tally, rows: seq<Row>, i: nat, prev: Option<int>) returns (tally: Tally)
    requires i < |rows| && rows[i].Tick? && CountsOrder(before, rows[..i]) && prev == LastStamp(rows[..i])
    ensures CountsOrder(tally, rows[..i + 1])
    ensures tally == before.(nonMonotonic := tally.nonMonotonic, duplicates := tally.duplicates)
  {
    StampsStep(rows, i);
    ghost var front := Stamps(rows[..i]);
    assert (front + [rows[i].ts])[..|front|] == front;
    tally := before;
    if prev.Some? {
      if rows[i].ts == prev.value {
        tally := tally.(duplicates := tally.duplicates + 1);
      } else if rows[i].ts < prev.value {
        tally := tally.(nonMonotonic := tally.nonMonotonic + 1);
      }
    }
  }

  method CountTick(round: Rounding, before: Tally, rows: seq<Row>, i: nat, prev: Option<int>) returns (tally: Tally)
    requires i < |rows| && rows[i].Tick? && Counts(round, before, rows[..i]) && prev == LastStamp(rows[..i])
    ensures Counts(round, tally, rows[..i + 1])
  {
    tally := CountSides(round, before, rows, i);
    tally := CountOrder(tally, rows, i, prev);
  }

  /** Consecutive ticks mostly share a minute, so its instant is cached under its key. */
  method CachedMinute(ts: int, lastKey: Option<int>, lastMinute: int) returns (key: Option<int>, minute: int)
    requires lastKey.Some? ==> lastMinute == 60 * lastKey.value
    ensures key.Some? && minute == 60 * key.value && minute == MinuteOf(ts)
  {
    key, minute := lastKey, lastMinute;
    if lastKey != Some(ts / 60000000) {
      key, minute := Some(ts / 60000000), 60 * (ts / 60000000);
    }
  }

  method UpdateBars(round: Rounding, row: Row, minute: int, bids: map<int, Ohlc>, asks: map<int, Ohlc>, mids: map<int, Ohlc>)
    returns (bids': map<int, Ohlc>, asks': map<int, Ohlc>, mids': map<int, Ohlc>)
    requires row.Tick?
    ensures bids' == Next(bids, minute, PriceOf(round, row, Bid))
    ensures asks' == Next(asks, minute, PriceOf(round, row, Ask))
    ensures mids' == Next(mids, minute, PriceOf(round, row, Mid))
  {
    bids', asks', mids' := bids, asks, mids;
    if Quoted(row.bid) {
      bids' := Updated(bids, minute, round(row.bid.value));
    }
    if Quoted(row.ask) {
      asks' := Updated(asks, minute, round(row.ask.value));
    }
    if Quoted(row.bid) && Quoted(row.ask) {
      mids' := Updated(mids, minute, round((row.bid.value + row.ask.value) / 2.0));
    }
  }

  /** After `n` rows the counters are exact and the bars are those of the quotes so far. */
  ghost predicate Adjudicated(round: Rounding, rows: seq<Row>, n: nat, t: Tally, bids: map<int, Ohlc>, asks: map<int, Ohlc>, mids: map<int, Ohlc>)
    requires n <= |rows|
  {
    Counts(round, t, rows[..n]) && OnlineBars(round, rows[..n], bids, asks, mids)
  }

  lemma AfterUnparsed(round: Rounding, rows: seq<Row>, n: nat, t: Tally, bids: map<int, Ohlc>, asks: map<int, Ohlc>, mids: map<int, Ohlc>)
    requires n < |rows| && rows[n].Unparsed? && Adjudicated(round, rows, n, t, bids, asks, mids)
    ensures Adjudicated(round, rows, n + 1, t.(parseFailures := t.parseFailures + 1), bids, asks, mids)
    ensures LastStamp(rows[..n + 1]) == LastStamp(rows[..n])
  {
    assert rows[..n + 1][..n] == rows[..n];
    StampsStep(rows, n);
    UnquotedStep(round, rows, n, Bid);
    UnquotedStep(round, rows, n, Ask);
    UnquotedStep(round, rows, n, Mid);
  }

  /** A parsed row; one that quotes neither side leaves the bars alone. */
  lemma AfterTick(round: Rounding, rows: seq<Row>, n: nat, t: Tally, t': Tally, bids: map<int, Ohlc>, asks: map<int, Ohlc>, mids: map<int, Ohlc>)
    requires n < |rows| && rows[n].Tick? && Adjudicated(round, rows, n, t, bids, asks, mids) && Counts(round, t', rows[..n + 1])
    ensures var minute := MinuteOf(rows[n].ts);
            Adjudicated(round, rows, n + 1, t', Next(bids, minute, PriceOf(round, rows[n], Bid)),
                        Next(asks, minute, PriceOf(round, rows[n], Ask)),
                        Next(mids, minute, PriceOf(round, rows[n], Mid)))
    ensures LastStamp(rows[..n + 1]) == Some(rows[n].ts)
  {
    StampsStep(rows, n);
    OnlineStep(round, rows, n, Bid);
    OnlineStep(round, rows, n, Ask);
    OnlineStep(round, rows, n, Mid);
  }

  /** The locals of the loop: the counters, the previous stamp, the cached minute and the bars. */
  datatype Locals = Locals(tally: Tally, prev: Option<int>, lastKey: Option<int>, lastMinute: int,
                           bids: map<int, Ohlc>, asks: map<int, Ohlc>, mids: map<int, Ohlc>)

  ghost predicate After(round: Rounding, rows: seq<Row>, n: nat, s: Locals)
    requires n <= |rows|
  {
    && Adjudicated(round, rows, n, s.tally, s.bids, s.asks, s.mids)
    && s.prev == LastStamp(rows[..n])
    && (s.lastKey.Some? ==> s.lastMinute == 60 * s.lastKey.value)
  }

  /** The bars and the cached minute after one parsed row; a row that quotes neither side leaves
      both alone. */
  method TakeBars(round: Rounding, row: Row, s: Locals)
    returns (key: Option<int>, minute: int, bids: map<int, Ohlc>, asks: map<int, Ohlc>, mids: map<int, Ohlc>)
    requires row.Tick? && (s.lastKey.Some? ==> s.lastMinute == 60 * s.lastKey.value)
    ensures key.Some? ==> minute == 60 * key.value
    ensures bids == Next(s.bids, MinuteOf(row.ts), PriceOf(round, row, Bid))
    ensures asks == Next(s.asks, MinuteOf(row.ts), PriceOf(round, row, Ask))
    ensures mids == Next(s.mids, MinuteOf(row.ts), PriceOf(round, row, Mid))
  {
    key, minute, bids, asks, mids := s.lastKey, s.lastMinute, s.bids, s.asks, s.mids;
    if Quoted(row.bid) || Quoted(row.ask) {
      key, minute := CachedMinute(row.ts, key, minute);
      bids, asks, mids := UpdateBars(round, row, minute, bids, asks, mids);
    }
  }

  method TakeTick(round: Rounding, rows: seq<Row>, i: nat, s: Locals) returns (s': Locals)
    requires i < |rows| && rows[i].Tick? && After(round, rows, i, s)
    ensures After(round, rows, i + 1, s')
  {
    var counted := CountTick(round, s.tally, rows, i, s.prev);
    AfterTick(round, rows, i, s.tally, counted, s.bids, s.asks, s.mids);
    var key, minute, bids, asks, mids := TakeBars(round, rows[i], s);
    s' := Locals(counted, Some(rows[i].ts), key, minute, bids, asks, mids);
  }

  method TakeRow(round: Rounding, rows: seq<Row>, i: nat, s: Locals) returns (s': Locals)
    requires i < |rows| && After(round, rows, i, s)
    ensures After(round, rows, i + 1, s')
  {
    if rows[i].Unparsed? {
      AfterUnparsed(round, rows, i, s.tally, s.bids, s.asks, s.mids);
      s' := s.(tally := s.tally.(parseFailures := s.tally.parseFailures + 1));
    } else {
      s' := TakeTick(round, rows, i, s);
    }
  }

  /** What exact counters say about the order, and the bars with it. */
  lemma Certified(round: Rounding, rows: seq<Row>, t: Tally, bids: map<int, Ohlc>, asks: map<int, Ohlc>, mids: map<int, Ohlc>)
    requires CountsOrder(t, rows) && OnlineBars(round, rows, bids, asks, mids)
    ensures t.nonMonotonic == 0 <==> NonDecreasing(Stamps(rows))
    ensures t.nonMonotonic == 0 && t.duplicates == 0 <==> Increasing(Stamps(rows))
    ensures t.nonMonotonic == 0 ==> BatchBars(round, rows, bids, asks, mids)
  {
    CountersCertifyOrder(Stamps(rows));
    if t.nonMonotonic == 0 {
      OnlineBarsAreBatchBars(round, rows, Bid);
      OnlineBarsAreBatchBars(round, rows, Ask);
      OnlineBarsAreBatchBars(round, rows, Mid);
    }
  }

  /** The loop, for any rounding. */
  method ReadRows(round: Rounding, rows: seq<Row>)
    returns (tally: Tally, bids: map<int, Ohlc>, asks: map<int, Ohlc>, mids: map<int, Ohlc>)
    ensures Counts(round, tally, rows) && OnlineBars(round, rows, bids, asks, mids)
  {
    var s := Locals(Tally(0, 0, 0, 0, 0, 0, 0, 0, 0), None, None, 0, map[], map[], map[]);
    for i := 0 to |rows|
      invariant After(round, rows, i, s)
    {
      s := TakeRow(round, rows, i, s);
    }
    assert rows[..|rows|] == rows;
    tally, bids, asks, mids := s.tally, s.bids, s.asks, s.mids;
  }

  /** Every row is either unparsed or counted once by which sides it quotes. The rows are in
      time order exactly when the non-monotonic counter is zero, strictly so when the duplicate
      counter is zero as well; the bars are those of the rounded quotes in file order, and in time
      order these are the batch bars. */
  method AdjudicateTicks(rows: seq<Row>)
    returns (tally: Tally, bids: map<int, Ohlc>, asks: map<int, Ohlc>, mids: map<int, Ohlc>)
    ensures Counts(Round5, tally, rows)
    ensures OnlineBars(Round5, rows, bids, asks, mids)
    ensures tally.nonMonotonic == 0 <==> NonDecreasing(Stamps(rows))
    ensures tally.nonMonotonic == 0 && tally.duplicates == 0 <==> Increasing(Stamps(rows))
    ensures tally.nonMonotonic == 0 ==> BatchBars(Round5, rows, bids, asks, mids)
  {
    tally, bids, asks, mids := ReadRows(Round5, rows);
    Certified(Round5, rows, tally, bids, asks, mids);
  }

  // ------------------------------------------------------------------ rounding commutes with bars

  function RoundBar(round: Rounding, v: Ohlc): Ohlc { Ohlc(round(v.open), round(v.high), round(v.low), round(v.close)) }

  function RoundAll(round: Rounding, cs: seq<Candle>): (r: seq<Candle>)
    ensures |r| == |cs| && forall i :: 0 <= i < |cs| ==> r[i] == Candle(cs[i].time, RoundBar(round, cs[i].bar))
  {
    seq(|cs|, i requires 0 <= i < |cs| => Candle(cs[i].time, RoundBar(round, cs[i].bar)))
  }

  /** The bar of rounded candles is the rounded bar: extremes survive rounding. */
  lemma RoundingCommutes(round: Rounding, cs: seq<Candle>, b: Bucketing, t: int, v: Ohlc)
    requires Monotone(round)
    requires IsBar(cs, b, t, v)
    ensures IsBar(RoundAll(round, cs), b, t, RoundBar(round, v))
  {
    RoundedHigh(round, cs, b, t, v.high);
    RoundedLow(round, cs, b, t, v.low);
    var i :| Opens(cs, b, t, i) && cs[i].bar.open == v.open;
    RoundedOpens(round, cs, b, t, i);
    var j :| Closes(cs, b, t, j) && cs[j].bar.close == v.close;
    RoundedCloses(round, cs, b, t, j);
  }

  lemma RoundedOpens(round: Rounding, cs: seq<Candle>, b: Bucketing, t: int, i: int)
    requires Opens(cs, b, t, i)
    ensures Opens(RoundAll(round, cs), b, t, i)
  {
    forall j | In(RoundAll(round, cs), b, t, j)
      ensures Precedes(RoundAll(round, cs), i, j)
    {
      assert In(cs, b, t, j);
    }
  }

  lemma RoundedCloses(round: Rounding, cs: seq<Candle>, b: Bucketing, t: int, i: int)
    requires Closes(cs, b, t, i)
    ensures Closes(RoundAll(round, cs), b, t, i)
  {
    forall j | In(RoundAll(round, cs), b, t, j)
      ensures Precedes(RoundAll(round, cs), j, i)
    {
      assert In(cs, b, t, j);
    }
  }

  lemma RoundedHigh(round: Rounding, cs: seq<Candle>, b: Bucketing, t: int, high: Price)
    requires Monotone(round)
    requires exists i :: Peaks(cs, b, t, i) && cs[i].bar.high == high
    ensures exists i :: Peaks(RoundAll(round, cs), b, t, i) && RoundAll(round, cs)[i].bar.high == round(high)
  {
    var i :| Peaks(cs, b, t, i) && cs[i].bar.high == high;
    forall j | In(RoundAll(round, cs), b, t, j)
      ensures RoundAll(round, cs)[j].bar.high <= RoundAll(round, cs)[i].bar.high
    {
      assert In(cs, b, t, j);
      assert cs[j].bar.high <= cs[i].bar.high;
    }
    assert Peaks(RoundAll(round, cs), b, t, i);
  }

  lemma RoundedLow(round: Rounding, cs: seq<Candle>, b: Bucketing, t: int, low: Price)
    requires Monotone(round)
    requires exists i :: Troughs(cs, b, t, i) && cs[i].bar.low == low
    ensures exists i :: Troughs(RoundAll(round, cs), b, t, i) && RoundAll(round, cs)[i].bar.low == round(low)
  {
    var i :| Troughs(cs, b, t, i) && cs[i].bar.low == low;
    forall j | In(RoundAll(round, cs), b, t, j)
      ensures RoundAll(round, cs)[i].bar.low <= RoundAll(round, cs)[j].bar.low
    {
      assert In(cs, b, t, j);
      assert cs[i].bar.low <= cs[j].bar.low;
    }
    assert Troughs(RoundAll(round, cs), b, t, i);
  }

  /** The quotes of one side before rounding. */
  function ExactQuotes(rows: seq<Row>, side: Side): seq<Candle> {
    if rows == [] then []
    else
      var row := rows[|rows| - 1];
      var front := ExactQuotes(rows[..|rows| - 1], side);
      if QuoteOf(row, side).Some? then front + [Flat(row.ts, QuoteOf(row, side).value)] else front
  }

  lemma {:induction false} QuotesAreRounded(round: Rounding, rows: seq<Row>, side: Side)
    ensures Quotes(round, rows, side) == RoundAll(round, ExactQuotes(rows, side))
  {
    if rows != [] {
      QuotesAreRounded(round, rows[..|rows| - 1], side);
    }
  }

  /** On time-ordered rows the stored bars are the rounded bars of the exact quotes. */
  lemma RoundedOnline(round: Rounding, rows: seq<Row>, side: Side, exact: map<int, Ohlc>)
    requires Monotone(round) && NonDecreasing(Stamps(rows)) && IsAggregate(exact, ExactQuotes(rows, side), ByMinute)
    ensures Online(Quotes(round, rows, side)) == map t | t in exact :: RoundBar(round, exact[t])
  {
    var rounded := map t | t in exact :: RoundBar(round, exact[t]);
    QuotesAreRounded(round, rows, side);
    RoundedAggregate(round, exact, ExactQuotes(rows, side), ByMinute);
    OnlineBarsAreBatchBars(round, rows, side);
    AggregateUnique(Online(Quotes(round, rows, side)), rounded, Quotes(round, rows, side), ByMinute);
  }

  lemma RoundedAggregate(round: Rounding, exact: map<int, Ohlc>, cs: seq<Candle>, b: Bucketing)
    requires Monotone(round) && IsAggregate(exact, cs, b)
    ensures IsAggregate(map t | t in exact :: RoundBar(round, exact[t]), RoundAll(round, cs), b)
  {
    var rounded := map t | t in exact :: RoundBar(round, exact[t]);
    forall t
      ensures t in rounded <==> exists i :: In(RoundAll(round, cs), b, t, i)
    {
      RoundedBuckets(round, cs, b, t);
    }
    forall t | t in rounded
      ensures IsBar(RoundAll(round, cs), b, t, rounded[t])
    {
      RoundingCommutes(round, cs, b, t, exact[t]);
    }
  }

  lemma RoundedBuckets(round: Rounding, cs: seq<Candle>, b: Bucketing, t: int)
    ensures (exists i :: In(RoundAll(round, cs), b, t, i)) <==> (exists i :: In(cs, b, t, i))
  {
    if i :| In(cs, b, t, i) {
      assert In(RoundAll(round, cs), b, t, i);
    }
    if i :| In(RoundAll(round, cs), b, t, i) {
      assert In(cs, b, t, i);
    }
  }

  /** So with five decimals: storing rounded prices as they come and rounding the exact bars at
      the end are the same. */
  lemma OnlineBarsAreRoundedBars(rows: seq<Row>, side: Side, exact: map<int, Ohlc>)
    requires NonDecreasing(Stamps(rows)) && IsAggregate(exact, ExactQuotes(rows, side), ByMinute)
    ensures Online(Quotes(Round5, rows, side)) == map t | t in exact :: RoundBar(Round5, exact[t])
  {
    assert Monotone(Round5) by {
      forall p, q | p <= q
        ensures Round5(p) <= Round5(q)
      {
        Round5IsMonotone(p, q);
      }
    }
    RoundedOnline(Round5, rows, side, exact);
  }

  // ------------------------------------------------------------------ the counters in plain terms

  /** The middle price is as far from the bid as from the ask. */
  lemma MidIsBetween(row: Row, mid: Price)
    requires QuoteOf(row, Mid) == Some(mid)
    ensures row.Tick? && row.bid.Some? && row.ask.Some? && row.bid.value > 0.0 && row.ask.value > 0.0
    ensures mid - row.bid.value == row.ask.value - mid
  {
  }

  predicate HasBid(row: Row) { row.Tick? && row.bid.Some? && row.bid.value > 0.0 }

  predicate HasAsk(row: Row) { row.Tick? && row.ask.Some? && row.ask.value > 0.0 }

  /** The positions of the rows that satisfy `p`. */
  ghost function Where(rows: seq<Row>, p: Row -> bool): set<int> {
    set i | 0 <= i < |rows| && p(rows[i])
  }

  lemma WhereSnoc(rows: seq<Row>, p: Row -> bool)
    requires rows != []
    ensures var n := |rows| - 1; |Where(rows, p)| == |Where(rows[..n], p)| + if p(rows[n]) then 1 else 0
  {
    var n := |rows| - 1;
    if p(rows[n]) {
      assert Where(rows, p) == Where(rows[..n], p) + {n};
    } else {
      assert Where(rows, p) == Where(rows[..n], p);
    }
  }

  lemma {:induction false} QuotesCounted(round: Rounding, rows: seq<Row>, side: Side, p: Row -> bool)
    requires forall row :: p(row) <==> match side { case Bid => HasBid(row) case Ask => HasAsk(row) case Mid => HasBid(row) && HasAsk(row) }
    ensures |Quotes(round, rows, side)| == |Where(rows, p)|
  {
    if rows == [] {
      assert Where(rows, p) == {};
    } else {
      QuotesCounted(round, rows[..|rows| - 1], side, p);
      WhereSnoc(rows, p);
      assert PriceOf(round, rows[|rows| - 1], side).Some? <==> p(rows[|rows| - 1]);
    }
  }

  lemma {:induction false} CrossedCounted(rows: seq<Row>, p: Row -> bool)
    requires forall row :: p(row) <==> HasBid(row) && HasAsk(row) && row.ask.value < row.bid.value
    ensures CrossedRows(rows) == |Where(rows, p)|
  {
    if rows == [] {
      assert Where(rows, p) == {};
    } else {
      CrossedCounted(rows[..|rows| - 1], p);
      WhereSnoc(rows, p);
    }
  }

  lemma {:induction false} ParsedCounted(rows: seq<Row>, p: Row -> bool)
    requires forall row :: p(row) <==> row.Tick?
    ensures |Stamps(rows)| == |Where(rows, p)|
  {
    if rows == [] {
      assert Where(rows, p) == {};
    } else {
      ParsedCounted(rows[..|rows| - 1], p);
      WhereSnoc(rows, p);
    }
  }

  lemma SplitCount(rows: seq<Row>, p: Row -> bool, q: Row -> bool, r: Row -> bool)
    requires forall row :: p(row) <==> q(row) || r(row)
    requires forall row :: !(q(row) && r(row))
    ensures |Where(rows, p)| == |Where(rows, q)| + |Where(rows, r)|
  {
    assert Where(rows, p) == Where(rows, q) + Where(rows, r);
    assert Where(rows, q) !! Where(rows, r);
  }

  /** Each counter is the number of rows of its kind: a side counts when it is present and
      positive. */
  lemma CountersExactly(round: Rounding, t: Tally, rows: seq<Row>)
    requires Counts(round, t, rows)
    ensures t.rows == |Where(rows, (row: Row) => row.Tick?)|
    ensures t.bothSides == |Where(rows, (row: Row) => HasBid(row) && HasAsk(row))|
    ensures t.bidOnly == |Where(rows, (row: Row) => HasBid(row) && !HasAsk(row))|
    ensures t.askOnly == |Where(rows, (row: Row) => HasAsk(row) && !HasBid(row))|
    ensures t.invalid == |Where(rows, (row: Row) => row.Tick? && !HasBid(row) && !HasAsk(row))|
    ensures t.crossed == |Where(rows, (row: Row) => HasBid(row) && HasAsk(row) && row.ask.value < row.bid.value)|
  {
    var tick, bid, ask, both := (row: Row) => row.Tick?, (row: Row) => HasBid(row), (row: Row) => HasAsk(row), (row: Row) => HasBid(row) && HasAsk(row);
    var bidOnly, askOnly := (row: Row) => HasBid(row) && !HasAsk(row), (row: Row) => HasAsk(row) && !HasBid(row);
    ParsedCounted(rows, tick);
    QuotesCounted(round, rows, Bid, bid);
    QuotesCounted(round, rows, Ask, ask);
    QuotesCounted(round, rows, Mid, both);
    SplitCount(rows, bid, both, bidOnly);
    SplitCount(rows, ask, both, askOnly);
    var quoted, neither := (row: Row) => HasBid(row) || HasAsk(row), (row: Row) => row.Tick? && !HasBid(row) && !HasAsk(row);
    SplitCount(rows, quoted, bid, askOnly);
    SplitCount(rows, tick, quoted, neither);
    CrossedCounted(rows, (row: Row) => HasBid(row) && HasAsk(row) && row.ask.value < row.bid.value);
  }

  ghost predicate FallsBack(s: seq<int>, i: int) { 0 < i < |s| && s[i] < s[i - 1] }

  ghost predicate RepeatsItself(s: seq<int>, i: int) { 0 < i < |s| && s[i] == s[i - 1] }

  ghost function FallingBack(s: seq<int>): set<int> {
    set i | 0 < i < |s| && FallsBack(s, i)
  }

  ghost function Repeating(s: seq<int>): set<int> {
    set i | 0 < i < |s| && RepeatsItself(s, i)
  }

  lemma FallingBackSnoc(s: seq<int>)
    requires |s| >= 2
    ensures var n := |s| - 1; |FallingBack(s)| == |FallingBack(s[..n])| + if s[n] < s[n - 1] then 1 else 0
  {
    var n := |s| - 1;
    var front := s[..n];
    forall i | 0 < i < n
      ensures FallsBack(s, i) <==> FallsBack(front, i)
    {
    }
    if s[n] < s[n - 1] {
      assert FallingBack(s) == FallingBack(front) + {n};
    } else {
      assert FallingBack(s) == FallingBack(front);
    }
  }

  /** The non-monotonic counter is the number of stamps earlier than their predecessor. */
  lemma {:induction false} DescentsExactly(s: seq<int>)
    ensures Descents(s) == |FallingBack(s)|
  {
    if |s| < 2 {
      assert FallingBack(s) == {};
    } else {
      DescentsExactly(s[..|s| - 1]);
      FallingBackSnoc(s);
    }
  }

  lemma RepeatingSnoc(s: seq<int>)
    requires |s| >= 2
    ensures var n := |s| - 1; |Repeating(s)| == |Repeating(s[..n])| + if s[n] == s[n - 1] then 1 else 0
  {
    var n := |s| - 1;
    var front := s[..n];
    forall i | 0 < i < n
      ensures RepeatsItself(s, i) <==> RepeatsItself(front, i)
    {
    }
    if s[n] == s[n - 1] {
      assert Repeating(s) == Repeating(front) + {n};
    } else {
      assert Repeating(s) == Repeating(front);
    }
  }

  /** The duplicate counter is the number of stamps equal to their predecessor. */
  lemma {:induction false} RepeatsExactly(s: seq<int>)
    ensures Repeats(s) == |Repeating(s)|
  {
    if |s| < 2 {
      assert Repeating(s) == {};
    } else {
      RepeatsExactly(s[..|s| - 1]);
      RepeatingSnoc(s);
    }
  }
}
