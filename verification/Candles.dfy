/** OHLC bucketing of a finer series into a coarser one. A bar is specified by what it says
    about the candles of its bucket; the specification determines it completely, also when
    several candles share an instant (the earlier-listed one counts as earlier). */
module Candles {
  type Price = real

  datatype Ohlc = Ohlc(open: Price, high: Price, low: Price, close: Price)

  datatype Candle = Candle(time: int, bar: Ohlc)

  /** Which bucket an instant belongs to. */
  type Bucketing = int -> int

  // ------------------------------------------------------------------ buckets

  /** The second is dropped, then the minute of the hour is rounded down to a multiple. */
  function BucketStart(t: int, minutes: int): int
    requires minutes > 0
  {
    var whole := t - t % 60;
    whole - 60 * ((whole / 60) % 60 % minutes)
  }

  function Floor(t: int, width: int): int
    requires width > 0
  {
    t - t % width
  }

  lemma MulOrder(w: int, x: int, y: int)
    requires w > 0 && x <= y
    ensures w * x <= w * y
  {
    assert 0 <= w * (y - x);
  }

  lemma FloorUnique(t: int, width: int, k: int)
    requires width > 0 && width * k <= t < width * (k + 1)
    ensures Floor(t, width) == width * k
  {
    var q := t / width;
    assert t == width * q + t % width;
    if q < k {
      MulOrder(width, q + 1, k);
    } else if q > k {
      MulOrder(width, k + 1, q);
    }
  }

  lemma FloorMultiple(t: int, width: int)
    requires width > 0
    ensures Floor(t, width) == width * (t / width) && Floor(t, width) <= t < Floor(t, width) + width
  {
  }

  lemma Associates(a: int, b: int, k: int)
    ensures (a * b) * k == a * (b * k)
  {
  }

  /** Rounding down to a width and then to a multiple of it is rounding down to the multiple. */
  lemma FloorTwice(t: int, a: int, b: int)
    requires a > 0 && b > 0
    ensures Floor(Floor(t, a), a * b) == Floor(t, a * b)
  {
    var w, q := a * b, t / a;
    assert w > 0;
    var k := t / w;
    FloorMultiple(t, w);
    FloorMultiple(t, a);
    Associates(a, b, k);
    if q < b * k {
      MulOrder(a, q + 1, b * k);
    }
    MulOrder(a, b * k, q);
    FloorUnique(a * q, w, k);
  }

  /** Flooring whole minutes. */
  lemma FloorOfMinutes(m: int, minutes: int)
    requires minutes > 0
    ensures Floor(60 * m, 60 * minutes) == 60 * (m - m % minutes)
  {
    var k := m / minutes;
    FloorMultiple(m, minutes);
    Associates(60, minutes, k);
    Associates(60, minutes, k + 1);
    FloorUnique(60 * m, 60 * minutes, k);
  }

  lemma BucketIsFloor(t: int, minutes: int)
    requires minutes > 0 && 60 % minutes == 0
    ensures BucketStart(t, minutes) == Floor(t, 60 * minutes)
  {
    var m := t / 60;
    assert t - t % 60 == 60 * m;
    MinuteOfHour(m, minutes, 60 / minutes);
    FloorTwice(t, 60, minutes);
    FloorOfMinutes(m, minutes);
  }

  /** The minute of the hour is what gets rounded. */
  lemma BucketFromParts(t: int, minutes: int)
    requires minutes > 0
    ensures BucketStart(t, minutes) == 3600 * (t / 3600) + 60 * (t % 3600 / 60 - t % 3600 / 60 % minutes)
  {
    MinuteParts(t);
  }

  lemma MinuteParts(t: int)
    ensures (t - t % 60) / 60 % 60 == t % 3600 / 60 && t - t % 60 == 3600 * (t / 3600) + 60 * (t % 3600 / 60)
  {
    var h, x := t / 3600, t % 3600;
    var m, s := x / 60, x % 60;
    SixtyParts(t, 60 * h + m, s);
    SixtyParts(t - s, 60 * h + m, 0);
    SixtyParts(60 * h + m, h, m);
  }

  lemma SixtyParts(x: int, q: int, r: int)
    requires x == 60 * q + r && 0 <= r < 60
    ensures x / 60 == q && x % 60 == r
  {
  }

  lemma RoundedDown(m: int, w: int)
    requires 0 <= m && 0 < w
    ensures 0 <= m - m % w <= m && m < m - m % w + w && (m - m % w) % w == 0
  {
    FloorMultiple(m, w);
    MultipleOf(w, m / w);
    MulOrder(w, 0, m / w);
  }

  lemma HourParts(h: int, q: int)
    requires 0 <= q < 60
    ensures (3600 * h + 60 * q) / 3600 == h && (3600 * h + 60 * q) % 3600 / 60 == q && (3600 * h + 60 * q) % 60 == 0
  {
  }

  /** For any width the bucket lies in the instant's hour, starts a multiple of the width into it,
      and is less than the width before the instant. */
  lemma BucketWithinHour(t: int, minutes: int)
    requires minutes > 0
    ensures BucketStart(t, minutes) / 3600 == t / 3600
    ensures BucketStart(t, minutes) % 60 == 0 && (BucketStart(t, minutes) % 3600 / 60) % minutes == 0
    ensures BucketStart(t, minutes) <= t < BucketStart(t, minutes) + 60 * minutes
  {
    var h, m := t / 3600, t % 3600 / 60;
    BucketFromParts(t, minutes);
    RoundedDown(m, minutes);
    HourParts(h, m - m % minutes);
    assert 3600 * h + 60 * m <= t < 3600 * h + 60 * m + 60;
  }

  lemma MultipleOf(w: int, k: int)
    requires w > 0
    ensures (w * k) % w == 0
  {
    FloorUnique(w * k, w, k);
  }

  lemma MinuteOfHour(m: int, minutes: int, c: int)
    requires minutes > 0 && minutes * c == 60
    ensures (m % 60) % minutes == m % minutes
  {
    var h := m / 60;
    assert m == 60 * h + m % 60;
    var q := (m % 60) / minutes;
    var r := (m % 60) % minutes;
    assert m == minutes * (c * h + q) + r by {
      assert minutes * (c * h + q) == minutes * c * h + minutes * q;
    }
    FloorUnique(m, minutes, c * h + q);
  }

  lemma Quotient(n: int, m: int)
    requires 0 < m && 0 < n && n % m == 0
    ensures n == m * (n / m) && n / m > 0
  {
  }

  /** Nested bucketing: for `m | n | 60`. */
  lemma BucketNests(t: int, m: int, n: int)
    requires 0 < m && 0 < n && n % m == 0 && 60 % n == 0 && 60 % m == 0
    ensures BucketStart(BucketStart(t, m), n) == BucketStart(t, n)
  {
    BucketIsFloor(t, m);
    BucketIsFloor(t, n);
    BucketIsFloor(BucketStart(t, m), n);
    Quotient(n, m);
    FloorsNest(t, m, n / m);
  }

  lemma FloorsNest(t: int, m: int, k: int)
    requires m > 0 && k > 0
    ensures Floor(Floor(t, 60 * m), 60 * (m * k)) == Floor(t, 60 * (m * k))
  {
    Associates(60, m, k);
    FloorTwice(t, 60 * m, k);
  }

  /** A bucket holds exactly the instants of its width. */
  lemma BucketSpan(t: int, x: int, minutes: int)
    requires minutes > 0 && 60 % minutes == 0 && BucketStart(t, minutes) == t
    ensures BucketStart(x, minutes) == t <==> t <= x < t + 60 * minutes
  {
    BucketIsFloor(t, minutes);
    BucketIsFloor(x, minutes);
    FloorSpan(t, x, 60 * minutes);
  }

  lemma FloorSpan(t: int, x: int, w: int)
    requires w > 0 && Floor(t, w) == t
    ensures Floor(x, w) == t <==> t <= x < t + w
  {
    FloorMultiple(t, w);
    FloorMultiple(x, w);
    if t <= x < t + w {
      FloorUnique(x, w, t / w);
    }
  }

  lemma MultiplesApart(w: int, a: int, b: int)
    requires w > 0 && w * a < w * b
    ensures w * a + w <= w * b
  {
    if b <= a {
      MulOrder(w, b, a);
    }
    MulOrder(w, a + 1, b);
  }

  /** Everything in an earlier bucket is earlier. */
  lemma BucketsInOrder(s: int, t: int, m: int)
    requires 0 < m && 60 % m == 0 && BucketStart(s, m) < BucketStart(t, m)
    ensures s < t
  {
    BucketIsFloor(s, m);
    BucketIsFloor(t, m);
    FloorMultiple(s, 60 * m);
    FloorMultiple(t, 60 * m);
    MultiplesApart(60 * m, s / (60 * m), t / (60 * m));
  }

  // ------------------------------------------------------------------ bars

  ghost predicate In(cs: seq<Candle>, b: Bucketing, t: int, i: int) {
    0 <= i < |cs| && b(cs[i].time) == t
  }

  /** Candle `i` comes before candle `j`: earlier, or as early and listed first. */
  ghost predicate Precedes(cs: seq<Candle>, i: int, j: int)
    requires 0 <= i < |cs| && 0 <= j < |cs|
  {
    cs[i].time < cs[j].time || (cs[i].time == cs[j].time && i <= j)
  }

  ghost predicate Opens(cs: seq<Candle>, b: Bucketing, t: int, i: int) {
    In(cs, b, t, i) && forall j :: In(cs, b, t, j) ==> Precedes(cs, i, j)
  }

  ghost predicate Closes(cs: seq<Candle>, b: Bucketing, t: int, i: int) {
    In(cs, b, t, i) && forall j :: In(cs, b, t, j) ==> Precedes(cs, j, i)
  }

  ghost predicate Peaks(cs: seq<Candle>, b: Bucketing, t: int, i: int) {
    In(cs, b, t, i) && forall j :: In(cs, b, t, j) ==> cs[j].bar.high <= cs[i].bar.high
  }

  ghost predicate Troughs(cs: seq<Candle>, b: Bucketing, t: int, i: int) {
    In(cs, b, t, i) && forall j :: In(cs, b, t, j) ==> cs[i].bar.low <= cs[j].bar.low
  }

  /** `v` is the bar of bucket `t`: the first open, the highest high, the lowest low and the
      last close of its candles. */
  ghost predicate IsBar(cs: seq<Candle>, b: Bucketing, t: int, v: Ohlc) {
    && (exists i :: Opens(cs, b, t, i) && cs[i].bar.open == v.open)
    && (exists i :: Peaks(cs, b, t, i) && cs[i].bar.high == v.high)
    && (exists i :: Troughs(cs, b, t, i) && cs[i].bar.low == v.low)
    && (exists i :: Closes(cs, b, t, i) && cs[i].bar.close == v.close)
  }

  /** `out` holds exactly the non-empty buckets, each with its bar. */
  ghost predicate IsAggregate(out: map<int, Ohlc>, cs: seq<Candle>, b: Bucketing) {
    && (forall t :: t in out <==> exists i :: In(cs, b, t, i))
    && (forall t :: t in out ==> IsBar(cs, b, t, out[t]))
  }

  lemma SameExtremes(cs: seq<Candle>, b: Bucketing, t: int, v: Ohlc, w: Ohlc)
    requires IsBar(cs, b, t, v) && IsBar(cs, b, t, w)
    ensures v.high == w.high && v.low == w.low
  {
    var i :| Peaks(cs, b, t, i) && cs[i].bar.high == v.high;
    var j :| Peaks(cs, b, t, j) && cs[j].bar.high == w.high;
    assert In(cs, b, t, i) && In(cs, b, t, j);
    var k :| Troughs(cs, b, t, k) && cs[k].bar.low == v.low;
    var l :| Troughs(cs, b, t, l) && cs[l].bar.low == w.low;
    assert In(cs, b, t, k) && In(cs, b, t, l);
  }

  lemma BarUnique(cs: seq<Candle>, b: Bucketing, t: int, v: Ohlc, w: Ohlc)
    requires IsBar(cs, b, t, v) && IsBar(cs, b, t, w)
    ensures v == w
  {
    var i :| Opens(cs, b, t, i) && cs[i].bar.open == v.open;
    var j :| Opens(cs, b, t, j) && cs[j].bar.open == w.open;
    assert Precedes(cs, i, j) && Precedes(cs, j, i);
    SameExtremes(cs, b, t, v, w);
    var k :| Closes(cs, b, t, k) && cs[k].bar.close == v.close;
    var l :| Closes(cs, b, t, l) && cs[l].bar.close == w.close;
    assert Precedes(cs, k, l) && Precedes(cs, l, k);
  }

  /** An aggregation is determined by its candles. */
  lemma AggregateUnique(x: map<int, Ohlc>, y: map<int, Ohlc>, cs: seq<Candle>, b: Bucketing)
    requires IsAggregate(x, cs, b) && IsAggregate(y, cs, b)
    ensures x == y
  {
    assert forall t :: t in x <==> t in y;
    forall t | t in x
      ensures x[t] == y[t]
    {
      BarUnique(cs, b, t, x[t], y[t]);
    }
  }

  // ------------------------------------------------------------------ the aggregation method

  /** A bucket's list: candle positions in the order they were appended. */
  ghost predicate Group(cs: seq<Candle>, n: nat, b: Bucketing, t: int, group: seq<nat>)
    requires n <= |cs|
  {
    && (forall x :: 0 <= x < |group| ==> group[x] < n && In(cs, b, t, group[x]))
    && (forall i :: 0 <= i < n && In(cs, b, t, i) ==> i in group)
    && (forall x, y :: 0 <= x < y < |group| ==> group[x] < group[y])
  }

  ghost predicate InTimeOrder(cs: seq<Candle>, s: seq<nat>) {
    && (forall x :: 0 <= x < |s| ==> s[x] < |cs|)
    && (forall x, y :: 0 <= x < y < |s| ==> Precedes(cs, s[x], s[y]))
  }

  /** Inserts position `i`, listed later than all others, after every candle as early as it. */
  function InsertByTime(cs: seq<Candle>, s: seq<nat>, i: nat): (r: seq<nat>)
    requires i < |cs| && forall x :: 0 <= x < |s| ==> s[x] < |cs|
    ensures forall x :: 0 <= x < |r| ==> r[x] < |cs|
    ensures forall k :: k in r <==> k in s || k == i
  {
    if s == [] then [i]
    else if cs[s[|s| - 1]].time <= cs[i].time then s + [i]
    else
      var front := InsertByTime(cs, s[..|s| - 1], i);
      assert forall k :: k in s <==> k in s[..|s| - 1] || k == s[|s| - 1];
      front + [s[|s| - 1]]
  }

  lemma {:induction false} InsertKeepsOrder(cs: seq<Candle>, s: seq<nat>, i: nat)
    requires i < |cs| && InTimeOrder(cs, s) && forall x :: 0 <= x < |s| ==> s[x] < i
    ensures InTimeOrder(cs, InsertByTime(cs, s, i))
  {
    if s != [] && cs[s[|s| - 1]].time > cs[i].time {
      var front := InsertByTime(cs, s[..|s| - 1], i);
      InsertKeepsOrder(cs, s[..|s| - 1], i);
      forall x | 0 <= x < |front|
        ensures Precedes(cs, front[x], s[|s| - 1])
      {
        assert front[x] in front;
      }
      InTimeOrderSnoc(cs, front, s[|s| - 1]);
    }
  }

  lemma InTimeOrderSnoc(cs: seq<Candle>, s: seq<nat>, i: nat)
    requires i < |cs| && InTimeOrder(cs, s) && forall x :: 0 <= x < |s| ==> Precedes(cs, s[x], i)
    ensures InTimeOrder(cs, s + [i])
  {
  }

  /** The stable sort by time. */
  function SortByTime(cs: seq<Candle>, group: seq<nat>): (r: seq<nat>)
    requires forall x :: 0 <= x < |group| ==> group[x] < |cs|
    ensures forall x :: 0 <= x < |r| ==> r[x] < |cs|
    ensures forall k :: k in r <==> k in group
  {
    if group == [] then []
    else
      assert forall k :: k in group <==> k in group[..|group| - 1] || k == group[|group| - 1];
      InsertByTime(cs, SortByTime(cs, group[..|group| - 1]), group[|group| - 1])
  }

  lemma {:induction false} SortIsInTimeOrder(cs: seq<Candle>, group: seq<nat>)
    requires forall x :: 0 <= x < |group| ==> group[x] < |cs|
    requires forall x, y :: 0 <= x < y < |group| ==> group[x] < group[y]
    ensures InTimeOrder(cs, SortByTime(cs, group))
  {
    if group != [] {
      var n := |group| - 1;
      var front := SortByTime(cs, group[..n]);
      SortIsInTimeOrder(cs, group[..n]);
      forall x | 0 <= x < |front|
        ensures front[x] < group[n]
      {
        assert front[x] in front;
      }
      InsertKeepsOrder(cs, front, group[n]);
    }
  }

  /** A list that holds exactly the candles of bucket `t`, in time order. */
  ghost predicate Ordered(cs: seq<Candle>, b: Bucketing, t: int, sorted: seq<nat>) {
    && sorted != [] && InTimeOrder(cs, sorted)
    && (forall x :: 0 <= x < |sorted| ==> In(cs, b, t, sorted[x]))
    && (forall i :: In(cs, b, t, i) ==> exists x :: 0 <= x < |sorted| && sorted[x] == i)
  }

  lemma SortedGroup(cs: seq<Candle>, b: Bucketing, t: int, group: seq<nat>)
    requires group != [] && Group(cs, |cs|, b, t, group)
    ensures Ordered(cs, b, t, SortByTime(cs, group))
  {
    var sorted := SortByTime(cs, group);
    SortIsInTimeOrder(cs, group);
    assert group[0] in sorted;
    forall x | 0 <= x < |sorted|
      ensures In(cs, b, t, sorted[x])
    {
      assert sorted[x] in sorted;
    }
    forall i | In(cs, b, t, i)
      ensures exists x :: 0 <= x < |sorted| && sorted[x] == i
    {
      assert i in group;
      assert i in sorted;
    }
  }

  lemma EndsOfOrdered(cs: seq<Candle>, b: Bucketing, t: int, sorted: seq<nat>)
    requires Ordered(cs, b, t, sorted)
    ensures Opens(cs, b, t, sorted[0]) && Closes(cs, b, t, sorted[|sorted| - 1])
  {
    forall j | In(cs, b, t, j)
      ensures Precedes(cs, sorted[0], j) && Precedes(cs, j, sorted[|sorted| - 1])
    {
      var x :| 0 <= x < |sorted| && sorted[x] == j;
    }
  }

  /** The highest high of the list. */
  method Highest(cs: seq<Candle>, b: Bucketing, t: int, sorted: seq<nat>) returns (high: Price)
    requires Ordered(cs, b, t, sorted)
    ensures exists i :: Peaks(cs, b, t, i) && cs[i].bar.high == high
  {
    ghost var peak := 0;
    high := cs[sorted[0]].bar.high;
    for x := 1 to |sorted|
      invariant 0 <= peak < |sorted| && high == cs[sorted[peak]].bar.high
      invariant forall y :: 0 <= y < x ==> cs[sorted[y]].bar.high <= high
    {
      if cs[sorted[x]].bar.high > high {
        high := cs[sorted[x]].bar.high;
        peak := x;
      }
    }
    forall j | In(cs, b, t, j)
      ensures cs[j].bar.high <= high
    {
      var x :| 0 <= x < |sorted| && sorted[x] == j;
    }
    assert Peaks(cs, b, t, sorted[peak]);
  }

  /** The lowest low of the list. */
  method Lowest(cs: seq<Candle>, b: Bucketing, t: int, sorted: seq<nat>) returns (low: Price)
    requires Ordered(cs, b, t, sorted)
    ensures exists i :: Troughs(cs, b, t, i) && cs[i].bar.low == low
  {
    ghost var trough := 0;
    low := cs[sorted[0]].bar.low;
    for x := 1 to |sorted|
      invariant 0 <= trough < |sorted| && low == cs[sorted[trough]].bar.low
      invariant forall y :: 0 <= y < x ==> low <= cs[sorted[y]].bar.low
    {
      if cs[sorted[x]].bar.low < low {
        low := cs[sorted[x]].bar.low;
        trough := x;
      }
    }
    forall j | In(cs, b, t, j)
      ensures low <= cs[j].bar.low
    {
      var x :| 0 <= x < |sorted| && sorted[x] == j;
    }
    assert Troughs(cs, b, t, sorted[trough]);
  }

  /** The bar of one bucket from its list. */
  method Summarize(cs: seq<Candle>, b: Bucketing, t: int, group: seq<nat>) returns (v: Ohlc)
    requires group != [] && Group(cs, |cs|, b, t, group)
    ensures IsBar(cs, b, t, v)
  {
    var sorted := SortByTime(cs, group);
    SortedGroup(cs, b, t, group);
    EndsOfOrdered(cs, b, t, sorted);
    var high := Highest(cs, b, t, sorted);
    var low := Lowest(cs, b, t, sorted);
    v := Ohlc(cs[sorted[0]].bar.open, high, low, cs[sorted[|sorted| - 1]].bar.close);
  }

  function ListOf(buckets: map<int, seq<nat>>, t: int): seq<nat> {
    if t in buckets then buckets[t] else []
  }

  /** The lists of all buckets after the first `n` candles; a bucket without candles is absent. */
  ghost predicate Grouped(buckets: map<int, seq<nat>>, cs: seq<Candle>, n: nat, b: Bucketing)
    requires n <= |cs|
  {
    && (forall t :: Group(cs, n, b, t, ListOf(buckets, t)))
    && (forall t :: t in buckets ==> buckets[t] != [])
  }

  lemma GroupSkips(cs: seq<Candle>, n: nat, b: Bucketing, t: int, group: seq<nat>)
    requires n < |cs| && Group(cs, n, b, t, group) && b(cs[n].time) != t
    ensures Group(cs, n + 1, b, t, group)
  {
    assert !In(cs, b, t, n);
  }

  lemma GroupTakes(cs: seq<Candle>, n: nat, b: Bucketing, group: seq<nat>)
    requires n < |cs| && Group(cs, n, b, b(cs[n].time), group)
    ensures Group(cs, n + 1, b, b(cs[n].time), group + [n])
  {
    var t, more := b(cs[n].time), group + [n];
    forall i | 0 <= i < n + 1 && In(cs, b, t, i)
      ensures i in more
    {
      assert i < n ==> i in group;
      assert more[|group|] == n;
    }
  }

  lemma GroupedSnoc(buckets: map<int, seq<nat>>, cs: seq<Candle>, n: nat, b: Bucketing, t: int)
    requires n < |cs| && t == b(cs[n].time) && Grouped(buckets, cs, n, b)
    ensures Grouped(buckets[t := ListOf(buckets, t) + [n]], cs, n + 1, b)
  {
    var more := buckets[t := ListOf(buckets, t) + [n]];
    forall u
      ensures Group(cs, n + 1, b, u, ListOf(more, u))
    {
      assert Group(cs, n, b, u, ListOf(buckets, u));
      if u == t {
        GroupTakes(cs, n, b, ListOf(buckets, u));
      } else {
        GroupSkips(cs, n, b, u, ListOf(buckets, u));
      }
    }
  }

  ghost predicate Lists(order: seq<int>, buckets: map<int, seq<nat>>) {
    forall t :: t in buckets <==> t in order
  }

  /** Files candle `i` under its bucket; a new bucket is listed last. */
  method AddCandle(buckets: map<int, seq<nat>>, order: seq<int>, cs: seq<Candle>, i: nat, b: Bucketing)
    returns (buckets': map<int, seq<nat>>, order': seq<int>)
    requires i < |cs| && Grouped(buckets, cs, i, b) && Lists(order, buckets)
    ensures Grouped(buckets', cs, i + 1, b) && Lists(order', buckets')
  {
    var t := b(cs[i].time);
    GroupedSnoc(buckets, cs, i, b, t);
    buckets' := buckets[t := ListOf(buckets, t) + [i]];
    order' := if t in buckets then order else order + [t];
  }

  /** The bars of all buckets of `b`. */
  method AggregateBy(cs: seq<Candle>, b: Bucketing) returns (out: map<int, Ohlc>)
    ensures IsAggregate(out, cs, b)
  {
    // The buckets and, beside them, their keys in insertion order.
    var buckets: map<int, seq<nat>>, order: seq<int> := map[], [];
    for i := 0 to |cs|
      invariant Grouped(buckets, cs, i, b) && Lists(order, buckets)
    {
      buckets, order := AddCandle(buckets, order, cs, i, b);
    }
    out := SummarizeAll(cs, b, buckets, order);
  }

  method SummarizeAll(cs: seq<Candle>, b: Bucketing, buckets: map<int, seq<nat>>, order: seq<int>) returns (out: map<int, Ohlc>)
    requires Grouped(buckets, cs, |cs|, b) && Lists(order, buckets)
    ensures IsAggregate(out, cs, b)
  {
    out := map[];
    for x := 0 to |order|
      invariant forall t :: t in out <==> t in order[..x]
      invariant forall t :: t in out ==> IsBar(cs, b, t, out[t])
    {
      var t := order[x];
      assert t in order;
      GroupOf(cs, b, t, buckets);
      var bar := Summarize(cs, b, t, buckets[t]);
      out := out[t := bar];
      assert order[..x + 1] == order[..x] + [t];
    }
    assert order[..|order|] == order;
    forall t
      ensures t in out <==> exists i :: In(cs, b, t, i)
    {
      GroupOf(cs, b, t, buckets);
    }
  }

  lemma GroupOf(cs: seq<Candle>, b: Bucketing, t: int, buckets: map<int, seq<nat>>)
    requires Grouped(buckets, cs, |cs|, b)
    ensures t in buckets ==> buckets[t] != [] && Group(cs, |cs|, b, t, buckets[t])
    ensures t in buckets <==> exists i :: In(cs, b, t, i)
  {
    assert Group(cs, |cs|, b, t, ListOf(buckets, t));
    forall i | In(cs, b, t, i)
      ensures t in buckets
    {
      assert i in ListOf(buckets, t);
    }
    if t in buckets {
      assert In(cs, b, t, buckets[t][0]);
    }
  }

  /** Minute buckets: flooring to a multiple of `minutes` within the hour. */
  function MinuteBuckets(minutes: int): Bucketing
    requires minutes > 0
  {
    t => BucketStart(t, minutes)
  }

  method Aggregate(cs: seq<Candle>, minutes: int) returns (out: map<int, Ohlc>)
    requires minutes > 0
    ensures IsAggregate(out, cs, MinuteBuckets(minutes))
  {
    out := AggregateBy(cs, MinuteBuckets(minutes));
  }

  // ------------------------------------------------------------------ bucketing composes

  /** `fine` lists the bars of an aggregation as candles at their bucket starts, in any order. */
  ghost predicate IsSeriesOf(fine: seq<Candle>, agg: map<int, Ohlc>) {
    && (forall x :: 0 <= x < |fine| ==> fine[x].time in agg && agg[fine[x].time] == fine[x].bar)
    && (forall t :: t in agg ==> exists x :: 0 <= x < |fine| && fine[x].time == t)
    && (forall x, y :: 0 <= x < y < |fine| ==> fine[x].time != fine[y].time)
  }

  /** Buckets of `f` follow each other in time, and each lies in the bucket of `g` of its start. */
  ghost predicate Refines(f: Bucketing, g: Bucketing) {
    && (forall s, t :: f(s) < f(t) ==> s < t)
    && (forall t {:trigger g(f(t))} :: g(f(t)) == g(t))
  }

  ghost predicate Nested(cs: seq<Candle>, f: Bucketing, g: Bucketing, mid: map<int, Ohlc>, fine: seq<Candle>) {
    Refines(f, g) && IsAggregate(mid, cs, f) && IsSeriesOf(fine, mid)
  }

  /** The fine bar that holds a candle, in the same coarse bucket. */
  lemma Holder(cs: seq<Candle>, f: Bucketing, g: Bucketing, mid: map<int, Ohlc>, fine: seq<Candle>, t: int, j: int) returns (x: int)
    requires Nested(cs, f, g, mid, fine) && In(cs, g, t, j)
    ensures In(fine, g, t, x) && In(cs, f, fine[x].time, j)
  {
    var b := f(cs[j].time);
    assert In(cs, f, b, j);
    assert b in mid;
    x :| 0 <= x < |fine| && fine[x].time == b;
  }

  /** A candle of a fine bar lies in the coarse bucket of that bar. */
  lemma Held(cs: seq<Candle>, f: Bucketing, g: Bucketing, mid: map<int, Ohlc>, fine: seq<Candle>, t: int, x: int, i: int)
    requires Nested(cs, f, g, mid, fine) && In(fine, g, t, x) && In(cs, f, fine[x].time, i)
    ensures In(cs, g, t, i)
  {
  }

  lemma NestedOpen(cs: seq<Candle>, f: Bucketing, g: Bucketing, mid: map<int, Ohlc>, fine: seq<Candle>, t: int, x: int)
    returns (i: int)
    requires Nested(cs, f, g, mid, fine) && Opens(fine, g, t, x)
    ensures Opens(cs, g, t, i) && cs[i].bar.open == fine[x].bar.open
  {
    i :| Opens(cs, f, fine[x].time, i) && cs[i].bar.open == fine[x].bar.open;
    Held(cs, f, g, mid, fine, t, x, i);
    forall j | In(cs, g, t, j)
      ensures Precedes(cs, i, j)
    {
      var y := Holder(cs, f, g, mid, fine, t, j);
      assert Precedes(fine, x, y);
      assert f(cs[i].time) == fine[x].time && f(cs[j].time) == fine[y].time;
    }
  }

  lemma NestedClose(cs: seq<Candle>, f: Bucketing, g: Bucketing, mid: map<int, Ohlc>, fine: seq<Candle>, t: int, x: int)
    returns (i: int)
    requires Nested(cs, f, g, mid, fine) && Closes(fine, g, t, x)
    ensures Closes(cs, g, t, i) && cs[i].bar.close == fine[x].bar.close
  {
    i :| Closes(cs, f, fine[x].time, i) && cs[i].bar.close == fine[x].bar.close;
    Held(cs, f, g, mid, fine, t, x, i);
    forall j | In(cs, g, t, j)
      ensures Precedes(cs, j, i)
    {
      var y := Holder(cs, f, g, mid, fine, t, j);
      assert Precedes(fine, y, x);
      assert f(cs[i].time) == fine[x].time && f(cs[j].time) == fine[y].time;
    }
  }

  lemma HighBound(cs: seq<Candle>, f: Bucketing, g: Bucketing, mid: map<int, Ohlc>, fine: seq<Candle>, t: int, x: int, j: int)
    requires Nested(cs, f, g, mid, fine) && Peaks(fine, g, t, x) && In(cs, g, t, j)
    ensures cs[j].bar.high <= fine[x].bar.high
  {
    var y := Holder(cs, f, g, mid, fine, t, j);
    var p :| Peaks(cs, f, fine[y].time, p) && cs[p].bar.high == fine[y].bar.high;
  }

  lemma NestedPeak(cs: seq<Candle>, f: Bucketing, g: Bucketing, mid: map<int, Ohlc>, fine: seq<Candle>, t: int, x: int)
    returns (i: int)
    requires Nested(cs, f, g, mid, fine) && Peaks(fine, g, t, x)
    ensures Peaks(cs, g, t, i) && cs[i].bar.high == fine[x].bar.high
  {
    i :| Peaks(cs, f, fine[x].time, i) && cs[i].bar.high == fine[x].bar.high;
    Held(cs, f, g, mid, fine, t, x, i);
    forall j | In(cs, g, t, j)
      ensures cs[j].bar.high <= fine[x].bar.high
    {
      HighBound(cs, f, g, mid, fine, t, x, j);
    }
  }

  lemma LowBound(cs: seq<Candle>, f: Bucketing, g: Bucketing, mid: map<int, Ohlc>, fine: seq<Candle>, t: int, x: int, j: int)
    requires Nested(cs, f, g, mid, fine) && Troughs(fine, g, t, x) && In(cs, g, t, j)
    ensures fine[x].bar.low <= cs[j].bar.low
  {
    var y := Holder(cs, f, g, mid, fine, t, j);
    var p :| Troughs(cs, f, fine[y].time, p) && cs[p].bar.low == fine[y].bar.low;
  }

  lemma NestedTrough(cs: seq<Candle>, f: Bucketing, g: Bucketing, mid: map<int, Ohlc>, fine: seq<Candle>, t: int, x: int)
    returns (i: int)
    requires Nested(cs, f, g, mid, fine) && Troughs(fine, g, t, x)
    ensures Troughs(cs, g, t, i) && cs[i].bar.low == fine[x].bar.low
  {
    i :| Troughs(cs, f, fine[x].time, i) && cs[i].bar.low == fine[x].bar.low;
    Held(cs, f, g, mid, fine, t, x, i);
    forall j | In(cs, g, t, j)
      ensures fine[x].bar.low <= cs[j].bar.low
    {
      LowBound(cs, f, g, mid, fine, t, x, j);
    }
  }

  lemma NestedBar(cs: seq<Candle>, f: Bucketing, g: Bucketing, mid: map<int, Ohlc>, fine: seq<Candle>, t: int, v: Ohlc)
    requires Nested(cs, f, g, mid, fine) && IsBar(fine, g, t, v)
    ensures IsBar(cs, g, t, v)
  {
    var a :| Opens(fine, g, t, a) && fine[a].bar.open == v.open;
    var i := NestedOpen(cs, f, g, mid, fine, t, a);
    var b :| Peaks(fine, g, t, b) && fine[b].bar.high == v.high;
    var j := NestedPeak(cs, f, g, mid, fine, t, b);
    var c :| Troughs(fine, g, t, c) && fine[c].bar.low == v.low;
    var k := NestedTrough(cs, f, g, mid, fine, t, c);
    var d :| Closes(fine, g, t, d) && fine[d].bar.close == v.close;
    var l := NestedClose(cs, f, g, mid, fine, t, d);
  }

  lemma SameBuckets(cs: seq<Candle>, f: Bucketing, g: Bucketing, mid: map<int, Ohlc>, fine: seq<Candle>, t: int)
    requires Nested(cs, f, g, mid, fine)
    ensures (exists x :: In(fine, g, t, x)) <==> (exists i :: In(cs, g, t, i))
  {
    if x :| In(fine, g, t, x) {
      var i :| In(cs, f, fine[x].time, i);
      Held(cs, f, g, mid, fine, t, x, i);
    }
    if j :| In(cs, g, t, j) {
      var x := Holder(cs, f, g, mid, fine, t, j);
    }
  }

  /** Aggregating by `f` and then by `g` is aggregating by `g`. */
  lemma RefinedAggregation(cs: seq<Candle>, f: Bucketing, g: Bucketing, mid: map<int, Ohlc>, fine: seq<Candle>,
                           twice: map<int, Ohlc>)
    requires Nested(cs, f, g, mid, fine) && IsAggregate(twice, fine, g)
    ensures IsAggregate(twice, cs, g)
  {
    forall t
      ensures t in twice <==> exists i :: In(cs, g, t, i)
    {
      SameBuckets(cs, f, g, mid, fine, t);
    }
    forall t | t in twice
      ensures IsBar(cs, g, t, twice[t])
    {
      NestedBar(cs, f, g, mid, fine, t, twice[t]);
    }
  }

  lemma MinuteBucketsRefine(m: int, n: int)
    requires 0 < m && 0 < n && n % m == 0 && 60 % n == 0 && 60 % m == 0
    ensures Refines(MinuteBuckets(m), MinuteBuckets(n))
  {
    forall s, t | BucketStart(s, m) < BucketStart(t, m)
      ensures s < t
    {
      BucketsInOrder(s, t, m);
    }
    forall t
      ensures BucketStart(BucketStart(t, m), n) == BucketStart(t, n)
    {
      BucketNests(t, m, n);
    }
  }

  /** For `m | n | 60`, bucketing to `m` minutes and then to `n` is bucketing to `n`. */
  lemma BucketingComposes(cs: seq<Candle>, m: int, n: int, mid: map<int, Ohlc>, fine: seq<Candle>,
                          twice: map<int, Ohlc>, direct: map<int, Ohlc>)
    requires 0 < m && 0 < n && n % m == 0 && 60 % n == 0 && 60 % m == 0
    requires IsAggregate(mid, cs, MinuteBuckets(m)) && IsSeriesOf(fine, mid)
    requires IsAggregate(twice, fine, MinuteBuckets(n)) && IsAggregate(direct, cs, MinuteBuckets(n))
    ensures twice == direct
  {
    MinuteBucketsRefine(m, n);
    RefinedAggregation(cs, MinuteBuckets(m), MinuteBuckets(n), mid, fine, twice);
    AggregateUnique(twice, direct, cs, MinuteBuckets(n));
  }

  // ------------------------------------------------------------------ validity

  predicate ValidBar(v: Ohlc) {
    v.low <= v.open <= v.high && v.low <= v.close <= v.high
  }

  /** Bars of valid candles are valid. */
  lemma AggregationKeepsValidity(cs: seq<Candle>, b: Bucketing, t: int, v: Ohlc)
    requires IsBar(cs, b, t, v)
    requires forall i :: 0 <= i < |cs| ==> ValidBar(cs[i].bar)
    ensures ValidBar(v)
  {
    var i :| Opens(cs, b, t, i) && cs[i].bar.open == v.open;
    var j :| Closes(cs, b, t, j) && cs[j].bar.close == v.close;
    var k :| Peaks(cs, b, t, k) && cs[k].bar.high == v.high;
    var l :| Troughs(cs, b, t, l) && cs[l].bar.low == v.low;
    assert In(cs, b, t, i) && In(cs, b, t, j);
  }
}
