/** The broker's server clock: New York time plus seven hours. New York's offset is any step
    function between EST and EDT that changes only at Sunday 02:00 local. */
module ServerClock {
  const EST: int := -18000
  const EDT: int := -14400
  const HOUR: int := 3600
  const DAY: int := 86400

  /** Monday is 0; the epoch was a Thursday. */
  function Weekday(local: int): int { (local / DAY + 3) % 7 }

  function SecondOfDay(local: int): int { local % DAY }

  /** The offset changes at `u`: the clock that ran until then shows Sunday 02:00. */
  ghost predicate SundayTwo(offset: int -> int, u: int) {
    Weekday(u + offset(u - 1)) == 6 && SecondOfDay(u + offset(u - 1)) == 2 * HOUR
  }

  ghost predicate NewYork(offset: int -> int) {
    && (forall u :: offset(u) == EST || offset(u) == EDT)
    && (forall u :: offset(u) != offset(u - 1) ==> SundayTwo(offset, u))
  }

  function ServerOffset(offset: int -> int, utc: int): int { offset(utc) + 7 * HOUR }

  function ToServer(offset: int -> int, utc: int): int { utc + ServerOffset(offset, utc) }

  function ToUtc(offset: int -> int, server: int): int {
    var guess := server - 3 * HOUR;
    server - ServerOffset(offset, server - ServerOffset(offset, guess))
  }

  /** Friday 17:00 through Sunday 17:00 New York. */
  predicate MarketClosed(offset: int -> int, utc: int) {
    var local := utc + offset(utc);
    var day, minute := Weekday(local), SecondOfDay(local) / 60;
    (day == 4 && minute >= 17 * 60) || day == 5 || (day == 6 && minute < 17 * 60)
  }

  /** `u` lies in the hour after a fall-back. */
  ghost predicate Repeated(offset: int -> int, u: int) {
    offset(u) == EST && offset(u - HOUR) == EDT
  }

  /** Converting to server time and back is the identity except in the repeated hour, where it
      lands exactly one hour early. */
  lemma RoundTrip(offset: int -> int, u: int)
    requires NewYork(offset)
    ensures ToUtc(offset, ToServer(offset, u)) == if Repeated(offset, u) then u - HOUR else u
  {
    assert offset(u) == EST || offset(u) == EDT;
    assert offset(u - HOUR) == EST || offset(u - HOUR) == EDT;
  }

  /** Somewhere in a stretch over which the offset drops there is a fall-back. */
  lemma {:induction false} FallBackWithin(offset: int -> int, lo: int, hi: int) returns (v: int)
    requires NewYork(offset) && lo <= hi && offset(lo) == EDT && offset(hi) == EST
    ensures lo < v <= hi && offset(v - 1) == EDT && offset(v) == EST
    decreases hi - lo
  {
    if offset(hi - 1) == EDT {
      v := hi;
    } else {
      assert offset(hi - 1) == EST;
      v := FallBackWithin(offset, lo, hi - 1);
    }
  }

  ghost predicate FallBack(offset: int -> int, v: int) {
    offset(v - 1) == EDT && offset(v) == EST
  }

  /** Two clock readings of Sunday 02:00 less than a week apart are the same. */
  lemma SameSunday(a: int, b: int)
    requires Weekday(a) == Weekday(b) && SecondOfDay(a) == SecondOfDay(b) && -7 * DAY < a - b < 7 * DAY
    ensures a == b
  {
    var x, y := a / DAY, b / DAY;
    assert a == DAY * x + SecondOfDay(a) && b == DAY * y + SecondOfDay(b);
    assert -7 < x - y < 7;
    assert (x + 3) % 7 == (y + 3) % 7;
    assert x == y;
  }

  lemma {:induction false} DaylightBefore(offset: int -> int, v: int, x: int)
    requires NewYork(offset) && FallBack(offset, v) && v - HOUR <= x < v
    ensures offset(x) == EDT
    decreases v - x
  {
    if x < v - 1 {
      DaylightBefore(offset, v, x + 1);
      if offset(x) != EDT {
        assert offset(x + 1) != offset(x + 1 - 1);
        assert SundayTwo(offset, x + 1) && SundayTwo(offset, v);
        SameSunday(x + 1 + EST, v + EDT);
      }
    }
  }

  lemma {:induction false} StandardAfter(offset: int -> int, v: int, x: int)
    requires NewYork(offset) && FallBack(offset, v) && v <= x < v + HOUR
    ensures offset(x) == EST
    decreases x - v
  {
    if x > v {
      StandardAfter(offset, v, x - 1);
      if offset(x) != EST {
        assert SundayTwo(offset, x) && SundayTwo(offset, v);
        SameSunday(x + EST, v + EDT);
      }
    }
  }

  /** The repeated instants are exactly those in the hour after a fall-back. */
  lemma RepeatedIsTheHourAfterFallBack(offset: int -> int, u: int)
    requires NewYork(offset)
    ensures Repeated(offset, u) <==> exists v :: FallBack(offset, v) && v <= u < v + HOUR
  {
    if Repeated(offset, u) {
      var v := FallBackWithin(offset, u - HOUR, u);
      assert FallBack(offset, v);
    }
    if v :| FallBack(offset, v) && v <= u < v + HOUR {
      DaylightBefore(offset, v, u - HOUR);
      StandardAfter(offset, v, u);
    }
  }

  /** The repeated hour falls early on a Sunday, when the market is closed. */
  lemma RepeatedHourIsClosed(offset: int -> int, u: int)
    requires NewYork(offset) && Repeated(offset, u)
    ensures MarketClosed(offset, u)
  {
    var v := FallBackWithin(offset, u - HOUR, u);
    assert SundayTwo(offset, v);
    var before, local := v + EDT, u + EST;
    // The new clock shows 01:00 at `v`, and `u` is less than an hour later.
    assert before - HOUR <= local < before;
    assert before == DAY * (before / DAY) + 2 * HOUR;
    assert local / DAY == before / DAY;
  }

  /** Hence the round trip is exact at every instant the market is open. */
  lemma RoundTripWhenOpen(offset: int -> int, u: int)
    requires NewYork(offset) && !MarketClosed(offset, u)
    ensures ToUtc(offset, ToServer(offset, u)) == u
  {
    if Repeated(offset, u) {
      RepeatedHourIsClosed(offset, u);
    } else {
      RoundTrip(offset, u);
    }
  }

  /** Every server time that occurs is preserved the other way round, and of two instants with
      the same server time the conversion picks the earlier. */
  lemma ServerTimeRoundTrip(offset: int -> int, u: int)
    requires NewYork(offset)
    ensures ToServer(offset, ToUtc(offset, ToServer(offset, u))) == ToServer(offset, u)
    ensures forall w :: ToServer(offset, w) == ToServer(offset, u) ==> ToUtc(offset, ToServer(offset, u)) <= w
  {
    RoundTrip(offset, u);
    forall w | ToServer(offset, w) == ToServer(offset, u)
      ensures ToUtc(offset, ToServer(offset, u)) <= w
    {
      RoundTrip(offset, w);
      assert offset(w) == EST || offset(w) == EDT;
      assert offset(u) == EST || offset(u) == EDT;
    }
  }

  /** The market is closed for the 48 hours from Friday 17:00 of every week; the first one began
      147600 seconds into 1970, New York time. */
  lemma ClosedExactly(offset: int -> int, utc: int)
    ensures MarketClosed(offset, utc) <==> (utc + offset(utc) - 147600) % 604800 < 172800
  {
    var local := utc + offset(utc);
    var d, s := local / 86400, local % 86400;
    assert local == 86400 * d + s;
    var w, k := (d + 3) / 7, (d + 3) % 7;
    assert d == 7 * w + k - 3;
    assert local - 147600 == 604800 * (w - 1) + (86400 * (k + 7) + s - 406800);
    WeekRemainder(local - 147600, w - 1, 86400 * (k + 7) + s - 406800);
  }

  lemma WeekRemainder(x: int, w: int, r: int)
    requires x == 604800 * w + r
    ensures x % 604800 == r % 604800
  {
  }

  /** The server is two hours ahead of UTC in winter and three in summer. */
  lemma ServerAhead(offset: int -> int, utc: int)
    requires NewYork(offset)
    ensures ToServer(offset, utc) - utc == 7200 || ToServer(offset, utc) - utc == 10800
    ensures ToServer(offset, utc) - utc == 10800 <==> offset(utc) == -14400
  {
    assert offset(utc) == EST || offset(utc) == EDT;
  }
}
