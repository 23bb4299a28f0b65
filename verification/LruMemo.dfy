/** The memo of H1 facts: a bounded ordered dictionary with hit and miss counters. It is
    indistinguishable from the function it caches, and which calls hit is characterised by the
    call history alone. */
module LruMemo {
  const CAPACITY: nat := 32

  datatype Bar = Bar(time: int, open: real, high: real, low: real, close: real, volume: int)
  datatype Break = Break(index: int, level: real, event: string, direction: string)

  /** The full request: symbol, every closed H1 bar, every break record. */
  datatype Key = Key(symbol: string, h1: seq<Bar>, breaks: seq<Break>)

  // ------------------------------------------------------------------ recency of a call history

  function Without(s: seq<Key>, k: Key): seq<Key> {
    if s == [] then []
    else if s[|s| - 1] == k then Without(s[..|s| - 1], k)
    else Without(s[..|s| - 1], k) + [s[|s| - 1]]
  }

  /** The distinct requested keys, ordered by their latest request. */
  ghost function Recency(calls: seq<Key>): seq<Key> {
    if calls == [] then []
    else Without(Recency(calls[..|calls| - 1]), calls[|calls| - 1]) + [calls[|calls| - 1]]
  }

  ghost function Newest(s: seq<Key>, n: nat): seq<Key> {
    if |s| <= n then s else s[|s| - n..]
  }

  ghost predicate NoRepeats(s: seq<Key>) {
    forall i, j :: 0 <= i < j < |s| ==> s[i] != s[j]
  }

  ghost function Keys(s: seq<Key>): set<Key> {
    set x | x in s
  }

  /** At most `n` distinct keys have been requested since some request of `k`, itself included. */
  ghost predicate AmongRecent(calls: seq<Key>, k: Key, n: nat) {
    exists i :: 0 <= i < |calls| && calls[i] == k && |Keys(calls[i..])| <= n
  }

  // ------------------------------------------------------------------ removing a key

  lemma {:induction false} WithoutConcat(a: seq<Key>, b: seq<Key>, k: Key)
    ensures Without(a + b, k) == Without(a, k) + Without(b, k)
  {
    if b == [] {
      assert a + b == a;
    } else {
      var n := |b| - 1;
      WithoutConcat(a, b[..n], k);
      assert (a + b)[..|a + b| - 1] == a + b[..n];
    }
  }

  lemma {:induction false} WithoutAbsent(s: seq<Key>, k: Key)
    requires k !in s
    ensures Without(s, k) == s
  {
    if s != [] {
      WithoutAbsent(s[..|s| - 1], k);
      assert s == s[..|s| - 1] + [s[|s| - 1]];
    }
  }

  lemma {:induction false} WithoutMembers(s: seq<Key>, k: Key, x: Key)
    ensures x in Without(s, k) <==> x in s && x != k
  {
    if s != [] {
      var n := |s| - 1;
      WithoutMembers(s[..n], k, x);
      assert s == s[..n] + [s[n]];
    }
  }

  lemma {:induction false} WithoutNoRepeats(s: seq<Key>, k: Key)
    requires NoRepeats(s)
    ensures NoRepeats(Without(s, k))
  {
    if s != [] {
      var n := |s| - 1;
      WithoutNoRepeats(s[..n], k);
      WithoutMembers(s[..n], k, s[n]);
      if s[n] != k {
        AppendNew(Without(s[..n], k), s[n]);
      }
    }
  }

  lemma WithoutMeaning(s: seq<Key>, k: Key)
    ensures forall x :: x in Without(s, k) <==> x in s && x != k
    ensures NoRepeats(s) ==> NoRepeats(Without(s, k))
  {
    forall x
      ensures x in Without(s, k) <==> x in s && x != k
    {
      WithoutMembers(s, k, x);
    }
    if NoRepeats(s) {
      WithoutNoRepeats(s, k);
    }
  }

  lemma WithoutAround(a: seq<Key>, k: Key, b: seq<Key>)
    requires k !in a && k !in b
    ensures Without(a + [k] + b, k) == a + b
  {
    WithoutConcat(a + [k], b, k);
    WithoutAbsent(b, k);
    assert (a + [k])[..|a|] == a;
    WithoutAbsent(a, k);
  }

  lemma WithoutOnce(s: seq<Key>, k: Key)
    requires NoRepeats(s) && k in s
    ensures |Without(s, k)| == |s| - 1
  {
    var i :| 0 <= i < |s| && s[i] == k;
    WithoutAround(s[..i], k, s[i + 1..]);
    assert s == s[..i] + [k] + s[i + 1..];
  }

  lemma AppendNew(s: seq<Key>, k: Key)
    requires NoRepeats(s) && k !in s
    ensures NoRepeats(s + [k]) && forall x :: x in s + [k] <==> x in s || x == k
  {
  }

  lemma {:induction false} RecencyMeaning(calls: seq<Key>)
    ensures NoRepeats(Recency(calls)) && forall x :: x in Recency(calls) <==> x in calls
  {
    if calls != [] {
      var n := |calls| - 1;
      RecencyMeaning(calls[..n]);
      WithoutMeaning(Recency(calls[..n]), calls[n]);
      assert calls == calls[..n] + [calls[n]];
      AppendNew(Without(Recency(calls[..n]), calls[n]), calls[n]);
    }
  }

  lemma RecencySnoc(calls: seq<Key>, k: Key)
    ensures Recency(calls + [k]) == Without(Recency(calls), k) + [k]
  {
    assert (calls + [k])[..|calls|] == calls;
  }

  // ------------------------------------------------------------------ the rank of a key

  /** `r` is `x`, then `k`, then exactly the keys of `b` without repeats. */
  ghost predicate Splits(r: seq<Key>, x: seq<Key>, k: Key, y: seq<Key>, b: seq<Key>) {
    r == x + [k] + y && NoRepeats(y) && Keys(y) == Keys(b)
  }

  lemma SplitStart(a: seq<Key>, k: Key)
    ensures Splits(Recency(a + [k]), Without(Recency(a), k), k, [], [])
  {
    RecencySnoc(a, k);
    assert Without(Recency(a), k) + [k] + [] == Without(Recency(a), k) + [k];
  }

  lemma SplitStep(r: seq<Key>, x: seq<Key>, k: Key, y: seq<Key>, b: seq<Key>, m: Key)
    requires Splits(r, x, k, y, b) && m != k
    ensures Splits(Without(r, m) + [m], Without(x, m), k, Without(y, m) + [m], b + [m])
  {
    WithoutOther(x, k, y, m);
    KeysWithNewest(y, b, m);
    KeysSnoc(b, m);
    Regroup(Without(x, m) + [k], Without(y, m), [m]);
  }

  lemma KeysSnoc(b: seq<Key>, m: Key)
    ensures Keys(b + [m]) == Keys(b) + {m}
  {
  }

  lemma Regroup(a: seq<Key>, b: seq<Key>, c: seq<Key>)
    ensures (a + b) + c == a + (b + c)
  {
  }

  /** After the last request of `k`, exactly the keys requested since stand behind it. */
  lemma {:induction false} RecencySplit(a: seq<Key>, k: Key, b: seq<Key>) returns (x: seq<Key>, y: seq<Key>)
    requires k !in b
    ensures Splits(Recency((a + [k]) + b), x, k, y, b)
  {
    if b == [] {
      x, y := Without(Recency(a), k), [];
      SplitStart(a, k);
      assert (a + [k]) + b == a + [k];
    } else {
      var front, m := b[..|b| - 1], b[|b| - 1];
      var x', y' := RecencySplit(a, k, front);
      x, y := Without(x', m), Without(y', m) + [m];
      Peel(a + [k], b);
      RecencySnoc((a + [k]) + front, m);
      SplitStep(Recency((a + [k]) + front), x', k, y', front, m);
    }
  }

  lemma Peel(a: seq<Key>, b: seq<Key>)
    requires b != []
    ensures a + b == (a + b[..|b| - 1]) + [b[|b| - 1]] && b == b[..|b| - 1] + [b[|b| - 1]]
  {
  }

  lemma WithoutOther(x: seq<Key>, k: Key, y: seq<Key>, m: Key)
    requires m != k
    ensures Without(x + [k] + y, m) == Without(x, m) + [k] + Without(y, m)
  {
    WithoutConcat(x + [k], y, m);
    assert (x + [k])[..|x|] == x;
  }

  lemma KeysWithNewest(y: seq<Key>, b: seq<Key>, m: Key)
    requires NoRepeats(y) && Keys(y) == Keys(b)
    ensures NoRepeats(Without(y, m) + [m]) && Keys(Without(y, m) + [m]) == Keys(b) + {m}
  {
    WithoutMeaning(y, m);
    AppendNew(Without(y, m), m);
    var next := Without(y, m) + [m];
    forall x
      ensures x in Keys(next) <==> x in Keys(b) + {m}
    {
      assert x in Keys(y) <==> x in y;
      assert x in Keys(b) <==> x in Keys(y);
    }
  }

  lemma {:induction false} NoRepeatsSize(s: seq<Key>)
    requires NoRepeats(s)
    ensures |Keys(s)| == |s|
  {
    if s != [] {
      var n := |s| - 1;
      NoRepeatsSize(s[..n]);
      assert s == s[..n] + [s[n]];
      assert Keys(s) == Keys(s[..n]) + {s[n]};
    }
  }

  lemma LastRequest(calls: seq<Key>, k: Key) returns (i: nat)
    requires k in calls
    ensures i < |calls| && calls[i] == k && k !in calls[i + 1..]
  {
    i := |calls| - 1;
    while calls[i] != k
      invariant i < |calls| && k !in calls[i + 1..]
      invariant k in calls[..i + 1]
      decreases i
    {
      assert calls[..i + 1] == calls[..i] + [calls[i]];
      assert calls[i..] == [calls[i]] + calls[i + 1..];
      i := i - 1;
    }
  }

  lemma FewerKeysLater(calls: seq<Key>, i: nat, j: nat)
    requires i <= j <= |calls|
    ensures |Keys(calls[j..])| <= |Keys(calls[i..])|
  {
    var a, b := Keys(calls[j..]), Keys(calls[i..]);
    forall x | x in a
      ensures x in b
    {
      var p :| 0 <= p < |calls[j..]| && calls[j..][p] == x;
      assert calls[i..][j - i + p] == x;
    }
    assert b == a + (b - a);
  }

  /** The rank of a requested key, from its last request. */
  lemma RankOfKey(calls: seq<Key>, k: Key, i: nat, n: nat)
    requires i < |calls| && calls[i] == k && k !in calls[i + 1..]
    ensures k in Newest(Recency(calls), n) <==> |Keys(calls[i..])| <= n
  {
    var x, y := RecencySplit(calls[..i], k, calls[i + 1..]);
    Around(calls, i);
    KeysAfter(calls, k, i, y);
    RecencyMeaning(calls);
    RankInSplit(Recency(calls), x, k, y, n);
  }

  lemma Around(calls: seq<Key>, i: nat)
    requires i < |calls|
    ensures calls == (calls[..i] + [calls[i]]) + calls[i + 1..]
  {
  }

  lemma RankInSplit(r: seq<Key>, x: seq<Key>, k: Key, y: seq<Key>, n: nat)
    requires r == x + [k] + y && NoRepeats(r)
    ensures k in Newest(r, n) <==> |y| + 1 <= n
  {
    assert r[|x|] == k;
    PositionInNewest(r, |x|, n);
  }

  lemma KeysAfter(calls: seq<Key>, k: Key, i: nat, y: seq<Key>)
    requires i < |calls| && calls[i] == k && k !in calls[i + 1..] && NoRepeats(y) && Keys(y) == Keys(calls[i + 1..])
    ensures |Keys(calls[i..])| == |y| + 1
  {
    NoRepeatsSize(y);
    assert calls[i..] == [k] + calls[i + 1..];
    assert Keys(calls[i..]) == {k} + Keys(calls[i + 1..]);
  }

  lemma RecentFromLastRequest(calls: seq<Key>, k: Key, i: nat, n: nat)
    requires i < |calls| && calls[i] == k && k !in calls[i + 1..]
    ensures AmongRecent(calls, k, n) <==> |Keys(calls[i..])| <= n
  {
    if j :| 0 <= j < |calls| && calls[j] == k && |Keys(calls[j..])| <= n {
      FewerKeysLater(calls, j, i);
    }
  }

  /** A key is one of the `n` newest exactly when at most `n` distinct keys were requested since. */
  lemma NewestIsRecent(calls: seq<Key>, k: Key, n: nat)
    ensures k in Newest(Recency(calls), n) <==> AmongRecent(calls, k, n)
  {
    if k in calls {
      var i := LastRequest(calls, k);
      RankOfKey(calls, k, i, n);
      RecentFromLastRequest(calls, k, i, n);
    } else {
      RecencyMeaning(calls);
    }
  }

  lemma PositionInNewest(r: seq<Key>, p: nat, n: nat)
    requires p < |r| && NoRepeats(r)
    ensures r[p] in Newest(r, n) <==> |r| - p <= n
  {
    if |r| > n {
      var tail := r[|r| - n..];
      if |r| - p <= n {
        assert tail[p - (|r| - n)] == r[p];
      }
    }
  }

  // ------------------------------------------------------------------ one request

  lemma NewestIsSuffix(r: seq<Key>, n: nat) returns (before: seq<Key>)
    ensures r == before + Newest(r, n)
    ensures |Newest(r, n)| <= n && (|Newest(r, n)| < n ==> before == [])
  {
    before := r[..|r| - |Newest(r, n)|];
  }

  lemma NewestOfConcat(a: seq<Key>, b: seq<Key>, n: nat)
    requires |b| == n || (|b| < n && a == [])
    ensures Newest(a + b, n) == b
  {
  }

  lemma OnlyInSuffix(a: seq<Key>, b: seq<Key>, k: Key)
    requires NoRepeats(a + b) && k in b
    ensures k !in a && NoRepeats(b)
  {
    var p :| 0 <= p < |b| && b[p] == k;
    assert (a + b)[|a| + p] == k;
    assert forall i :: 0 <= i < |a| ==> (a + b)[i] == a[i];
    assert forall i :: 0 <= i < |b| ==> (a + b)[|a| + i] == b[i];
  }

  lemma HitConcat(before: seq<Key>, kept: seq<Key>, k: Key)
    requires NoRepeats(before + kept) && k in kept
    ensures Without(before + kept, k) + [k] == before + (Without(kept, k) + [k])
    ensures |Without(kept, k) + [k]| == |kept|
  {
    OnlyInSuffix(before, kept, k);
    WithoutConcat(before, kept, k);
    WithoutAbsent(before, k);
    WithoutOnce(kept, k);
  }

  lemma HitNewest(before: seq<Key>, kept: seq<Key>, k: Key, n: nat)
    requires NoRepeats(before + kept) && k in kept && (|kept| == n || (|kept| < n && before == []))
    ensures Newest(Without(before + kept, k) + [k], n) == Without(kept, k) + [k]
  {
    HitConcat(before, kept, k);
    NewestOfConcat(before, Without(kept, k) + [k], n);
  }

  /** A request of a newest key moves it to the end. */
  lemma NewestAfterHit(r: seq<Key>, k: Key, n: nat)
    requires NoRepeats(r) && k in Newest(r, n)
    ensures Newest(Without(r, k) + [k], n) == Without(Newest(r, n), k) + [k]
  {
    var before := NewestIsSuffix(r, n);
    HitNewest(before, Newest(r, n), k, n);
  }

  /** A new key at the end, the first one evicted beyond capacity. */
  function Pushed(kept: seq<Key>, k: Key, n: nat): seq<Key> {
    if |kept| + 1 > n then (kept + [k])[1..] else kept + [k]
  }

  /** A request of any other key appends it and evicts the oldest beyond capacity. */
  lemma NewestAfterMiss(r: seq<Key>, k: Key, n: nat)
    requires k !in Newest(r, n) && n > 0
    ensures var kept := Newest(r, n);
            Newest(Without(r, k) + [k], n) == Pushed(kept, k, n)
  {
    var kept := Newest(r, n);
    var before := NewestIsSuffix(r, n);
    WithoutConcat(before, kept, k);
    WithoutAbsent(kept, k);
    AppendAndEvict(Without(before, k), kept, k, n);
    assert Without(r, k) + [k] == Without(before, k) + (kept + [k]);
  }

  lemma AppendAndEvict(rest: seq<Key>, kept: seq<Key>, k: Key, n: nat)
    requires 0 < n && (|kept| == n || (|kept| < n && rest == []))
    ensures Newest(rest + (kept + [k]), n) == Pushed(kept, k, n)
  {
    if |kept| == n {
      assert rest + (kept + [k]) == (rest + [kept[0]]) + (kept + [k])[1..];
      NewestOfConcat(rest + [kept[0]], (kept + [k])[1..], n);
    } else {
      NewestOfConcat(rest, kept + [k], n);
    }
  }

  lemma SameKeysMoved(kept: seq<Key>, k: Key)
    requires k in kept
    ensures Keys(Without(kept, k) + [k]) == Keys(kept) && k in Without(kept, k) + [k]
  {
    WithoutMeaning(kept, k);
    assert (Without(kept, k) + [k])[|Without(kept, k)|] == k;
  }

  /** A request of a newest key. */
  lemma HitStep(calls: seq<Key>, k: Key, n: nat)
    requires k in Newest(Recency(calls), n)
    ensures var kept, next := Newest(Recency(calls), n), Newest(Recency(calls + [k]), n);
            next == Without(kept, k) + [k] && Keys(next) == Keys(kept)
  {
    RecencyMeaning(calls);
    RecencySnoc(calls, k);
    NewestAfterHit(Recency(calls), k, n);
    SameKeysMoved(Newest(Recency(calls), n), k);
  }

  /** A request of any other key. */
  lemma MissStep(calls: seq<Key>, k: Key, n: nat)
    requires n > 0 && k !in Newest(Recency(calls), n)
    ensures var kept, next := Newest(Recency(calls), n), Newest(Recency(calls + [k]), n);
            NoRepeats(kept) && next == Pushed(kept, k, n)
  {
    RecencyMeaning(calls);
    RecencySnoc(calls, k);
    NewestAfterMiss(Recency(calls), k, n);
  }

  lemma LastIsNewest(s: seq<Key>, k: Key, n: nat)
    requires n > 0
    ensures |Newest(s + [k], n)| <= n && k in Newest(s + [k], n)
  {
    var r := s + [k];
    assert Newest(r, n)[|Newest(r, n)| - 1] == r[|r| - 1];
  }

  lemma NewestIsBounded(calls: seq<Key>, k: Key, n: nat)
    requires n > 0
    ensures |Newest(Recency(calls + [k]), n)| <= n && k in Newest(Recency(calls + [k]), n)
  {
    RecencySnoc(calls, k);
    LastIsNewest(Without(Recency(calls), k), k, n);
  }

  /** What one request does to the newest keys. */
  lemma RequestStep(calls: seq<Key>, k: Key, n: nat)
    requires n > 0
    ensures var kept, next := Newest(Recency(calls), n), Newest(Recency(calls + [k]), n);
            && (if k in kept then next == Without(kept, k) + [k] && Keys(next) == Keys(kept)
                else NoRepeats(kept) && next == Pushed(kept, k, n))
            && k in next && |next| <= n
  {
    NewestIsBounded(calls, k, n);
    if k in Newest(Recency(calls), n) {
      HitStep(calls, k, n);
    } else {
      MissStep(calls, k, n);
    }
  }

  lemma KeysWithoutFirst(s: seq<Key>)
    requires s != [] && NoRepeats(s)
    ensures Keys(s[1..]) == Keys(s) - {s[0]}
  {
    assert s == [s[0]] + s[1..];
    assert s[0] !in s[1..];
  }

  // ------------------------------------------------------------------ the memo

  class Memo<V> {
    const compute: Key -> V
    var order: seq<Key>
    var cache: map<Key, V>
    var hits: nat
    var misses: nat
    ghost var calls: seq<Key>

    /** The cache holds the computed facts of exactly the newest requested keys, in order. */
    ghost predicate Valid()
      reads this
    {
      && order == Newest(Recency(calls), CAPACITY)
      && Holds(cache, order)
      && hits + misses == |calls|
    }

    /** The computed facts of exactly the listed keys. */
    ghost predicate Holds(cache: map<Key, V>, order: seq<Key>) {
      cache.Keys == Keys(order) && forall k :: k in cache ==> cache[k] == compute(k)
    }

    constructor (compute: Key -> V)
      ensures Valid() && calls == [] && hits == misses == 0 && this.compute == compute
    {
      this.compute := compute;
      order, cache, hits, misses, calls := [], map[], 0, 0, [];
    }

    /** Inserts a new key at the end and pops the first one beyond capacity. */
    method Store(cache: map<Key, V>, order: seq<Key>, key: Key) returns (cache': map<Key, V>, order': seq<Key>)
      requires Holds(cache, order) && NoRepeats(order) && key !in order
      ensures order' == Pushed(order, key, CAPACITY)
      ensures Holds(cache', order')
    {
      AppendNew(order, key);
      cache', order' := cache[key := compute(key)], order + [key];
      assert Keys(order') == Keys(order) + {key};
      if |order'| > CAPACITY {
        KeysWithoutFirst(order');
        cache' := cache' - {order'[0]};
        order' := order'[1..];
      }
    }

    /** A key in the cache is moved to the end. */
    method Hit(key: Key)
      requires Valid() && key in order
      modifies this`order, this`hits, this`calls
      ensures Valid() && calls == old(calls) + [key] && hits == old(hits) + 1
    {
      HitStep(calls, key, CAPACITY);
      hits := hits + 1;
      order := Without(order, key) + [key];
      calls := calls + [key];
    }

    /** A key not in the cache is computed and stored. */
    method Miss(key: Key)
      requires Valid() && key !in order
      modifies this`order, this`cache, this`misses, this`calls
      ensures Valid() && calls == old(calls) + [key] && misses == old(misses) + 1
    {
      MissStep(calls, key, CAPACITY);
      misses := misses + 1;
      cache, order := Store(cache, order, key);
      calls := calls + [key];
    }

    /** The result is always the uncached one; the call hits exactly when its key is among the
        most recently requested; the cache never outgrows its capacity. */
    method Facts(key: Key) returns (r: V)
      requires Valid()
      modifies this
      ensures Valid() && calls == old(calls) + [key]
      ensures r == compute(key)
      ensures AmongRecent(old(calls), key, 32) ==> hits == old(hits) + 1 && misses == old(misses)
      ensures !AmongRecent(old(calls), key, 32) ==> hits == old(hits) && misses == old(misses) + 1
      ensures hits + misses == |calls| && |order| <= 32 && cache.Keys == Keys(order) && key in cache
    {
      NewestIsRecent(calls, key, CAPACITY);
      NewestIsBounded(calls, key, CAPACITY);
      assert key in Keys(order) <==> key in order;
      if key !in cache {
        Miss(key);
      } else {
        Hit(key);
      }
      assert key in Keys(order);
      r := cache[key];
    }
  }
}
