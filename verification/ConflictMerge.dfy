/** The union of candle groups by timestamp with conflict detection. A conflict pops the
    standing candle, so a later candle of that instant stands again: conflicts are reported
    exactly, but "dropped entirely" holds only up to the second candle of an instant. */
module ConflictMerge {
  import opened Prelude
  import opened Candles

  /** All candles in the order they are visited. */
  function Flatten(groups: seq<seq<Candle>>): seq<Candle> {
    if groups == [] then [] else Flatten(groups[..|groups| - 1]) + groups[|groups| - 1]
  }

  /** The bars offered for instant `t`, in order. */
  function Offers(cs: seq<Candle>, t: int): seq<Ohlc> {
    if cs == [] then []
    else
      var front := Offers(cs[..|cs| - 1], t);
      if cs[|cs| - 1].time == t then front + [cs[|cs| - 1].bar] else front
  }

  /** The bar standing after a list of offers. */
  function Standing(offers: seq<Ohlc>): Option<Ohlc> {
    if offers == [] then None
    else
      var before := Standing(offers[..|offers| - 1]);
      var v := offers[|offers| - 1];
      if before.None? then Some(v) else if before.value != v then None else before
  }

  ghost predicate Disputed(offers: seq<Ohlc>) {
    exists i, j :: 0 <= i < j < |offers| && offers[i] != offers[j]
  }

  lemma OffersSnoc(cs: seq<Candle>, c: Candle, t: int)
    ensures Offers(cs + [c], t) == if c.time == t then Offers(cs, t) + [c.bar] else Offers(cs, t)
  {
    assert (cs + [c])[..|cs|] == cs;
  }

  lemma StandingSnoc(offers: seq<Ohlc>, v: Ohlc)
    ensures Standing(offers + [v]) ==
            if Standing(offers).None? then Some(v) else if Standing(offers).value != v then None else Standing(offers)
  {
    assert (offers + [v])[..|offers|] == offers;
  }

  /** While nothing is disputed, the first offer stands. */
  lemma {:induction false} UndisputedStands(offers: seq<Ohlc>)
    requires !Disputed(offers)
    ensures Standing(offers) == if offers == [] then None else Some(offers[0])
  {
    if |offers| > 0 {
      var n := |offers| - 1;
      var front := offers[..n];
      assert forall i :: 0 <= i < n ==> front[i] == offers[i];
      assert !Disputed(front);
      UndisputedStands(front);
      assert n > 0 ==> offers[0] == offers[n];
    }
  }

  lemma DisputedSnoc(offers: seq<Ohlc>, v: Ohlc)
    ensures Disputed(offers + [v]) <==> Disputed(offers) || (offers != [] && offers[0] != v)
  {
    var more := offers + [v];
    assert forall i :: 0 <= i < |offers| ==> more[i] == offers[i];
    assert more[|offers|] == v;
    if Disputed(offers) {
      var i, j :| 0 <= i < j < |offers| && offers[i] != offers[j];
      assert more[i] != more[j];
    } else if offers != [] && offers[0] != v {
      assert more[0] != more[|offers|];
    } else if offers != [] {
      forall i | 0 <= i < |offers|
        ensures offers[i] == offers[0]
      {
      }
    }
  }

  /** What the loop holds for one instant: whether it was reported, and which candle stands. */
  ghost predicate MergedAt(offers: seq<Ohlc>, merged: map<int, Candle>, conflicts: set<int>, t: int) {
    && (t in conflicts <==> Disputed(offers))
    && Standing(offers) == (if t in merged then Some(merged[t].bar) else None)
    && (t in merged ==> merged[t].time == t)
  }

  /** The state of the loop after the candles `cs`. */
  ghost predicate MergedAfter(cs: seq<Candle>, merged: map<int, Candle>, conflicts: set<int>) {
    forall t :: MergedAt(Offers(cs, t), merged, conflicts, t)
  }

  /** One step of the loop. */
  function Absorb(merged: map<int, Candle>, conflicts: set<int>, c: Candle): (map<int, Candle>, set<int>) {
    if c.time !in merged then (merged[c.time := c], conflicts)
    else if merged[c.time].bar != c.bar then (merged - {c.time}, conflicts + {c.time})
    else (merged, conflicts)
  }

  lemma AbsorbHere(offers: seq<Ohlc>, merged: map<int, Candle>, conflicts: set<int>, c: Candle)
    requires MergedAt(offers, merged, conflicts, c.time)
    ensures var (m, x) := Absorb(merged, conflicts, c); MergedAt(offers + [c.bar], m, x, c.time)
  {
    StandingSnoc(offers, c.bar);
    DisputedSnoc(offers, c.bar);
    if !Disputed(offers) {
      UndisputedStands(offers);
    }
  }

  lemma AbsorbStep(cs: seq<Candle>, merged: map<int, Candle>, conflicts: set<int>, c: Candle)
    requires MergedAfter(cs, merged, conflicts)
    ensures var (m, x) := Absorb(merged, conflicts, c); MergedAfter(cs + [c], m, x)
  {
    var (m, x) := Absorb(merged, conflicts, c);
    forall t
      ensures MergedAt(Offers(cs + [c], t), m, x, t)
    {
      assert MergedAt(Offers(cs, t), merged, conflicts, t);
      OffersSnoc(cs, c, t);
      if t == c.time {
        AbsorbHere(Offers(cs, t), merged, conflicts, c);
      }
    }
  }

  ghost predicate Ascending(s: seq<int>) {
    forall i, j :: 0 <= i < j < |s| ==> s[i] < s[j]
  }

  /** The members of a set in ascending order. */
  method SortedSet(s: set<int>) returns (r: seq<int>)
    ensures Ascending(r) && forall t :: t in r <==> t in s
  {
    r := [];
    var left := s;
    while left != {}
      invariant left <= s && Ascending(r)
      invariant forall t :: t in r <==> t in s && t !in left
      invariant forall t, u :: t in r && u in left ==> t < u
      decreases |left|
    {
      var least := LeastOf(left);
      assert forall i :: 0 <= i < |r| ==> r[i] in r;
      r := r + [least];
      left := left - {least};
    }
  }

  method LeastOf(s: set<int>) returns (least: int)
    requires s != {}
    ensures least in s && forall t :: t in s ==> least <= t
  {
    assert (forall t :: t !in s) ==> s == {};
    least :| least in s;
    var left := s - {least};
    while left != {}
      invariant left <= s && least in s
      invariant forall t :: t in s && t !in left ==> least <= t
      decreases |left|
    {
      assert (forall t :: t !in left) ==> left == {};
      var t :| t in left;
      if t < least {
        least := t;
      }
      left := left - {t};
    }
  }

  /** One group is absorbed candle by candle. */
  method AbsorbGroup(group: seq<Candle>, merged: map<int, Candle>, conflicts: set<int>, ghost seen: seq<Candle>)
    returns (merged': map<int, Candle>, conflicts': set<int>)
    requires MergedAfter(seen, merged, conflicts)
    ensures MergedAfter(seen + group, merged', conflicts')
  {
    merged', conflicts' := merged, conflicts;
    assert seen + group[..0] == seen;
    for i := 0 to |group|
      invariant MergedAfter(seen + group[..i], merged', conflicts')
    {
      var c := group[i];
      ghost var done := seen + group[..i];
      AbsorbStep(done, merged', conflicts', c);
      assert seen + group[..i + 1] == done + [c];
      if c.time !in merged' {
        merged' := merged'[c.time := c];
      } else if merged'[c.time].bar != c.bar {
        conflicts' := conflicts' + {c.time};
        merged' := merged' - {c.time};
      }
    }
    assert seen + group[..|group|] == seen + group;
  }

  method AbsorbAll(groups: seq<seq<Candle>>) returns (merged: map<int, Candle>, conflicts: set<int>)
    ensures MergedAfter(Flatten(groups), merged, conflicts)
  {
    merged, conflicts := map[], {};
    for g := 0 to |groups|
      invariant MergedAfter(Flatten(groups[..g]), merged, conflicts)
    {
      merged, conflicts := AbsorbGroup(groups[g], merged, conflicts, Flatten(groups[..g]));
      assert groups[..g + 1][..g] == groups[..g];
    }
    assert groups[..|groups|] == groups;
  }

  /** The merge. Conflicts are exactly the disputed instants, whatever the order of groups; a
      merged candle stands for its instant's offers; both lists ascend. */
  method MergeWithConflictDetection(groups: seq<seq<Candle>>) returns (merged: seq<Candle>, conflicts: seq<int>)
    ensures Ascending(conflicts) && forall t :: t in conflicts <==> Disputed(Offers(Flatten(groups), t))
    ensures forall i, j :: 0 <= i < j < |merged| ==> merged[i].time < merged[j].time
    ensures forall c :: c in merged ==> c in Flatten(groups) && Standing(Offers(Flatten(groups), c.time)) == Some(c.bar)
    ensures forall t :: Standing(Offers(Flatten(groups), t)).Some? ==> exists c :: c in merged && c.time == t
  {
    var kept, found := AbsorbAll(groups);
    ReportsDisputes(Flatten(groups), kept, found);
    conflicts := SortedSet(found);
    var times := SortedSet(kept.Keys);
    merged := [];
    for i := 0 to |times|
      invariant |merged| == i && forall x :: 0 <= x < i ==> times[x] in kept && merged[x] == kept[times[x]]
    {
      assert times[i] in times;
      merged := merged + [kept[times[i]]];
    }
    ListsKept(Flatten(groups), kept, found, times, merged);
  }

  lemma ReportsDisputes(cs: seq<Candle>, kept: map<int, Candle>, found: set<int>)
    requires MergedAfter(cs, kept, found)
    ensures forall t :: t in found <==> Disputed(Offers(cs, t))
  {
    forall t
      ensures t in found <==> Disputed(Offers(cs, t))
    {
      assert MergedAt(Offers(cs, t), kept, found, t);
    }
  }

  lemma ListsKept(cs: seq<Candle>, kept: map<int, Candle>, found: set<int>, times: seq<int>, merged: seq<Candle>)
    requires MergedAfter(cs, kept, found) && Ascending(times) && forall t :: t in times <==> t in kept
    requires |merged| == |times| && forall x :: 0 <= x < |times| ==> times[x] in kept && merged[x] == kept[times[x]]
    ensures forall i, j :: 0 <= i < j < |merged| ==> merged[i].time < merged[j].time
    ensures forall c :: c in merged ==> c in cs && Standing(Offers(cs, c.time)) == Some(c.bar)
    ensures forall t :: Standing(Offers(cs, t)).Some? ==> exists c :: c in merged && c.time == t
  {
    forall x | 0 <= x < |merged|
      ensures merged[x].time == times[x] && merged[x] in cs && Standing(Offers(cs, times[x])) == Some(merged[x].bar)
    {
      assert MergedAt(Offers(cs, times[x]), kept, found, times[x]);
      StandingIsOffered(Offers(cs, times[x]));
      OffersMeaning(cs, times[x], merged[x].bar);
    }
    forall t | Standing(Offers(cs, t)).Some?
      ensures exists c :: c in merged && c.time == t
    {
      assert MergedAt(Offers(cs, t), kept, found, t);
      assert t in times;
      var x :| 0 <= x < |times| && times[x] == t;
      assert merged[x] in merged && merged[x].time == t;
    }
  }

  lemma {:induction false} StandingIsOffered(offers: seq<Ohlc>)
    ensures Standing(offers).Some? ==> Standing(offers).value in offers
  {
    if offers != [] {
      StandingIsOffered(offers[..|offers| - 1]);
      assert offers == offers[..|offers| - 1] + [offers[|offers| - 1]];
    }
  }

  // ------------------------------------------------------------------ what the reports mean

  lemma {:induction false} OffersMeaning(cs: seq<Candle>, t: int, v: Ohlc)
    ensures v in Offers(cs, t) <==> Candle(t, v) in cs
  {
    if cs != [] {
      var n := |cs| - 1;
      OffersMeaning(cs[..n], t, v);
      assert cs == cs[..n] + [cs[n]];
    }
  }

  /** A timestamp is reported exactly when two candles disagree on its bar. */
  lemma DisputedMeansDisagreement(cs: seq<Candle>, t: int)
    ensures Disputed(Offers(cs, t)) <==> exists v, w :: v != w && Candle(t, v) in cs && Candle(t, w) in cs
  {
    var offers := Offers(cs, t);
    if Disputed(offers) {
      var i, j :| 0 <= i < j < |offers| && offers[i] != offers[j];
      OffersMeaning(cs, t, offers[i]);
      OffersMeaning(cs, t, offers[j]);
    }
    if v, w :| v != w && Candle(t, v) in cs && Candle(t, w) in cs {
      OffersMeaning(cs, t, v);
      OffersMeaning(cs, t, w);
      var i :| 0 <= i < |offers| && offers[i] == v;
      var j :| 0 <= j < |offers| && offers[j] == w;
      if i < j {
        assert offers[i] != offers[j];
      } else {
        assert offers[j] != offers[i];
      }
    }
  }

  /** Conflict detection does not depend on the order of candles or groups. */
  lemma ConflictsIgnoreOrder(a: seq<Candle>, b: seq<Candle>, t: int)
    requires forall c :: c in a <==> c in b
    ensures Disputed(Offers(a, t)) <==> Disputed(Offers(b, t))
  {
    DisputedMeansDisagreement(a, t);
    DisputedMeansDisagreement(b, t);
  }

  /** With no conflict, an instant is merged exactly when it is offered, with everyone's bar. */
  lemma NoConflictIsUnion(cs: seq<Candle>, c: Candle)
    requires !Disputed(Offers(cs, c.time)) && c in cs
    ensures Standing(Offers(cs, c.time)) == Some(c.bar)
  {
    OffersMeaning(cs, c.time, c.bar);
    UndisputedStands(Offers(cs, c.time));
    var offers := Offers(cs, c.time);
    var i :| 0 <= i < |offers| && offers[i] == c.bar;
    assert i > 0 ==> offers[0] == offers[i];
  }

  // ------------------------------------------------------------------ survival of a conflict

  /** A block: offers of one bar ended by a different one. It leaves nothing standing. */
  ghost predicate Cancels(block: seq<Ohlc>) {
    && |block| >= 2
    && (forall i :: 0 <= i < |block| - 1 ==> block[i] == block[0])
    && block[|block| - 1] != block[0]
  }

  /** The offers are cancelling blocks followed by `live` copies of one bar. */
  ghost predicate Decomposes(offers: seq<Ohlc>, live: nat)
    decreases |offers|
  {
    || (live == |offers| && forall i :: 0 <= i < live ==> offers[i] == offers[0])
    || exists k :: 2 <= k <= |offers| && Cancels(offers[..k]) && Decomposes(offers[k..], live)
  }

  lemma {:induction false} CancelledPrefix(block: seq<Ohlc>, rest: seq<Ohlc>)
    requires Standing(block).None?
    ensures Standing(block + rest) == Standing(rest)
  {
    if rest == [] {
      assert block + rest == block;
    } else {
      var n := |rest| - 1;
      CancelledPrefix(block, rest[..n]);
      assert block + rest == (block + rest[..n]) + [rest[n]];
      StandingSnoc(block + rest[..n], rest[n]);
    }
  }

  lemma CancelsLeavesNothing(block: seq<Ohlc>)
    requires Cancels(block)
    ensures Standing(block).None?
  {
    var n := |block| - 1;
    var front := block[..n];
    assert forall i :: 0 <= i < n ==> front[i] == block[i];
    assert !Disputed(front);
    UndisputedStands(front);
  }

  lemma EqualOffersStand(offers: seq<Ohlc>)
    requires forall i :: 0 <= i < |offers| ==> offers[i] == offers[0]
    ensures Standing(offers) == if offers == [] then None else Some(offers[|offers| - 1])
  {
    assert !Disputed(offers);
    UndisputedStands(offers);
  }

  lemma BlockThenRest(offers: seq<Ohlc>, k: nat)
    requires 2 <= k <= |offers| && Cancels(offers[..k])
    ensures Standing(offers) == Standing(offers[k..])
    ensures k < |offers| ==> offers[|offers| - 1] == offers[k..][|offers[k..]| - 1]
  {
    CancelsLeavesNothing(offers[..k]);
    assert offers == offers[..k] + offers[k..];
    CancelledPrefix(offers[..k], offers[k..]);
  }

  /** Exactly when something stands: the offers split into cancelling blocks and a non-empty
      tail of equal bars. A disputed instant therefore survives exactly when the blocks do not
      use up the last offer. */
  lemma {:induction false} StandsExactly(offers: seq<Ohlc>, live: nat)
    requires Decomposes(offers, live)
    ensures Standing(offers).Some? <==> live > 0
    ensures live <= |offers| && (live > 0 ==> Standing(offers) == Some(offers[|offers| - 1]))
    decreases |offers|
  {
    if live == |offers| && forall i :: 0 <= i < live ==> offers[i] == offers[0] {
      EqualOffersStand(offers);
    } else {
      var k :| 2 <= k <= |offers| && Cancels(offers[..k]) && Decomposes(offers[k..], live);
      StandsExactly(offers[k..], live);
      BlockThenRest(offers, k);
    }
  }

  /** Every list of offers splits that way. */
  lemma {:induction false} SplitExists(offers: seq<Ohlc>) returns (live: nat)
    ensures Decomposes(offers, live)
    decreases |offers|
  {
    if !Disputed(offers) {
      live := |offers|;
      assert forall i :: 0 < i < |offers| ==> offers[0] == offers[i];
    } else {
      var k := 1;
      while k < |offers| && offers[k] == offers[0]
        invariant 1 <= k <= |offers|
        invariant forall i :: 0 <= i < k ==> offers[i] == offers[0]
      {
        k := k + 1;
      }
      var block := offers[..k + 1];
      assert Cancels(block);
      live := SplitExists(offers[k + 1..]);
      assert 2 <= k + 1 <= |offers| && Cancels(offers[..k + 1]) && Decomposes(offers[k + 1..], live);
    }
  }

  /** An instant is dropped exactly when its offers are cancelling blocks and nothing else. */
  lemma DroppedExactly(offers: seq<Ohlc>)
    ensures Standing(offers).None? <==> Decomposes(offers, 0)
  {
    var live := SplitExists(offers);
    StandsExactly(offers, live);
    if Decomposes(offers, 0) {
      StandsExactly(offers, 0);
    }
  }

  /** With at most two candles for an instant a conflict is dropped entirely. */
  lemma TwoOffersFailClosed(offers: seq<Ohlc>)
    requires Disputed(offers) && |offers| <= 2
    ensures Standing(offers).None?
  {
    assert offers == [offers[0], offers[1]];
    StandingSnoc([offers[0]], offers[1]);
    assert [offers[0]] + [offers[1]] == offers;
    assert Standing([offers[0]]) == Some(offers[0]);
  }

  ghost predicate UniqueTimes(cs: seq<Candle>) {
    forall i, j :: 0 <= i < j < |cs| ==> cs[i].time != cs[j].time
  }

  lemma {:induction false} OffersConcat(a: seq<Candle>, b: seq<Candle>, t: int)
    ensures Offers(a + b, t) == Offers(a, t) + Offers(b, t)
  {
    if b == [] {
      assert a + b == a;
    } else {
      var n := |b| - 1;
      OffersConcat(a, b[..n], t);
      assert a + b == (a + b[..n]) + [b[n]] && b == b[..n] + [b[n]];
      OffersSnoc(a + b[..n], b[n], t);
    }
  }

  lemma {:induction false} OneOfferEach(cs: seq<Candle>, t: int)
    requires UniqueTimes(cs)
    ensures |Offers(cs, t)| <= 1
    ensures (forall i :: 0 <= i < |cs| ==> cs[i].time != t) ==> Offers(cs, t) == []
  {
    if cs != [] {
      var n := |cs| - 1;
      assert forall i :: 0 <= i < n ==> cs[..n][i] == cs[i];
      OneOfferEach(cs[..n], t);
    }
  }

  lemma {:induction false} OneOfferPerGroup(groups: seq<seq<Candle>>, t: int)
    requires forall g :: 0 <= g < |groups| ==> UniqueTimes(groups[g])
    ensures |Offers(Flatten(groups), t)| <= |groups|
  {
    if groups != [] {
      var n := |groups| - 1;
      OneOfferPerGroup(groups[..n], t);
      OneOfferEach(groups[n], t);
      OffersConcat(Flatten(groups[..n]), groups[n], t);
    }
  }

  /** With at most two duplicate-free groups no conflicting timestamp survives. */
  lemma TwoGroupsFailClosed(groups: seq<seq<Candle>>, t: int)
    requires |groups| <= 2 && forall g :: 0 <= g < |groups| ==> UniqueTimes(groups[g])
    requires Disputed(Offers(Flatten(groups), t))
    ensures Standing(Offers(Flatten(groups), t)).None?
  {
    OneOfferPerGroup(groups, t);
    TwoOffersFailClosed(Offers(Flatten(groups), t));
  }

  /** With three, a conflict survives exactly when the first two already disagreed. */
  lemma ThreeOffersSurvive(offers: seq<Ohlc>)
    requires Disputed(offers) && |offers| == 3
    ensures Standing(offers).Some? <==> offers[0] != offers[1]
    ensures offers[0] != offers[1] ==> Standing(offers) == Some(offers[2])
  {
    var two := [offers[0], offers[1]];
    assert offers == two + [offers[2]] && two == [offers[0]] + [offers[1]];
    assert Standing([offers[0]]) == Some(offers[0]);
    StandingSnoc([offers[0]], offers[1]);
    StandingSnoc(two, offers[2]);
    var i, j :| 0 <= i < j < 3 && offers[i] != offers[j];
    assert !(offers[0] == offers[1] == offers[2]);
  }

  /** The documented "dropped from the merge entirely" fails on three groups. */
  lemma ConflictReinserted() returns (groups: seq<seq<Candle>>, t: int)
    ensures |groups| == 3 && (forall g :: 0 <= g < 3 ==> |groups[g]| == 1)
    ensures Disputed(Offers(Flatten(groups), t)) && Standing(Offers(Flatten(groups), t)).Some?
  {
    var a, b := Ohlc(1.0, 1.0, 1.0, 1.0), Ohlc(2.0, 2.0, 2.0, 2.0);
    var x, y := Candle(0, a), Candle(0, b);
    t, groups := 0, [[x], [y], [x]];
    assert groups[..2] == [[x], [y]] && groups[..2][..1] == [[x]] && groups[..2][..1][..0] == [];
    assert Flatten([[x]]) == [x];
    assert Flatten([[x], [y]]) == [x] + [y];
    assert Flatten(groups) == [x] + [y] + [x];
    OffersSnoc([], x, 0);
    OffersSnoc([x], y, 0);
    OffersSnoc([x] + [y], x, 0);
    assert [] + [x] == [x];
    var offers := Offers(Flatten(groups), 0);
    assert offers == [a, b, a];
    assert offers[0] != offers[1];
    ThreeOffersSurvive(offers);
  }

  // ------------------------------------------------------------------ what is visited

  /** Exactly the candles of the groups are visited, one group after the other. */
  lemma {:induction false} FlattenExactly(groups: seq<seq<Candle>>, c: Candle)
    ensures c in Flatten(groups) <==> exists g :: 0 <= g < |groups| && c in groups[g]
  {
    if groups != [] {
      var n := |groups| - 1;
      FlattenExactly(groups[..n], c);
      assert forall g :: 0 <= g < n ==> groups[..n][g] == groups[g];
      if c in Flatten(groups[..n]) {
        var g :| 0 <= g < n && c in groups[..n][g];
        assert c in groups[g];
      }
    }
  }

  lemma {:induction false} FlattenConcat(a: seq<seq<Candle>>, b: seq<seq<Candle>>)
    ensures Flatten(a + b) == Flatten(a) + Flatten(b)
  {
    if b == [] {
      assert a + b == a;
    } else {
      var n := |b| - 1;
      FlattenConcat(a, b[..n]);
      assert (a + b)[..|a + b| - 1] == a + b[..n];
    }
  }

  lemma FlattenOne(group: seq<Candle>)
    ensures Flatten([group]) == group
  {
    assert [group][..0] == [];
  }
}
