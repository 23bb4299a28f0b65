/** The interval algebra of the coverage audit on half-open intervals of whole seconds. Each
    operation is specified by the points it covers; canonical lists are unique for their
    points, so that specification determines every result completely. */
module Intervals {
  datatype Interval = Interval(start: int, end: int)

  ghost predicate Covers(s: seq<Interval>, x: int) {
    exists i :: 0 <= i < |s| && s[i].start <= x < s[i].end
  }

  /** Non-empty intervals, ascending, never touching. */
  ghost predicate Canonical(s: seq<Interval>) {
    && (forall i :: 0 <= i < |s| ==> s[i].start < s[i].end)
    && (forall i, j :: 0 <= i < j < |s| ==> s[i].end < s[j].start)
  }

  ghost predicate SamePoints(a: seq<Interval>, b: seq<Interval>) {
    forall x :: Covers(a, x) <==> Covers(b, x)
  }

  /** `out` is the merge of `s`: canonical, with the points of `s`. */
  ghost predicate IsMergeOf(out: seq<Interval>, s: seq<Interval>) {
    Canonical(out) && SamePoints(out, s)
  }

  // ------------------------------------------------------------------ points of a list

  lemma CoversConcat(a: seq<Interval>, b: seq<Interval>, x: int)
    ensures Covers(a + b, x) <==> Covers(a, x) || Covers(b, x)
  {
    var c := a + b;
    if i :| 0 <= i < |a| && a[i].start <= x < a[i].end {
      assert c[i].start <= x < c[i].end;
    }
    if i :| 0 <= i < |b| && b[i].start <= x < b[i].end {
      assert c[|a| + i].start <= x < c[|a| + i].end;
    }
  }

  lemma CoversOne(v: Interval, x: int)
    ensures Covers([v], x) <==> v.start <= x < v.end
  {
    if v.start <= x < v.end {
      assert [v][0].start <= x < [v][0].end;
    }
  }

  lemma CoversTake(s: seq<Interval>, i: nat, x: int)
    requires i < |s|
    ensures Covers(s[..i + 1], x) <==> Covers(s[..i], x) || s[i].start <= x < s[i].end
  {
    assert s[..i + 1] == s[..i] + [s[i]];
    CoversConcat(s[..i], [s[i]], x);
    CoversOne(s[i], x);
  }

  lemma CoversDrop(s: seq<Interval>, i: nat, x: int)
    requires i < |s|
    ensures Covers(s[i..], x) <==> s[i].start <= x < s[i].end || Covers(s[i + 1..], x)
  {
    assert s[i..] == [s[i]] + s[i + 1..];
    CoversConcat([s[i]], s[i + 1..], x);
    CoversOne(s[i], x);
  }

  lemma AppendCovers(s: seq<Interval>, v: Interval)
    ensures forall x :: Covers(s + [v], x) <==> Covers(s, x) || v.start <= x < v.end
  {
    forall x
      ensures Covers(s + [v], x) <==> Covers(s, x) || v.start <= x < v.end
    {
      CoversConcat(s, [v], x);
      CoversOne(v, x);
    }
  }

  // ------------------------------------------------------------------ canonical lists are unique

  lemma HeadCovered(s: seq<Interval>)
    requires Canonical(s)
    ensures s != [] ==> Covers(s, s[0].start)
  {
    if s != [] {
      assert s[0].start <= s[0].start < s[0].end;
    }
  }

  lemma CanonicalHeadIsLeast(s: seq<Interval>, x: int)
    requires Canonical(s) && Covers(s, x)
    ensures s != [] && s[0].start <= x
    ensures x <= s[0].end ==> x < s[0].end
  {
  }

  lemma CanonicalTail(s: seq<Interval>, x: int)
    requires Canonical(s) && s != []
    ensures Canonical(s[1..])
    ensures Covers(s[1..], x) <==> Covers(s, x) && x > s[0].end
  {
    CoversDrop(s, 0, x);
    assert s[0..] == s;
    if Covers(s[1..], x) {
      CanonicalHeadIsLeast(s[1..], x);
    }
  }

  /** Two canonical lists with the same points are the same list. */
  lemma {:induction false} CanonicalUnique(a: seq<Interval>, b: seq<Interval>)
    requires Canonical(a) && Canonical(b) && SamePoints(a, b)
    ensures a == b
  {
    HeadCovered(a);
    HeadCovered(b);
    if a != [] {
      SameFirst(a, b);
      SameRest(a, b);
      CanonicalUnique(a[1..], b[1..]);
      assert a == [a[0]] + a[1..] && b == [b[0]] + b[1..];
    }
  }

  lemma SameFirst(a: seq<Interval>, b: seq<Interval>)
    requires Canonical(a) && Canonical(b) && SamePoints(a, b) && a != []
    ensures b != [] && a[0] == b[0]
  {
    HeadCovered(a);
    CanonicalHeadIsLeast(b, a[0].start);
    HeadCovered(b);
    CanonicalHeadIsLeast(a, b[0].start);
    SameFirstEnd(a, b);
    SameFirstEnd(b, a);
  }

  lemma SameRest(a: seq<Interval>, b: seq<Interval>)
    requires Canonical(a) && Canonical(b) && SamePoints(a, b) && a != [] && b != [] && a[0] == b[0]
    ensures Canonical(a[1..]) && Canonical(b[1..]) && SamePoints(a[1..], b[1..])
  {
    forall x
      ensures Covers(a[1..], x) <==> Covers(b[1..], x)
    {
      CanonicalTail(a, x);
      CanonicalTail(b, x);
    }
  }

  lemma SameFirstEnd(a: seq<Interval>, b: seq<Interval>)
    requires Canonical(a) && Canonical(b) && SamePoints(a, b)
    requires a != [] && b != [] && a[0].start == b[0].start
    ensures a[0].end >= b[0].end
  {
    if a[0].end < b[0].end {
      assert Covers(b, a[0].end) by {
        assert b[0].start <= a[0].end < b[0].end;
      }
      CanonicalHeadIsLeast(a, a[0].end);
    }
  }

  /** Merging is determined by the points alone. */
  lemma MergeUnique(a: seq<Interval>, b: seq<Interval>, s: seq<Interval>, t: seq<Interval>)
    requires IsMergeOf(a, s) && IsMergeOf(b, t) && SamePoints(s, t)
    ensures a == b
  {
    CanonicalUnique(a, b);
  }

  /** Merging does not depend on the order of its input. */
  lemma MergeIgnoresOrder(a: seq<Interval>, b: seq<Interval>, s: seq<Interval>, t: seq<Interval>)
    requires IsMergeOf(a, s) && IsMergeOf(b, t) && multiset(s) == multiset(t)
    ensures a == b
  {
    PermutationSamePoints(s, t);
    MergeUnique(a, b, s, t);
  }

  lemma PermutationCovers(s: seq<Interval>, t: seq<Interval>, x: int)
    requires multiset(s) == multiset(t) && Covers(s, x)
    ensures Covers(t, x)
  {
    var i :| 0 <= i < |s| && s[i].start <= x < s[i].end;
    assert s[i] in multiset(t);
    var j :| 0 <= j < |t| && t[j] == s[i];
  }

  /** A canonical list is its own merge. */
  lemma MergeOfCanonical(out: seq<Interval>, s: seq<Interval>)
    requires IsMergeOf(out, s) && Canonical(s)
    ensures out == s
  {
    CanonicalUnique(out, s);
  }

  // ------------------------------------------------------------------ sorting

  predicate Before(a: Interval, b: Interval) {
    a.start < b.start || (a.start == b.start && a.end <= b.end)
  }

  ghost predicate Ascending(s: seq<Interval>) {
    forall i, j :: 0 <= i < j < |s| ==> s[i].start <= s[j].start
  }

  function Insert(v: Interval, s: seq<Interval>): (r: seq<Interval>)
    ensures multiset(r) == multiset(s) + multiset{v}
  {
    if s == [] then [v]
    else if Before(v, s[0]) then [v] + s
    else
      assert s == [s[0]] + s[1..];
      [s[0]] + Insert(v, s[1..])
  }

  function Sort(s: seq<Interval>): (r: seq<Interval>)
    ensures multiset(r) == multiset(s)
  {
    if s == [] then []
    else
      assert s == [s[0]] + s[1..];
      Insert(s[0], Sort(s[1..]))
  }

  lemma {:induction false} InsertAscending(v: Interval, s: seq<Interval>)
    requires Ascending(s)
    ensures Ascending(Insert(v, s))
  {
    if s != [] && !Before(v, s[0]) {
      InsertAscending(v, s[1..]);
      var rest := Insert(v, s[1..]);
      forall i | 0 <= i < |rest|
        ensures s[0].start <= rest[i].start
      {
        assert rest[i] in multiset(s[1..]) + multiset{v};
      }
    }
  }

  lemma {:induction false} SortAscending(s: seq<Interval>)
    ensures Ascending(Sort(s))
  {
    if s != [] {
      SortAscending(s[1..]);
      InsertAscending(s[0], Sort(s[1..]));
    }
  }

  // ------------------------------------------------------------------ the operations

  /** One interval of the sorted list is dropped, swallowed, joined to the last or appended. */
  function MergeInto(out: seq<Interval>, v: Interval): seq<Interval> {
    if v.start >= v.end then out
    else if out != [] && v.start <= out[|out| - 1].end then
      if v.end > out[|out| - 1].end then out[|out| - 1 := Interval(out[|out| - 1].start, v.end)] else out
    else out + [v]
  }

  lemma MergeIntoCovers(out: seq<Interval>, v: Interval, x: int)
    requires out != [] ==> out[|out| - 1].start <= v.start
    ensures Covers(MergeInto(out, v), x) <==> Covers(out, x) || v.start <= x < v.end
  {
    var next := MergeInto(out, v);
    if out != [] {
      SplitLast(out, x);
      assert |next| == |out| ==> next[..|out| - 1] == out[..|out| - 1];
    }
    if next != [] {
      SplitLast(next, x);
    }
    if |next| == |out| + 1 {
      assert next[..|out|] == out;
    }
  }

  lemma MergeIntoKeeps(out: seq<Interval>, v: Interval)
    requires Canonical(out) && (out != [] ==> out[|out| - 1].start <= v.start)
    ensures Canonical(MergeInto(out, v))
    ensures MergeInto(out, v) != [] ==>
              MergeInto(out, v)[|MergeInto(out, v)| - 1].start <= v.start
  {
  }

  lemma AllCovered(out: seq<Interval>, s: seq<Interval>, i: nat, next: seq<Interval>)
    requires i < |s| && next == MergeInto(out, s[i]) && (out != [] ==> out[|out| - 1].start <= s[i].start)
    requires SamePoints(out, s[..i])
    ensures SamePoints(next, s[..i + 1])
  {
    forall x
      ensures Covers(next, x) <==> Covers(s[..i + 1], x)
    {
      MergeIntoCovers(out, s[i], x);
      CoversTake(s, i, x);
    }
  }

  /** The merge of the first `i` intervals, which the next one does not precede. */
  ghost predicate MergedUpTo(out: seq<Interval>, sorted: seq<Interval>, i: nat)
    requires i <= |sorted|
  {
    && Canonical(out) && SamePoints(out, sorted[..i])
    && (out != [] && i < |sorted| ==> out[|out| - 1].start <= sorted[i].start)
  }

  lemma MergeNext(out: seq<Interval>, sorted: seq<Interval>, i: nat)
    requires Ascending(sorted) && i < |sorted| && MergedUpTo(out, sorted, i)
    ensures MergedUpTo(MergeInto(out, sorted[i]), sorted, i + 1)
  {
    MergeIntoKeeps(out, sorted[i]);
    AllCovered(out, sorted, i, MergeInto(out, sorted[i]));
    assert i + 1 < |sorted| ==> sorted[i].start <= sorted[i + 1].start;
  }

  lemma MergeDone(out: seq<Interval>, intervals: seq<Interval>)
    requires MergedUpTo(out, Sort(intervals), |Sort(intervals)|)
    ensures IsMergeOf(out, intervals)
  {
    var sorted := Sort(intervals);
    assert sorted[..|sorted|] == sorted;
    PermutationSamePoints(sorted, intervals);
  }

  /** Merging never fails and returns the canonical list with the input's points. */
  method Merge(intervals: seq<Interval>) returns (out: seq<Interval>)
    ensures IsMergeOf(out, intervals)
  {
    var sorted := Sort(intervals);
    SortAscending(intervals);
    out := [];
    for i := 0 to |sorted|
      invariant MergedUpTo(out, sorted, i)
    {
      MergeNext(out, sorted, i);
      out := Join(out, sorted[i]);
    }
    MergeDone(out, intervals);
  }

  /** The body of the loop: an empty interval is dropped, one that starts inside or at the end
      of the last is joined to it, any other is appended. */
  method Join(out: seq<Interval>, v: Interval) returns (next: seq<Interval>)
    ensures next == MergeInto(out, v)
  {
    next := out;
    if v.start >= v.end {
      return;
    }
    if out != [] && v.start <= out[|out| - 1].end {
      if v.end > out[|out| - 1].end {
        next := out[|out| - 1 := Interval(out[|out| - 1].start, v.end)];
      }
    } else {
      next := out + [v];
    }
  }

  lemma PermutationSamePoints(s: seq<Interval>, t: seq<Interval>)
    requires multiset(s) == multiset(t)
    ensures SamePoints(s, t)
  {
    forall x
      ensures Covers(s, x) <==> Covers(t, x)
    {
      if Covers(s, x) {
        PermutationCovers(s, t, x);
      } else if Covers(t, x) {
        PermutationCovers(t, s, x);
      }
    }
  }

  lemma SplitLast(s: seq<Interval>, x: int)
    requires s != []
    ensures Covers(s, x) <==> Covers(s[..|s| - 1], x) || s[|s| - 1].start <= x < s[|s| - 1].end
  {
    CoversTake(s, |s| - 1, x);
    assert s[..|s|] == s;
  }

  function Max(a: int, b: int): int { if a >= b then a else b }
  function Min(a: int, b: int): int { if a <= b then a else b }

  /** The scan of `covered[..i]`: everything before the cursor is missing or covered. */
  ghost predicate Scanned(lo: int, hi: int, covered: seq<Interval>, i: nat, missing: seq<Interval>, cursor: int)
    requires i <= |covered|
  {
    && lo <= cursor && (cursor <= hi || cursor == lo)
    && Canonical(missing) && (missing != [] ==> missing[|missing| - 1].end < cursor)
    && (forall x :: Covers(missing, x) ==> lo <= x < cursor)
    && (forall x :: lo <= x < cursor ==> Covers(missing, x) || Covers(covered[..i], x))
    && (forall x :: lo <= x < hi && Covers(covered[..i], x) ==> x < cursor)
  }

  /** Missing points are covered neither by what was scanned nor by anything to come. */
  ghost predicate Clear(covered: seq<Interval>, i: nat, missing: seq<Interval>)
    requires i <= |covered|
  {
    forall x :: Covers(missing, x) ==> !Covers(covered[..i], x) && forall k :: i <= k < |covered| ==> x < covered[k].start
  }

  lemma ScanCovered(lo: int, hi: int, covered: seq<Interval>, i: nat, missing: seq<Interval>, cursor: int,
                    missing': seq<Interval>, cursor': int)
    requires i < |covered| && Scanned(lo, hi, covered, i, missing, cursor)
    requires var start, end := Max(covered[i].start, lo), Min(covered[i].end, hi);
             && missing' == (if end > start && start > cursor then missing + [Interval(cursor, start)] else missing)
             && cursor' == (if end > start then Max(cursor, end) else cursor)
    ensures Scanned(lo, hi, covered, i + 1, missing', cursor')
  {
    assert covered[..i + 1] == covered[..i] + [covered[i]];
    AppendCovers(covered[..i], covered[i]);
    AppendCovers(missing, Interval(cursor, Max(covered[i].start, lo)));
  }

  lemma ScanClear(lo: int, hi: int, covered: seq<Interval>, i: nat, missing: seq<Interval>, cursor: int, missing': seq<Interval>)
    requires i < |covered| && Scanned(lo, hi, covered, i, missing, cursor) && Ascending(covered) && Clear(covered, i, missing)
    requires var start, end := Max(covered[i].start, lo), Min(covered[i].end, hi);
             missing' == if end > start && start > cursor then missing + [Interval(cursor, start)] else missing
    ensures Clear(covered, i + 1, missing')
  {
    assert covered[..i + 1] == covered[..i] + [covered[i]];
    AppendCovers(covered[..i], covered[i]);
    AppendCovers(missing, Interval(cursor, Max(covered[i].start, lo)));
  }

  lemma ScanEnd(lo: int, hi: int, covered: seq<Interval>, missing: seq<Interval>, cursor: int, missing': seq<Interval>)
    requires Scanned(lo, hi, covered, |covered|, missing, cursor)
    requires missing' == if cursor < hi then missing + [Interval(cursor, hi)] else missing
    ensures Canonical(missing')
    ensures forall x :: Covers(missing', x) ==> lo <= x < hi
    ensures forall x :: lo <= x < hi && !Covers(covered, x) ==> Covers(missing', x)
    ensures Clear(covered, |covered|, missing) ==> forall x :: Covers(missing', x) ==> !Covers(covered, x)
  {
    assert covered[..|covered|] == covered;
    AppendCovers(missing, Interval(cursor, hi));
  }

  /** The missing part of a window. Whatever the order of `covered`, the result is canonical,
      lies in the window and holds every uncovered instant; when `covered` is ascending it
      holds no covered one. */
  method Complement(lo: int, hi: int, covered: seq<Interval>) returns (missing: seq<Interval>)
    ensures Canonical(missing)
    ensures forall x :: Covers(missing, x) ==> lo <= x < hi
    ensures forall x :: lo <= x < hi && !Covers(covered, x) ==> Covers(missing, x)
    ensures Ascending(covered) ==> forall x :: Covers(missing, x) ==> !Covers(covered, x)
  {
    missing := [];
    var cursor := lo;
    for i := 0 to |covered|
      invariant Scanned(lo, hi, covered, i, missing, cursor)
      invariant Ascending(covered) ==> Clear(covered, i, missing)
    {
      var start, end := Max(covered[i].start, lo), Min(covered[i].end, hi);
      ghost var next := if end > start && start > cursor then missing + [Interval(cursor, start)] else missing;
      ScanCovered(lo, hi, covered, i, missing, cursor, next, if end > start then Max(cursor, end) else cursor);
      if Ascending(covered) {
        ScanClear(lo, hi, covered, i, missing, cursor, next);
      }
      if end > start {
        if start > cursor {
          missing := missing + [Interval(cursor, start)];
        }
        cursor := Max(cursor, end);
      }
    }
    ScanEnd(lo, hi, covered, missing, cursor, if cursor < hi then missing + [Interval(cursor, hi)] else missing);
    if cursor < hi {
      missing := missing + [Interval(cursor, hi)];
    }
  }

  /** What the walk has yet to find lies in the rests of both lists. */
  ghost predicate Accounts(out: seq<Interval>, a: seq<Interval>, b: seq<Interval>, restA: seq<Interval>, restB: seq<Interval>) {
    forall x :: Covers(a, x) && Covers(b, x) <==> Covers(out, x) || (Covers(restA, x) && Covers(restB, x))
  }

  /** Dropping the interval that ends first loses nothing but its overlap with the other head. */
  lemma DropFirstEnding(a: seq<Interval>, b: seq<Interval>, i: nat, j: nat, x: int)
    requires Canonical(a) && Canonical(b) && i < |a| && j < |b| && a[i].end <= b[j].end
    ensures Covers(a[i..], x) && Covers(b[j..], x) <==>
            (Max(a[i].start, b[j].start) <= x < a[i].end) || (Covers(a[i + 1..], x) && Covers(b[j..], x))
  {
    HeadAndLater(a, i);
    HeadAndLater(b, j);
  }

  lemma AccountsOn(out: seq<Interval>, a: seq<Interval>, b: seq<Interval>, i: nat, j: nat, next: seq<Interval>)
    requires Canonical(a) && Canonical(b) && i < |a| && j < |b| && Accounts(out, a, b, a[i..], b[j..])
    requires var v := Interval(Max(a[i].start, b[j].start), Min(a[i].end, b[j].end));
             next == if v.start < v.end then out + [v] else out
    ensures if a[i].end <= b[j].end then Accounts(next, a, b, a[i + 1..], b[j..]) else Accounts(next, a, b, a[i..], b[j + 1..])
  {
    var v := Interval(Max(a[i].start, b[j].start), Min(a[i].end, b[j].end));
    AppendCovers(out, v);
    forall x
      ensures Covers(a, x) && Covers(b, x) <==>
              Covers(next, x) || (if a[i].end <= b[j].end then Covers(a[i + 1..], x) && Covers(b[j..], x)
                                  else Covers(a[i..], x) && Covers(b[j + 1..], x))
    {
      if a[i].end <= b[j].end {
        DropFirstEnding(a, b, i, j, x);
      } else {
        DropFirstEnding(b, a, j, i, x);
      }
    }
  }

  ghost predicate ClearOf(out: seq<Interval>, start: int) {
    out != [] ==> out[|out| - 1].end < start
  }

  /** The walk at positions `i` and `j`: canonical so far, clear of what comes, nothing lost. */
  ghost predicate Walked(out: seq<Interval>, a: seq<Interval>, b: seq<Interval>, i: nat, j: nat) {
    && i <= |a| && j <= |b|
    && Canonical(out)
    && (i < |a| && j < |b| ==> ClearOf(out, Max(a[i].start, b[j].start)))
    && Accounts(out, a, b, a[i..], b[j..])
  }

  /** The next common part keeps the list canonical and clear of what comes after it. */
  lemma WalkCanonical(out: seq<Interval>, v: Interval)
    requires Canonical(out) && v.start < v.end && (out != [] ==> out[|out| - 1].end < v.start)
    ensures Canonical(out + [v]) && (out + [v])[|out|] == v
  {
  }

  lemma WalkOn(out: seq<Interval>, a: seq<Interval>, b: seq<Interval>, i: nat, j: nat, next: seq<Interval>)
    requires Canonical(a) && Canonical(b) && i < |a| && j < |b| && Walked(out, a, b, i, j)
    requires var v := Interval(Max(a[i].start, b[j].start), Min(a[i].end, b[j].end));
             next == if v.start < v.end then out + [v] else out
    ensures if a[i].end <= b[j].end then Walked(next, a, b, i + 1, j) else Walked(next, a, b, i, j + 1)
  {
    var v := Interval(Max(a[i].start, b[j].start), Min(a[i].end, b[j].end));
    if v.start < v.end {
      WalkCanonical(out, v);
    }
    assert i + 1 < |a| ==> a[i].end < a[i + 1].start;
    assert j + 1 < |b| ==> b[j].end < b[j + 1].start;
    AccountsOn(out, a, b, i, j, next);
  }

  lemma WalkEnds(out: seq<Interval>, a: seq<Interval>, b: seq<Interval>, i: nat, j: nat)
    requires Walked(out, a, b, i, j) && (i == |a| || j == |b|)
    ensures forall x :: Covers(out, x) <==> Covers(a, x) && Covers(b, x)
  {
  }

  lemma WalkStart(a: seq<Interval>, b: seq<Interval>)
    ensures Walked([], a, b, 0, 0)
  {
    assert a[0..] == a && b[0..] == b;
  }

  /** The overlap of the two heads, if there is one, is appended. */
  method Overlap(out: seq<Interval>, v: Interval, w: Interval) returns (next: seq<Interval>)
    ensures var o := Interval(Max(v.start, w.start), Min(v.end, w.end)); next == if o.start < o.end then out + [o] else out
  {
    var start, end := Max(v.start, w.start), Min(v.end, w.end);
    next := out;
    if start < end {
      next := out + [Interval(start, end)];
    }
  }

  /** The common part of two canonical lists, again canonical. */
  method Intersect(a: seq<Interval>, b: seq<Interval>) returns (out: seq<Interval>)
    requires Canonical(a) && Canonical(b)
    ensures Canonical(out)
    ensures forall x :: Covers(out, x) <==> Covers(a, x) && Covers(b, x)
  {
    out := [];
    var i, j := 0, 0;
    WalkStart(a, b);
    while i < |a| && j < |b|
      invariant Walked(out, a, b, i, j)
      decreases |a| + |b| - i - j
    {
      var next := Overlap(out, a[i], b[j]);
      WalkOn(out, a, b, i, j, next);
      out := next;
      if a[i].end <= b[j].end {
        i := i + 1;
      } else {
        j := j + 1;
      }
    }
    WalkEnds(out, a, b, i, j);
  }

  lemma HeadAndLater(s: seq<Interval>, i: nat)
    requires Canonical(s) && i < |s|
    ensures forall x :: Covers(s[i..], x) <==> s[i].start <= x < s[i].end || Covers(s[i + 1..], x)
    ensures var later := s[i + 1..]; forall x :: Covers(later, x) ==> x > s[i].end
  {
    forall x
      ensures Covers(s[i..], x) <==> s[i].start <= x < s[i].end || Covers(s[i + 1..], x)
    {
      CoversDrop(s, i, x);
    }
  }

  // ------------------------------------------------------------------ length

  function Length(s: seq<Interval>): int {
    if s == [] then 0 else s[0].end - s[0].start + Length(s[1..])
  }

  ghost predicate Within(x: int, lo: int, hi: int) { lo <= x < hi }

  ghost function Span(lo: int, hi: int): set<int> {
    set x | lo <= x < hi && Within(x, lo, hi)
  }

  lemma {:induction false} SpanSize(lo: int, hi: int)
    requires lo <= hi
    ensures |Span(lo, hi)| == hi - lo
    decreases hi - lo
  {
    if lo < hi {
      SpanSize(lo + 1, hi);
      assert Span(lo, hi) == {lo} + Span(lo + 1, hi);
    } else {
      assert Span(lo, hi) == {};
    }
  }

  ghost function Points(s: seq<Interval>): set<int> {
    if s == [] then {} else Span(s[0].start, s[0].end) + Points(s[1..])
  }

  lemma {:induction false} PointsMeaning(s: seq<Interval>, x: int)
    ensures x in Points(s) <==> Covers(s, x)
  {
    if s != [] {
      PointsMeaning(s[1..], x);
      CoversDrop(s, 0, x);
      assert s[0..] == s;
    }
  }

  lemma {:induction false} LengthCountsPoints(s: seq<Interval>)
    requires Canonical(s)
    ensures |Points(s)| == Length(s)
  {
    if s != [] {
      LengthCountsPoints(s[1..]);
      SpanSize(s[0].start, s[0].end);
      forall x | x in Points(s[1..])
        ensures x !in Span(s[0].start, s[0].end)
      {
        PointsMeaning(s[1..], x);
        CanonicalTail(s, x);
      }
      assert Points(s) == Span(s[0].start, s[0].end) + Points(s[1..]);
      assert Span(s[0].start, s[0].end) !! Points(s[1..]);
    }
  }

  /** Conservation: what is covered and what is missing add up to the window. */
  lemma LengthsAddUp(lo: int, hi: int, covered: seq<Interval>, missing: seq<Interval>)
    requires lo <= hi && Canonical(covered) && Canonical(missing)
    requires forall x :: Covers(covered, x) ==> lo <= x < hi
    requires forall x :: Covers(missing, x) <==> lo <= x < hi && !Covers(covered, x)
    ensures Length(covered) + Length(missing) == hi - lo
  {
    LengthCountsPoints(covered);
    LengthCountsPoints(missing);
    SpanSize(lo, hi);
    forall x
      ensures x in Points(covered) <==> Covers(covered, x)
      ensures x in Points(missing) <==> Covers(missing, x)
    {
      PointsMeaning(covered, x);
      PointsMeaning(missing, x);
    }
    assert Points(covered) + Points(missing) == Span(lo, hi);
    assert Points(covered) !! Points(missing);
  }

  // ------------------------------------------------------------------ laws

  /** `m` is the complement of `s` in the window. */
  ghost predicate IsComplementOf(m: seq<Interval>, lo: int, hi: int, s: seq<Interval>) {
    Canonical(m) && forall x :: Covers(m, x) <==> lo <= x < hi && !Covers(s, x)
  }

  /** The parts of `s` that reach into the window, clipped to it. */
  function Clip(s: seq<Interval>, lo: int, hi: int): seq<Interval> {
    if s == [] then []
    else
      var v := s[|s| - 1];
      var front := Clip(s[..|s| - 1], lo, hi);
      if Min(v.end, hi) > Max(v.start, lo) then front + [Interval(Max(v.start, lo), Min(v.end, hi))] else front
  }

  lemma {:induction false} ClipMeaning(s: seq<Interval>, lo: int, hi: int, x: int)
    ensures Covers(Clip(s, lo, hi), x) <==> lo <= x < hi && Covers(s, x)
  {
    if s != [] {
      var n := |s| - 1;
      var v := s[n];
      ClipMeaning(s[..n], lo, hi, x);
      AppendCovers(Clip(s[..n], lo, hi), Interval(Max(v.start, lo), Min(v.end, hi)));
      AppendCovers(s[..n], v);
      assert s == s[..n] + [v];
    }
  }

  /** Complementing any list twice in a window gives the canonical form of its clipped part. */
  lemma DoubleComplement(lo: int, hi: int, s: seq<Interval>, once: seq<Interval>, twice: seq<Interval>)
    requires IsComplementOf(once, lo, hi, s) && IsComplementOf(twice, lo, hi, once)
    ensures IsMergeOf(twice, Clip(s, lo, hi))
  {
    forall x
      ensures Covers(twice, x) <==> Covers(Clip(s, lo, hi), x)
    {
      ClipMeaning(s, lo, hi, x);
    }
  }

  /** So a canonical list inside the window comes back unchanged. */
  lemma DoubleComplementInside(lo: int, hi: int, s: seq<Interval>, once: seq<Interval>, twice: seq<Interval>)
    requires Canonical(s) && (forall x :: Covers(s, x) ==> lo <= x < hi)
    requires IsComplementOf(once, lo, hi, s) && IsComplementOf(twice, lo, hi, once)
    ensures twice == s
  {
    DoubleComplement(lo, hi, s, once, twice);
    forall x
      ensures Covers(Clip(s, lo, hi), x) <==> Covers(s, x)
    {
      ClipMeaning(s, lo, hi, x);
    }
    CanonicalUnique(twice, s);
  }

  /** De Morgan: the complement of an intersection is the merge of the complements. */
  lemma DeMorgan(lo: int, hi: int, a: seq<Interval>, b: seq<Interval>, c: seq<Interval>, all: seq<Interval>,
                 ma: seq<Interval>, mb: seq<Interval>, mc: seq<Interval>, missing: seq<Interval>)
    requires forall x :: Covers(all, x) <==> Covers(a, x) && Covers(b, x) && Covers(c, x)
    requires IsComplementOf(ma, lo, hi, a) && IsComplementOf(mb, lo, hi, b) && IsComplementOf(mc, lo, hi, c)
    requires IsComplementOf(missing, lo, hi, all)
    ensures IsMergeOf(missing, ma + mb + mc)
  {
    forall x
      ensures Covers(missing, x) <==> Covers(ma + mb + mc, x)
    {
      CoversConcat(ma + mb, mc, x);
      CoversConcat(ma, mb, x);
    }
  }
}
