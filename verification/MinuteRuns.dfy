/** Minute-gap cells: 'HH:MM' labels printed as runs 'HH:MM-HH:MM (n)'. The printed text is
    compared as if it were the list; here it has a reader that gives the list back. */
module MinuteRuns {
  import opened Prelude
  import opened Decimal

  datatype Run = Run(from: int, to: int)

  predicate InDay(m: int) { 0 <= m < 1440 }

  predicate AllInDay(mins: seq<int>) { forall i :: 0 <= i < |mins| ==> InDay(mins[i]) }

  // ------------------------------------------------------------------ labels

  function DigitChar(d: Digit): char { (48 + d as int) as char }

  function Label(m: int): (s: string)
    requires InDay(m)
    ensures |s| == 5
  {
    var h, r := m / 60, m % 60;
    [DigitChar(h / 10), DigitChar(h % 10), ':', DigitChar(r / 10), DigitChar(r % 10)]
  }

  predicate IsDigit(c: char) { '0' <= c <= '9' }

  function DigitOf(c: char): int
    requires IsDigit(c)
  {
    c as int - 48
  }

  /** The 'HH:MM' strings of a day. */
  predicate IsLabel(s: string) {
    && |s| == 5 && IsDigit(s[0]) && IsDigit(s[1]) && s[2] == ':' && IsDigit(s[3]) && IsDigit(s[4])
    && DigitOf(s[0]) * 10 + DigitOf(s[1]) < 24 && DigitOf(s[3]) < 6
  }

  function MinuteOf(s: string): (m: int)
    requires IsLabel(s)
    ensures InDay(m)
  {
    (DigitOf(s[0]) * 10 + DigitOf(s[1])) * 60 + DigitOf(s[3]) * 10 + DigitOf(s[4])
  }

  lemma LabelRoundTrip(m: int)
    requires InDay(m)
    ensures IsLabel(Label(m)) && MinuteOf(Label(m)) == m
  {
  }

  lemma MinuteRoundTrip(s: string)
    requires IsLabel(s)
    ensures Label(MinuteOf(s)) == s
  {
    var a, b, c, d := DigitOf(s[0]), DigitOf(s[1]), DigitOf(s[3]), DigitOf(s[4]);
    var m := MinuteOf(s);
    assert m == 60 * (10 * a + b) + (10 * c + d);
    assert m / 60 == 10 * a + b && m % 60 == 10 * c + d;
    assert (10 * a + b) / 10 == a && (10 * a + b) % 10 == b;
    assert (10 * c + d) / 10 == c && (10 * c + d) % 10 == d;
  }

  function Minutes(labels: seq<string>): (r: seq<int>)
    requires forall i :: 0 <= i < |labels| ==> IsLabel(labels[i])
    ensures |r| == |labels| && AllInDay(r)
    ensures forall i :: 0 <= i < |labels| ==> r[i] == MinuteOf(labels[i])
  {
    seq(|labels|, i requires 0 <= i < |labels| => MinuteOf(labels[i]))
  }

  // ------------------------------------------------------------------ runs

  function Range(a: int, b: int): seq<int>
    decreases b - a
  {
    if a > b then [] else [a] + Range(a + 1, b)
  }

  function Expand(runs: seq<Run>): seq<int> {
    if runs == [] then [] else Range(runs[0].from, runs[0].to) + Expand(runs[1..])
  }

  /** One more minute extends the last run or begins a new one. */
  function AddMinute(runs: seq<Run>, m: int): (r: seq<Run>)
    ensures r != []
  {
    if runs != [] && runs[|runs| - 1].to + 1 == m then runs[..|runs| - 1] + [Run(runs[|runs| - 1].from, m)]
    else runs + [Run(m, m)]
  }

  /** Greedy runs of consecutive minutes. */
  function Runs(mins: seq<int>): (r: seq<Run>)
    ensures r == [] <==> mins == []
  {
    if mins == [] then [] else AddMinute(Runs(mins[..|mins| - 1]), mins[|mins| - 1])
  }

  predicate Printable(r: Run) { InDay(r.from) && InDay(r.to) && r.from <= r.to }

  predicate AllPrintable(runs: seq<Run>) { forall i :: 0 <= i < |runs| ==> Printable(runs[i]) }

  lemma AddMinutePrintable(runs: seq<Run>, m: int)
    requires AllPrintable(runs) && InDay(m)
    ensures AllPrintable(AddMinute(runs, m))
  {
    if runs != [] {
      assert Printable(runs[|runs| - 1]);
    }
  }

  lemma {:induction false} RunsArePrintable(mins: seq<int>)
    requires AllInDay(mins)
    ensures AllPrintable(Runs(mins))
  {
    if mins != [] {
      RunsArePrintable(mins[..|mins| - 1]);
      AddMinutePrintable(Runs(mins[..|mins| - 1]), mins[|mins| - 1]);
    }
  }

  lemma {:induction false} ExpandSnoc(runs: seq<Run>, r: Run)
    ensures Expand(runs + [r]) == Expand(runs) + Range(r.from, r.to)
  {
    if runs == [] {
      assert [] + [r] == [r];
      assert [r][1..] == [];
    } else {
      ExpandSnoc(runs[1..], r);
      var all := runs + [r];
      assert all[0] == runs[0] && all[1..] == runs[1..] + [r];
      Regroup(Range(runs[0].from, runs[0].to), Expand(runs[1..]), Range(r.from, r.to));
    }
  }

  lemma Regroup(a: seq<int>, b: seq<int>, c: seq<int>)
    ensures a + (b + c) == (a + b) + c
  {
  }

  lemma {:induction false} RangeGrows(a: int, b: int)
    requires a <= b + 1
    ensures Range(a, b + 1) == Range(a, b) + [b + 1]
    decreases b - a
  {
    if a <= b {
      RangeGrows(a + 1, b);
    } else {
      assert Range(a + 1, b + 1) == [];
    }
  }

  ghost predicate Forward(runs: seq<Run>) { forall i :: 0 <= i < |runs| ==> runs[i].from <= runs[i].to }

  lemma ExpandAddMinute(runs: seq<Run>, m: int)
    requires Forward(runs)
    ensures Expand(AddMinute(runs, m)) == Expand(runs) + [m] && Forward(AddMinute(runs, m))
  {
    if runs != [] && runs[|runs| - 1].to + 1 == m {
      var before, last := runs[..|runs| - 1], runs[|runs| - 1];
      assert runs == before + [last];
      ExpandSnoc(before, last);
      ExpandSnoc(before, Run(last.from, m));
      RangeGrows(last.from, last.to);
    } else {
      ExpandSnoc(runs, Run(m, m));
      RangeGrows(m, m - 1);
      assert Range(m, m - 1) == [];
    }
  }

  ghost predicate Lossless(runs: seq<Run>, mins: seq<int>) {
    Forward(runs) && Expand(runs) == mins
  }

  lemma LosslessStep(runs: seq<Run>, mins: seq<int>, m: int)
    requires Lossless(runs, mins)
    ensures Lossless(AddMinute(runs, m), mins + [m])
  {
    ExpandAddMinute(runs, m);
  }

  /** Expanding the runs gives the list back. */
  lemma {:induction false} RunsAreLossless(mins: seq<int>)
    ensures Lossless(Runs(mins), mins)
  {
    if mins != [] {
      var front, m := mins[..|mins| - 1], mins[|mins| - 1];
      RunsAreLossless(front);
      LosslessStep(Runs(front), front, m);
      assert mins == front + [m];
    }
  }

  ghost predicate Maximal(runs: seq<Run>) {
    forall i, j :: 0 <= i && j == i + 1 && j < |runs| ==> runs[j].from != runs[i].to + 1
  }

  lemma AddMinuteMaximal(runs: seq<Run>, m: int)
    requires Maximal(runs)
    ensures Maximal(AddMinute(runs, m))
  {
    var all := AddMinute(runs, m);
    forall i, j | 0 <= i && j == i + 1 && j < |all|
      ensures all[j].from != all[i].to + 1
    {
      assert all[i] == runs[i];
      if j < |runs| {
        assert all[j].from == runs[j].from;
      }
    }
  }

  /** No two neighbouring runs could be joined. */
  lemma {:induction false} RunsAreMaximal(mins: seq<int>)
    ensures Maximal(Runs(mins))
  {
    if mins != [] {
      RunsAreMaximal(mins[..|mins| - 1]);
      AddMinuteMaximal(Runs(mins[..|mins| - 1]), mins[|mins| - 1]);
    }
  }

  // ------------------------------------------------------------------ text

  function Number(n: nat): (s: string)
    ensures forall i :: 0 <= i < |s| ==> IsDigit(s[i])
  {
    var ds := Digits(n);
    seq(|ds|, i requires 0 <= i < |ds| => DigitChar(ds[i]))
  }

  function RunText(r: Run): string
    requires Printable(r)
  {
    if r.from == r.to then Label(r.from)
    else Label(r.from) + "-" + Label(r.to) + " (" + Number(r.to - r.from + 1) + ")"
  }

  function Join(runs: seq<Run>): string
    requires AllPrintable(runs)
  {
    if runs == [] then ""
    else if |runs| == 1 then RunText(runs[0])
    else RunText(runs[0]) + ", " + Join(runs[1..])
  }

  /** The runs after one more minute, when the last run so far is `[a, p]`. */
  lemma RunsStep(mins: seq<int>, i: nat, done: seq<Run>, a: int)
    requires i + 1 < |mins| && Runs(mins[..i + 1]) == done + [Run(a, mins[i])]
    ensures Runs(mins[..i + 2]) ==
            if mins[i + 1] == mins[i] + 1 then done + [Run(a, mins[i + 1])]
            else done + [Run(a, mins[i])] + [Run(mins[i + 1], mins[i + 1])]
  {
    assert mins[..i + 2][..i + 1] == mins[..i + 1];
    var front := done + [Run(a, mins[i])];
    assert front[..|front| - 1] == done;
  }

  lemma RunsStart(mins: seq<int>)
    requires mins != []
    ensures Runs(mins[..1]) == [] + [Run(mins[0], mins[0])]
  {
    assert mins[..1][..0] == [];
  }

  /** The loop at minute `i`: the runs ended so far, their texts, and the open run `[a, mins[i]]`. */
  ghost predicate Compressing(mins: seq<int>, i: nat, done: seq<Run>, a: int, parts: seq<string>) {
    && i < |mins| && InDay(a) && a <= mins[i] && InDay(mins[i])
    && Runs(mins[..i + 1]) == done + [Run(a, mins[i])]
    && AllPrintable(done) && parts == Texts(done)
  }

  lemma CompressStep(mins: seq<int>, i: nat, done: seq<Run>, a: int, parts: seq<string>)
    requires Compressing(mins, i, done, a, parts) && i + 1 < |mins| && InDay(mins[i + 1])
    ensures if mins[i + 1] == mins[i] + 1 then Compressing(mins, i + 1, done, a, parts)
            else Compressing(mins, i + 1, done + [Run(a, mins[i])], mins[i + 1], parts + [RunText(Run(a, mins[i]))])
  {
    RunsStep(mins, i, done, a);
    TextsSnoc(done, Run(a, mins[i]));
  }

  lemma CompressEnd(mins: seq<int>, i: nat, done: seq<Run>, a: int, parts: seq<string>)
    requires Compressing(mins, i, done, a, parts) && i + 1 == |mins|
    ensures AllPrintable(Runs(mins)) && JoinParts(parts + [RunText(Run(a, mins[i]))]) == Join(Runs(mins))
  {
    assert mins[..i + 1] == mins;
    TextsSnoc(done, Run(a, mins[i]));
    JoinIsJoin(done + [Run(a, mins[i])]);
  }

  /** The text of a non-empty label list, built in one pass as the runs end. */
  method CompressMinutes(labels: seq<string>) returns (text: string)
    requires labels != [] && forall i :: 0 <= i < |labels| ==> IsLabel(labels[i])
    ensures AllPrintable(Runs(Minutes(labels))) && text == Join(Runs(Minutes(labels)))
  {
    var mins := Minutes(labels);
    ghost var done: seq<Run> := [];
    var parts: seq<string> := [];
    var a := mins[0];
    var i := 0;
    RunsStart(mins);
    while i + 1 < |mins|
      invariant Compressing(mins, i, done, a, parts)
      decreases |mins| - i
    {
      CompressStep(mins, i, done, a, parts);
      var p, q := mins[i], mins[i + 1];
      if q != p + 1 {
        parts := parts + [RunText(Run(a, p))];
        done := done + [Run(a, p)];
        a := q;
      }
      i := i + 1;
    }
    // The last minute has no successor, so its run ends.
    CompressEnd(mins, i, done, a, parts);
    text := JoinParts(parts + [RunText(Run(a, mins[i]))]);
  }

  function Texts(runs: seq<Run>): (r: seq<string>)
    requires AllPrintable(runs)
    ensures |r| == |runs| && forall i :: 0 <= i < |runs| ==> r[i] == RunText(runs[i])
  {
    seq(|runs|, i requires 0 <= i < |runs| => RunText(runs[i]))
  }

  lemma TextsSnoc(runs: seq<Run>, r: Run)
    requires AllPrintable(runs) && Printable(r)
    ensures AllPrintable(runs + [r]) && Texts(runs + [r]) == Texts(runs) + [RunText(r)]
  {
  }

  function JoinParts(parts: seq<string>): string {
    if parts == [] then ""
    else if |parts| == 1 then parts[0]
    else parts[0] + ", " + JoinParts(parts[1..])
  }

  lemma {:induction false} JoinIsJoin(runs: seq<Run>)
    requires AllPrintable(runs)
    ensures JoinParts(Texts(runs)) == Join(runs)
  {
    if |runs| > 1 {
      JoinIsJoin(runs[1..]);
      assert Texts(runs)[1..] == Texts(runs[1..]);
    }
  }

  // ------------------------------------------------------------------ the reader

  ghost function UpToClose(s: string): (n: nat)
    ensures n <= |s| && (forall i :: 0 <= i < n ==> s[i] != ')') && (n < |s| ==> s[n] == ')')
  {
    if s == "" || s[0] == ')' then 0 else 1 + UpToClose(s[1..])
  }

  /** One run and the text after it. */
  ghost function ReadRun(s: string): Option<(Run, string)> {
    if |s| < 5 || !IsLabel(s[..5]) then None
    else
      var a := MinuteOf(s[..5]);
      if |s| >= 11 && s[5] == '-' && IsLabel(s[6..11]) then
        var n := UpToClose(s[11..]);
        if 11 + n == |s| then None else Some((Run(a, MinuteOf(s[6..11])), s[12 + n..]))
      else Some((Run(a, a), s[5..]))
  }

  /** The minutes a cell's text stands for. */
  ghost function ReadCell(s: string): Option<seq<int>>
    decreases |s|
  {
    match ReadRun(s)
    case None => None
    case Some((r, rest)) =>
      if rest == "" then Some(Range(r.from, r.to))
      else if |rest| <= 2 || rest[..2] != ", " || |rest| > |s| then None
      else
        match ReadCell(rest[2..])
        case None => None
        case Some(more) => Some(Range(r.from, r.to) + more)
  }

  lemma UpToCloseStops(a: string, b: string)
    requires ')' !in a
    ensures UpToClose(a + ")" + b) == |a|
  {
    var s := a + ")" + b;
    assert s[|a|] == ')' && forall i :: 0 <= i < |a| ==> s[i] == a[i];
  }

  lemma ReadsSingle(m: int, rest: string)
    requires InDay(m) && (rest == "" || rest[0] == ',')
    ensures ReadRun(Label(m) + rest) == Some((Run(m, m), rest))
  {
    var s := Label(m) + rest;
    LabelRoundTrip(m);
    assert s[..5] == Label(m) && s[5..] == rest;
  }

  lemma ReadsItsRun(r: Run, rest: string)
    requires Printable(r) && (rest == "" || rest[0] == ',')
    ensures ReadRun(RunText(r) + rest) == Some((r, rest))
  {
    if r.from == r.to {
      ReadsSingle(r.from, rest);
    } else {
      var inner := " (" + Number(r.to - r.from + 1);
      assert RunText(r) + rest == Label(r.from) + "-" + Label(r.to) + (inner + ")" + rest);
      ReadsRange(r.from, r.to, inner, rest);
    }
  }

  lemma ReadsRange(a: int, b: int, inner: string, rest: string)
    requires InDay(a) && InDay(b) && ')' !in inner
    ensures ReadRun(Label(a) + "-" + Label(b) + (inner + ")" + rest)) == Some((Run(a, b), rest))
  {
    var tail := inner + ")" + rest;
    var s := Label(a) + "-" + Label(b) + tail;
    LabelRoundTrip(a);
    LabelRoundTrip(b);
    assert s[..5] == Label(a) && s[6..11] == Label(b) && s[11..] == tail;
    UpToCloseStops(inner, rest);
    assert s[12 + |inner|..] == tail[1 + |inner|..] == rest;
  }

  lemma JoinHead(runs: seq<Run>)
    requires AllPrintable(runs) && runs != []
    ensures |Join(runs)| >= 5 && IsDigit(Join(runs)[0])
  {
    LabelRoundTrip(runs[0].from);
    assert RunText(runs[0])[0] == Label(runs[0].from)[0];
    assert Join(runs)[0] == RunText(runs[0])[0];
  }

  lemma ReadsLastRun(r: Run)
    requires Printable(r)
    ensures ReadCell(RunText(r)) == Some(Range(r.from, r.to))
  {
    assert RunText(r) == RunText(r) + "";
    ReadsItsRun(r, "");
  }

  lemma ReadsRunAndMore(r: Run, text: string)
    requires Printable(r) && |text| >= 5
    ensures ReadCell(RunText(r) + ", " + text) ==
            match ReadCell(text) { case None => None case Some(more) => Some(Range(r.from, r.to) + more) }
  {
    var rest := ", " + text;
    assert RunText(r) + ", " + text == RunText(r) + rest;
    ReadsItsRun(r, rest);
    assert rest[..2] == ", " && rest[2..] == text;
  }

  lemma {:induction false} ReadsItsText(runs: seq<Run>)
    requires AllPrintable(runs) && runs != []
    ensures ReadCell(Join(runs)) == Some(Expand(runs))
  {
    if |runs| == 1 {
      ReadsLastRun(runs[0]);
      assert runs[1..] == [];
      assert Expand(runs) == Range(runs[0].from, runs[0].to);
    } else {
      ReadsItsText(runs[1..]);
      JoinHead(runs[1..]);
      ReadsRunAndMore(runs[0], Join(runs[1..]));
    }
  }

  /** Printing is lossless: reading the compressed text gives back the minutes. */
  lemma CompressionIsLossless(mins: seq<int>)
    requires mins != [] && AllInDay(mins)
    ensures AllPrintable(Runs(mins)) && ReadCell(Join(Runs(mins))) == Some(mins)
  {
    RunsArePrintable(mins);
    ReadsItsText(Runs(mins));
    RunsAreLossless(mins);
  }

  // ------------------------------------------------------------------ comparing cells

  method GapCell(labels: seq<string>) returns (cell: string)
    requires forall i :: 0 <= i < |labels| ==> IsLabel(labels[i])
    ensures cell == CellOf(Minutes(labels))
    ensures labels == [] ==> cell == "none"
  {
    if labels == [] {
      return "none";
    }
    cell := CompressMinutes(labels);
  }

  function CellOf(mins: seq<int>): string
    requires AllInDay(mins)
  {
    if mins == [] then "none" else RunsArePrintable(mins); Join(Runs(mins))
  }

  /** Two cells are the same text exactly when the two gap lists are identical. */
  lemma SameCellSameGaps(a: seq<int>, b: seq<int>)
    requires AllInDay(a) && AllInDay(b)
    ensures CellOf(a) == CellOf(b) <==> a == b
  {
    if a != [] {
      CompressionIsLossless(a);
      JoinHead(Runs(a));
    }
    if b != [] {
      CompressionIsLossless(b);
      JoinHead(Runs(b));
    }
    assert !IsDigit("none"[0]);
  }

  /** The missing minutes of a day, ascending. */
  function GapMinutes(have: set<int>, n: nat): (r: seq<int>)
    requires n <= 1440
    ensures AllInDay(r)
  {
    if n == 0 then []
    else if n - 1 in have then GapMinutes(have, n - 1)
    else GapMinutes(have, n - 1) + [n - 1]
  }

  lemma {:induction false} GapMinutesMeaning(have: set<int>, n: nat, m: int)
    requires n <= 1440
    ensures m in GapMinutes(have, n) <==> 0 <= m < n && m !in have
  {
    if n > 0 {
      GapMinutesMeaning(have, n - 1, m);
    }
  }

  lemma {:induction false} SameGaps(a: set<int>, b: set<int>, n: nat)
    requires n <= 1440 && forall m :: 0 <= m < n ==> (m in a <==> m in b)
    ensures GapMinutes(a, n) == GapMinutes(b, n)
  {
    if n > 0 {
      SameGaps(a, b, n - 1);
    }
  }

  /** A day's recorded cell matches exactly when the same minutes of the day are present. */
  lemma DayAcceptedExactly(have: set<int>, recorded: set<int>)
    ensures CellOf(GapMinutes(have, 1440)) == CellOf(GapMinutes(recorded, 1440)) <==>
            forall m :: 0 <= m < 1440 ==> (m in have <==> m in recorded)
  {
    SameCellSameGaps(GapMinutes(have, 1440), GapMinutes(recorded, 1440));
    if GapMinutes(have, 1440) == GapMinutes(recorded, 1440) {
      forall m | 0 <= m < 1440
        ensures m in have <==> m in recorded
      {
        GapMinutesMeaning(have, 1440, m);
        GapMinutesMeaning(recorded, 1440, m);
      }
    }
    if forall m :: 0 <= m < 1440 ==> (m in have <==> m in recorded) {
      SameGaps(have, recorded, 1440);
    }
  }

  // ------------------------------------------------------------------ the printed text

  lemma {:induction false} RangeSize(a: int, b: int)
    requires a <= b + 1
    ensures |Range(a, b)| == b - a + 1
    decreases b - a
  {
    if a <= b {
      RangeSize(a + 1, b);
    }
  }

  /** A run of several minutes prints its first label, its last label and, in decimal, how many
      minutes it expands to. */
  lemma PrintedRun(r: Run)
    requires Printable(r) && r.from < r.to
    ensures var s, ds := RunText(r), Digits(|Range(r.from, r.to)|);
            && |s| == 14 + |ds| && s[..5] == Label(r.from) && s[5] == '-' && s[6..11] == Label(r.to)
            && s[11..13] == " (" && s[13 + |ds|] == ')'
            && (forall i :: 0 <= i < |ds| ==> s[13 + i] as int == 48 + ds[i] as int)
  {
    RangeSize(r.from, r.to);
    NumberDigits(r.to - r.from + 1);
    Pieces(Label(r.from), Label(r.to), Number(r.to - r.from + 1));
  }

  lemma NumberDigits(n: nat)
    ensures |Number(n)| == |Digits(n)| && forall i :: 0 <= i < |Digits(n)| ==> Number(n)[i] as int == 48 + Digits(n)[i] as int
  {
  }

  lemma Pieces(a: string, b: string, n: string)
    requires |a| == 5 && |b| == 5
    ensures var s := a + "-" + b + " (" + n + ")";
            && |s| == 14 + |n| && s[..5] == a && s[5] == '-' && s[6..11] == b && s[11..13] == " (" && s[13 + |n|] == ')'
            && (forall i :: 0 <= i < |n| ==> s[13 + i] == n[i])
  {
  }

  /** The first five minutes of a day and the last one. */
  lemma PrintedDay()
    ensures AllPrintable([Run(0, 4), Run(1439, 1439)]) && Join([Run(0, 4), Run(1439, 1439)]) == "00:00-00:04 (5), 23:59"
  {
    PrintedFive();
    PrintedLast();
    assert [Run(0, 4), Run(1439, 1439)][1..] == [Run(1439, 1439)];
  }

  lemma PrintedFive()
    ensures RunText(Run(0, 4)) == "00:00-00:04 (5)"
  {
    assert Label(0) == "00:00";
    assert Label(4) == "00:04";
    assert Number(5) == "5" by {
      assert Digits(5) == [5];
    }
  }

  lemma PrintedLast()
    ensures RunText(Run(1439, 1439)) == "23:59"
  {
  }
}
