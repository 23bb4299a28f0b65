/** Rule coverage, proof status and the verdict on one branch. Coverage-only evidence from a
    second venue is shown in the proof matrix but can never verify anything. */
module BranchVerdict {
  import opened Prelude

  datatype Side = LONG | SHORT
  datatype Window = IN_WINDOW | OUT_OF_WINDOW
  datatype Scope = ANY | ONLY(side: Side) | BOTH
  datatype Rule = Rule(name: string, scope: Scope)
  datatype Cell = Cell(side: Side, window: Window)

  /** What a scan exercised: a rule, on a side or on any, in a window. */
  datatype Hit = Hit(rule: string, side: Option<Side>, window: Window)

  datatype CellStatus = EXERCISED | NOT_EXERCISED | NOT_APPLICABLE | SYNTHETIC_PROVEN | COVERAGE_ONLY_EXERCISED

  /** A cell of the coverage matrix: its status and how many scans hit it. */
  datatype Coverage = Coverage(status: CellStatus, scans: nat)
  datatype CoverageRow = CoverageRow(scope: Scope, cells: map<Cell, Coverage>)

  type Matrix = map<string, CoverageRow>
  type Proof = map<string, map<Cell, CellStatus>>

  datatype Blocker = GateNotPassed(gate: string, outcome: string) | Mismatches | CoverageGap(rule: string, cell: Cell, status: CellStatus)

  const PASS := "PASS"
  const SIDES := [LONG, SHORT]
  const WINDOWS := [IN_WINDOW, OUT_OF_WINDOW]

  ghost predicate UniqueNames(rules: seq<Rule>) {
    forall i, j :: 0 <= i < j < |rules| ==> rules[i].name != rules[j].name
  }

  // ------------------------------------------------------------------ statuses

  predicate Applies(scope: Scope, side: Side) {
    scope == ANY || scope == BOTH || scope == ONLY(side)
  }

  function HitsOf(hits: map<Hit, nat>, rule: Rule, cell: Cell): nat {
    var key := Hit(rule.name, if rule.scope == ANY then None else Some(cell.side), cell.window);
    if key in hits then hits[key] else 0
  }

  function CoverageOf(hits: map<Hit, nat>, rule: Rule, cell: Cell): Coverage {
    if !Applies(rule.scope, cell.side) then Coverage(NOT_APPLICABLE, 0)
    else Coverage(if HitsOf(hits, rule, cell) > 0 then EXERCISED else NOT_EXERCISED, HitsOf(hits, rule, cell))
  }

  function ProofStatus(st: CellStatus, rule: string, cell: Cell, synthetic: set<string>, gaps: Option<set<(string, Cell)>>): CellStatus {
    if st == NOT_EXERCISED && rule in synthetic then SYNTHETIC_PROVEN
    else if st == NOT_EXERCISED && gaps.Some? && (rule, cell) !in gaps.value then COVERAGE_ONLY_EXERCISED
    else st
  }

  predicate Counts(st: CellStatus) {
    st == EXERCISED || st == SYNTHETIC_PROVEN || st == NOT_APPLICABLE
  }

  // ------------------------------------------------------------------ the matrices

  ghost predicate Named(rules: seq<Rule>, n: nat, name: string)
    requires n <= |rules|
  {
    exists i :: 0 <= i < n && rules[i].name == name
  }

  lemma NamedNext(rules: seq<Rule>, n: nat, name: string)
    requires n < |rules|
    ensures Named(rules, n + 1, name) <==> Named(rules, n, name) || rules[n].name == name
  {
    if i :| 0 <= i < n && rules[i].name == name {
      assert i < n + 1;
    }
  }

  ghost predicate IsCoverageRow(row: CoverageRow, rule: Rule, hits: map<Hit, nat>) {
    row.scope == rule.scope && forall cell :: cell in row.cells && row.cells[cell] == CoverageOf(hits, rule, cell)
  }

  /** Exactly the first `n` rules, each with the coverage of all its cells. */
  ghost predicate IsCoverage(m: Matrix, rules: seq<Rule>, n: nat, hits: map<Hit, nat>)
    requires n <= |rules|
  {
    && (forall name :: name in m <==> Named(rules, n, name))
    && (forall i :: 0 <= i < n ==> rules[i].name in m && IsCoverageRow(m[rules[i].name], rules[i], hits))
  }

  lemma ExtendCoverage(m: Matrix, rules: seq<Rule>, n: nat, hits: map<Hit, nat>, row: CoverageRow)
    requires n < |rules| && UniqueNames(rules) && IsCoverage(m, rules, n, hits) && IsCoverageRow(row, rules[n], hits)
    ensures IsCoverage(m[rules[n].name := row], rules, n + 1, hits)
  {
    var more := m[rules[n].name := row];
    forall name
      ensures name in more <==> Named(rules, n + 1, name)
    {
      NamedNext(rules, n, name);
    }
  }

  method CoverRule(rule: Rule, hits: map<Hit, nat>) returns (row: CoverageRow)
    ensures IsCoverageRow(row, rule, hits)
  {
    var cells: map<Cell, Coverage> := map[];
    for d := 0 to 2
      invariant forall x, y :: 0 <= x < d && 0 <= y < 2 ==> Cell(SIDES[x], WINDOWS[y]) in cells
      invariant forall cell :: cell in cells ==> cells[cell] == CoverageOf(hits, rule, cell)
    {
      for w := 0 to 2
        invariant forall x, y :: 0 <= x < d && 0 <= y < 2 ==> Cell(SIDES[x], WINDOWS[y]) in cells
        invariant forall y :: 0 <= y < w ==> Cell(SIDES[d], WINDOWS[y]) in cells
        invariant forall cell :: cell in cells ==> cells[cell] == CoverageOf(hits, rule, cell)
      {
        var cell := Cell(SIDES[d], WINDOWS[w]);
        if !Applies(rule.scope, SIDES[d]) {
          cells := cells[cell := Coverage(NOT_APPLICABLE, 0)];
        } else {
          var n := HitsOf(hits, rule, cell);
          cells := cells[cell := Coverage(if n > 0 then EXERCISED else NOT_EXERCISED, n)];
        }
      }
    }
    AllCells(cells.Keys);
    row := CoverageRow(rule.scope, cells);
  }

  lemma AllCells(cells: set<Cell>)
    requires forall x, y :: 0 <= x < 2 && 0 <= y < 2 ==> Cell(SIDES[x], WINDOWS[y]) in cells
    ensures forall cell :: cell in cells
  {
    forall cell: Cell
      ensures cell in cells
    {
      var x := if cell.side == LONG then 0 else 1;
      var y := if cell.window == IN_WINDOW then 0 else 1;
      assert cell == Cell(SIDES[x], WINDOWS[y]);
    }
  }

  /** Every rule on both sides and in both windows, with its status and its count of scans. */
  method CoverageMatrix(rules: seq<Rule>, hits: map<Hit, nat>) returns (m: Matrix)
    requires UniqueNames(rules)
    ensures IsCoverage(m, rules, |rules|, hits)
  {
    m := map[];
    for i := 0 to |rules|
      invariant IsCoverage(m, rules, i, hits)
    {
      var row := CoverRule(rules[i], hits);
      ExtendCoverage(m, rules, i, hits, row);
      m := m[rules[i].name := row];
    }
  }

  ghost predicate IsProofRow(row: map<Cell, CellStatus>, rule: Rule, hits: map<Hit, nat>, synthetic: set<string>,
                             gaps: Option<set<(string, Cell)>>) {
    forall cell :: cell in row && row[cell] == ProofStatus(CoverageOf(hits, rule, cell).status, rule.name, cell, synthetic, gaps)
  }

  ghost predicate IsProof(proof: Proof, rules: seq<Rule>, n: nat, hits: map<Hit, nat>, synthetic: set<string>,
                          gaps: Option<set<(string, Cell)>>)
    requires n <= |rules|
  {
    && (forall name :: name in proof <==> Named(rules, n, name))
    && (forall i :: 0 <= i < n ==> rules[i].name in proof && IsProofRow(proof[rules[i].name], rules[i], hits, synthetic, gaps))
  }

  lemma ExtendProof(proof: Proof, rules: seq<Rule>, n: nat, hits: map<Hit, nat>, synthetic: set<string>,
                    gaps: Option<set<(string, Cell)>>, row: map<Cell, CellStatus>)
    requires n < |rules| && UniqueNames(rules) && IsProof(proof, rules, n, hits, synthetic, gaps)
    requires IsProofRow(row, rules[n], hits, synthetic, gaps)
    ensures IsProof(proof[rules[n].name := row], rules, n + 1, hits, synthetic, gaps)
  {
    var more := proof[rules[n].name := row];
    forall name
      ensures name in more <==> Named(rules, n + 1, name)
    {
      NamedNext(rules, n, name);
    }
  }

  method ProofMatrix(rules: seq<Rule>, vt: Matrix, synthetic: set<string>, gaps: Option<set<(string, Cell)>>, ghost hits: map<Hit, nat>)
    returns (proof: Proof)
    requires UniqueNames(rules) && IsCoverage(vt, rules, |rules|, hits)
    ensures IsProof(proof, rules, |rules|, hits, synthetic, gaps)
  {
    proof := map[];
    for i := 0 to |rules|
      invariant IsProof(proof, rules, i, hits, synthetic, gaps)
    {
      var name := rules[i].name;
      var cells := vt[name].cells;
      var row := map cell | cell in cells :: ProofStatus(cells[cell].status, name, cell, synthetic, gaps);
      ExtendProof(proof, rules, i, hits, synthetic, gaps, row);
      proof := proof[name := row];
    }
  }

  // ------------------------------------------------------------------ the verdict

  datatype Gate = Gate(name: string, outcome: string)

  function GateBlockers(gates: seq<Gate>): seq<Blocker> {
    if gates == [] then []
    else
      var g := gates[|gates| - 1];
      GateBlockers(gates[..|gates| - 1]) + if g.outcome != PASS then [GateNotPassed(g.name, g.outcome)] else []
  }

  lemma {:induction false} GateBlockersExact(gates: seq<Gate>, x: Blocker)
    ensures x in GateBlockers(gates) <==> x.GateNotPassed? && Gate(x.gate, x.outcome) in gates && x.outcome != PASS
  {
    if gates != [] {
      var n := |gates| - 1;
      GateBlockersExact(gates[..n], x);
      assert gates == gates[..n] + [gates[n]];
    }
  }

  /** Every rule has the cells of the side. */
  ghost predicate Complete(rules: seq<Rule>, proof: Proof, side: Side) {
    forall i :: 0 <= i < |rules| ==> rules[i].name in proof && HasSide(proof[rules[i].name], side)
  }

  predicate HasSide(row: map<Cell, CellStatus>, side: Side) {
    Cell(side, IN_WINDOW) in row && Cell(side, OUT_OF_WINDOW) in row
  }

  lemma CompletePrefix(rules: seq<Rule>, n: nat, proof: Proof, side: Side)
    requires Complete(rules, proof, side) && n <= |rules|
    ensures Complete(rules[..n], proof, side)
  {
  }

  lemma CellIsOneOf(cell: Cell)
    ensures cell == Cell(cell.side, IN_WINDOW) || cell == Cell(cell.side, OUT_OF_WINDOW)
  {
    match cell.window
    case IN_WINDOW =>
    case OUT_OF_WINDOW =>
  }

  function CellBlocker(name: string, row: map<Cell, CellStatus>, cell: Cell): seq<Blocker>
    requires cell in row
  {
    if Counts(row[cell]) then [] else [CoverageGap(name, cell, row[cell])]
  }

  function RuleBlockers(name: string, row: map<Cell, CellStatus>, side: Side): seq<Blocker>
    requires HasSide(row, side)
  {
    CellBlocker(name, row, Cell(side, IN_WINDOW)) + CellBlocker(name, row, Cell(side, OUT_OF_WINDOW))
  }

  function CellBlockers(rules: seq<Rule>, proof: Proof, side: Side): seq<Blocker>
    requires Complete(rules, proof, side)
  {
    if rules == [] then []
    else
      var n := |rules| - 1;
      CompletePrefix(rules, n, proof, side);
      CellBlockers(rules[..n], proof, side) + RuleBlockers(rules[n].name, proof[rules[n].name], side)
  }

  /** `x` is an uncounted cell of a rule's row. */
  ghost predicate IsGapOf(x: Blocker, name: string, row: map<Cell, CellStatus>, side: Side) {
    x.CoverageGap? && x.rule == name && x.cell.side == side && x.cell in row && row[x.cell] == x.status && !Counts(x.status)
  }

  /** `x` is an uncounted cell of the side. */
  ghost predicate IsGap(x: Blocker, rules: seq<Rule>, proof: Proof, side: Side)
    requires Complete(rules, proof, side)
  {
    exists i :: 0 <= i < |rules| && IsGapOf(x, rules[i].name, proof[rules[i].name], side)
  }

  lemma RuleBlockersExact(name: string, row: map<Cell, CellStatus>, side: Side, x: Blocker)
    requires HasSide(row, side)
    ensures x in RuleBlockers(name, row, side) <==> IsGapOf(x, name, row, side)
  {
    if x.CoverageGap? {
      CellIsOneOf(x.cell);
    }
  }

  lemma IsGapSnoc(x: Blocker, rules: seq<Rule>, n: nat, proof: Proof, side: Side)
    requires Complete(rules, proof, side) && |rules| == n + 1 && Complete(rules[..n], proof, side)
    ensures IsGap(x, rules, proof, side) <==> IsGap(x, rules[..n], proof, side) || IsGapOf(x, rules[n].name, proof[rules[n].name], side)
  {
    assert forall i :: 0 <= i < n ==> rules[..n][i] == rules[i];
    if i :| 0 <= i < n && IsGapOf(x, rules[..n][i].name, proof[rules[..n][i].name], side) {
      assert IsGapOf(x, rules[i].name, proof[rules[i].name], side);
    }
  }

  lemma {:induction false} CellBlockersExact(rules: seq<Rule>, proof: Proof, side: Side, x: Blocker)
    requires Complete(rules, proof, side)
    ensures x in CellBlockers(rules, proof, side) <==> IsGap(x, rules, proof, side)
  {
    if rules != [] {
      var n := |rules| - 1;
      CompletePrefix(rules, n, proof, side);
      CellBlockersExact(rules[..n], proof, side, x);
      RuleBlockersExact(rules[n].name, proof[rules[n].name], side, x);
      IsGapSnoc(x, rules, n, proof, side);
    }
  }

  /** What blocks a branch: the gates that did not pass, the mismatch flag, the uncounted cells. */
  ghost predicate Blocks(x: Blocker, gates: seq<Gate>, mismatchFree: bool, rules: seq<Rule>, proof: Proof, side: Side)
    requires Complete(rules, proof, side)
  {
    || (x.GateNotPassed? && Gate(x.gate, x.outcome) in gates && x.outcome != PASS)
    || (x.Mismatches? && !mismatchFree)
    || IsGap(x, rules, proof, side)
  }

  /** Verified exactly when nothing blocks; what blocks is listed in full, gates first. */
  method Verdict(gates: seq<Gate>, mismatchFree: bool, rules: seq<Rule>, proof: Proof, side: Side)
    returns (verified: bool, blocking: seq<Blocker>)
    requires Complete(rules, proof, side)
    ensures verified <==> blocking == []
    ensures forall x :: x in blocking <==> Blocks(x, gates, mismatchFree, rules, proof, side)
    ensures blocking == GateBlockers(gates) + (if mismatchFree then [] else [Mismatches]) + CellBlockers(rules, proof, side)
  {
    blocking := ListGates(gates);
    if !mismatchFree {
      blocking := blocking + [Mismatches];
    }
    var gaps := ListGaps(rules, proof, side);
    blocking := blocking + gaps;
    forall x
      ensures x in blocking <==> Blocks(x, gates, mismatchFree, rules, proof, side)
    {
      GateBlockersExact(gates, x);
      CellBlockersExact(rules, proof, side, x);
    }
    verified := blocking == [];
  }

  method ListGates(gates: seq<Gate>) returns (blocking: seq<Blocker>)
    ensures blocking == GateBlockers(gates)
  {
    blocking := [];
    for i := 0 to |gates|
      invariant blocking == GateBlockers(gates[..i])
    {
      assert gates[..i + 1][..i] == gates[..i];
      if gates[i].outcome != PASS {
        blocking := blocking + [GateNotPassed(gates[i].name, gates[i].outcome)];
      }
    }
    assert gates[..|gates|] == gates;
  }

  /** The uncounted cells of one rule. */
  method ListRule(name: string, row: map<Cell, CellStatus>, side: Side) returns (gaps: seq<Blocker>)
    requires HasSide(row, side)
    ensures gaps == RuleBlockers(name, row, side)
  {
    gaps := [];
    var first, second := Cell(side, IN_WINDOW), Cell(side, OUT_OF_WINDOW);
    if !Counts(row[first]) {
      gaps := gaps + [CoverageGap(name, first, row[first])];
    }
    if !Counts(row[second]) {
      gaps := gaps + [CoverageGap(name, second, row[second])];
    }
  }

  method ListGaps(rules: seq<Rule>, proof: Proof, side: Side) returns (gaps: seq<Blocker>)
    requires Complete(rules, proof, side)
    ensures gaps == CellBlockers(rules, proof, side)
  {
    gaps := [];
    for i := 0 to |rules|
      invariant Complete(rules[..i], proof, side) && gaps == CellBlockers(rules[..i], proof, side)
    {
      CompletePrefix(rules, i + 1, proof, side);
      assert rules[..i + 1][..i] == rules[..i];
      var here := ListRule(rules[i].name, proof[rules[i].name], side);
      gaps := gaps + here;
    }
    assert rules[..|rules|] == rules;
  }

  /** Every rule of the side is hit in both windows or proven synthetically. */
  ghost predicate Proven(rules: seq<Rule>, hits: map<Hit, nat>, synthetic: set<string>, side: Side) {
    forall i, w :: 0 <= i < |rules| && Applies(rules[i].scope, side) ==>
                     HitsOf(hits, rules[i], Cell(side, w)) > 0 || rules[i].name in synthetic
  }

  /** Rule `i` is unproven in a window of the side; the coverage-only report only decides how that
      is called. */
  ghost predicate Unproven(x: Blocker, rules: seq<Rule>, i: int, hits: map<Hit, nat>, synthetic: set<string>,
                           gaps: Option<set<(string, Cell)>>, side: Side) {
    && 0 <= i < |rules| && Applies(rules[i].scope, side) && rules[i].name !in synthetic
    && x.CoverageGap? && x.rule == rules[i].name && x.cell.side == side
    && HitsOf(hits, rules[i], x.cell) == 0
    && x.status == if gaps.Some? && (x.rule, x.cell) !in gaps.value then COVERAGE_ONLY_EXERCISED else NOT_EXERCISED
  }

  lemma ProofIsComplete(proof: Proof, rules: seq<Rule>, hits: map<Hit, nat>, synthetic: set<string>,
                        gaps: Option<set<(string, Cell)>>, side: Side)
    requires IsProof(proof, rules, |rules|, hits, synthetic, gaps)
    ensures Complete(rules, proof, side)
  {
  }

  lemma GapIsUnproven(proof: Proof, rules: seq<Rule>, i: int, hits: map<Hit, nat>, synthetic: set<string>,
                      gaps: Option<set<(string, Cell)>>, side: Side, x: Blocker)
    requires 0 <= i < |rules| && IsProof(proof, rules, |rules|, hits, synthetic, gaps)
    ensures IsGapOf(x, rules[i].name, proof[rules[i].name], side) <==> Unproven(x, rules, i, hits, synthetic, gaps, side)
  {
    if x.CoverageGap? && x.rule == rules[i].name && x.cell.side == side {
      assert IsProofRow(proof[rules[i].name], rules[i], hits, synthetic, gaps);
      CountsExactly(rules[i], x.cell, hits, synthetic, gaps);
    }
  }

  lemma GapsAreUnproven(proof: Proof, rules: seq<Rule>, hits: map<Hit, nat>, synthetic: set<string>,
                        gaps: Option<set<(string, Cell)>>, side: Side, x: Blocker)
    requires IsProof(proof, rules, |rules|, hits, synthetic, gaps) && Complete(rules, proof, side)
    ensures IsGap(x, rules, proof, side) <==> exists i :: Unproven(x, rules, i, hits, synthetic, gaps, side)
  {
    if i :| 0 <= i < |rules| && IsGapOf(x, rules[i].name, proof[rules[i].name], side) {
      GapIsUnproven(proof, rules, i, hits, synthetic, gaps, side, x);
    }
    if i :| Unproven(x, rules, i, hits, synthetic, gaps, side) {
      GapIsUnproven(proof, rules, i, hits, synthetic, gaps, side, x);
    }
  }

  lemma ProvenExactly(rules: seq<Rule>, hits: map<Hit, nat>, synthetic: set<string>, gaps: Option<set<(string, Cell)>>, side: Side)
    ensures Proven(rules, hits, synthetic, side) <==> forall x, i :: !Unproven(x, rules, i, hits, synthetic, gaps, side)
  {
    if x, i :| Unproven(x, rules, i, hits, synthetic, gaps, side) {
      assert x.cell == Cell(side, x.cell.window);
    }
    if !Proven(rules, hits, synthetic, side) {
      var i, w :| 0 <= i < |rules| && Applies(rules[i].scope, side) && HitsOf(hits, rules[i], Cell(side, w)) == 0
                  && rules[i].name !in synthetic;
      var called := if gaps.Some? && (rules[i].name, Cell(side, w)) !in gaps.value then COVERAGE_ONLY_EXERCISED else NOT_EXERCISED;
      assert Unproven(CoverageGap(rules[i].name, Cell(side, w), called), rules, i, hits, synthetic, gaps, side);
    }
  }

  /** What blocks a branch, from its inputs alone. */
  ghost predicate Blocked(x: Blocker, gates: seq<Gate>, mismatchFree: bool, rules: seq<Rule>, hits: map<Hit, nat>,
                          synthetic: set<string>, gaps: Option<set<(string, Cell)>>, side: Side) {
    || (x.GateNotPassed? && Gate(x.gate, x.outcome) in gates && x.outcome != PASS)
    || (x.Mismatches? && !mismatchFree)
    || (exists i :: Unproven(x, rules, i, hits, synthetic, gaps, side))
  }

  /** The whole evaluation of a branch. Its verdict does not mention the coverage-only report:
      it is the gates, the absence of mismatches and the proven rules. */
  method EvaluateBranch(gates: seq<Gate>, mismatchFree: bool, rules: seq<Rule>, hits: map<Hit, nat>,
                        synthetic: set<string>, gaps: Option<set<(string, Cell)>>, side: Side)
    returns (verified: bool, blocking: seq<Blocker>)
    requires UniqueNames(rules)
    ensures verified <==> (forall i :: 0 <= i < |gates| ==> gates[i].outcome == "PASS") && mismatchFree && Proven(rules, hits, synthetic, side)
    ensures forall x :: x in blocking <==> Blocked(x, gates, mismatchFree, rules, hits, synthetic, gaps, side)
  {
    var vt := CoverageMatrix(rules, hits);
    var proof := ProofMatrix(rules, vt, synthetic, gaps, hits);
    ProofIsComplete(proof, rules, hits, synthetic, gaps, side);
    verified, blocking := Verdict(gates, mismatchFree, rules, proof, side);
    forall x
      ensures x in blocking <==> Blocked(x, gates, mismatchFree, rules, hits, synthetic, gaps, side)
    {
      GapsAreUnproven(proof, rules, hits, synthetic, gaps, side, x);
    }
    NothingBlocks(blocking, gates, mismatchFree, rules, hits, synthetic, gaps, side);
  }

  lemma NothingBlocks(blocking: seq<Blocker>, gates: seq<Gate>, mismatchFree: bool, rules: seq<Rule>, hits: map<Hit, nat>,
                      synthetic: set<string>, gaps: Option<set<(string, Cell)>>, side: Side)
    requires forall x :: x in blocking <==> Blocked(x, gates, mismatchFree, rules, hits, synthetic, gaps, side)
    ensures blocking == [] <==> (forall i :: 0 <= i < |gates| ==> gates[i].outcome == PASS) && mismatchFree && Proven(rules, hits, synthetic, side)
  {
    ProvenExactly(rules, hits, synthetic, gaps, side);
    if i :| 0 <= i < |gates| && gates[i].outcome != PASS {
      assert gates[i] == Gate(gates[i].name, gates[i].outcome);
      assert Blocked(GateNotPassed(gates[i].name, gates[i].outcome), gates, mismatchFree, rules, hits, synthetic, gaps, side);
    }
    if !mismatchFree {
      assert Blocked(Mismatches, gates, mismatchFree, rules, hits, synthetic, gaps, side);
    }
    if x, i :| Unproven(x, rules, i, hits, synthetic, gaps, side) {
      assert Blocked(x, gates, mismatchFree, rules, hits, synthetic, gaps, side);
    }
    if blocking != [] {
      assert Blocked(blocking[0], gates, mismatchFree, rules, hits, synthetic, gaps, side);
    }
  }

  /** A cell counts exactly when it is not applicable, exercised or synthetically proven: the
      coverage-only report never makes a difference. */
  lemma CountsExactly(rule: Rule, cell: Cell, hits: map<Hit, nat>, synthetic: set<string>, gaps: Option<set<(string, Cell)>>)
    ensures Counts(ProofStatus(CoverageOf(hits, rule, cell).status, rule.name, cell, synthetic, gaps)) <==>
            !Applies(rule.scope, cell.side) || HitsOf(hits, rule, cell) > 0 || rule.name in synthetic
  {
  }

  /** More rule hits never take a proof away. */
  lemma MoreHitsKeepProof(rules: seq<Rule>, fewer: map<Hit, nat>, more: map<Hit, nat>, synthetic: set<string>, side: Side)
    requires Proven(rules, fewer, synthetic, side)
    requires forall h :: h in fewer ==> h in more && fewer[h] <= more[h]
    ensures Proven(rules, more, synthetic, side)
  {
    forall i, w | 0 <= i < |rules| && Applies(rules[i].scope, side)
      ensures HitsOf(more, rules[i], Cell(side, w)) > 0 || rules[i].name in synthetic
    {
      assert HitsOf(fewer, rules[i], Cell(side, w)) > 0 || rules[i].name in synthetic;
    }
  }

  // ------------------------------------------------------------------ which hits count

  /** The entry of the hit table that a cell of an applicable rule is read from: of a rule that is
      not bound to sides the one without a side, otherwise the one of the cell's own side; always
      the one of the cell's own window. */
  ghost predicate ReadFrom(h: Hit, rule: Rule, side: Side, w: Window) {
    h.rule == rule.name && h.window == w &&
    match rule.scope
    case ANY => h.side == None
    case BOTH => h.side == Some(side)
    case ONLY(s) => s == side && h.side == Some(s)
  }

  ghost predicate HasHit(hits: map<Hit, nat>, rule: Rule, side: Side, w: Window) {
    exists h :: h in hits && ReadFrom(h, rule, side, w) && hits[h] > 0
  }

  /** A rule is proven in a cell of its side exactly when it is synthetic or the entry it is read
      from is positive; a rule bound to the other side needs no proof. */
  lemma ProvenByHits(rules: seq<Rule>, hits: map<Hit, nat>, synthetic: set<string>, side: Side)
    ensures Proven(rules, hits, synthetic, side) <==>
            forall i, w :: 0 <= i < |rules| && (rules[i].scope.ONLY? ==> rules[i].scope.side == side) && rules[i].name !in synthetic ==>
                             HasHit(hits, rules[i], side, w)
  {
    if Proven(rules, hits, synthetic, side) {
      forall i, w | 0 <= i < |rules| && (rules[i].scope.ONLY? ==> rules[i].scope.side == side) && rules[i].name !in synthetic
        ensures HasHit(hits, rules[i], side, w)
      {
        AppliesExactly(rules[i].scope, side);
        ReadsItsEntry(hits, rules[i], side, w);
        assert HitsOf(hits, rules[i], Cell(side, w)) > 0;
      }
    } else {
      var i, w :| 0 <= i < |rules| && Applies(rules[i].scope, side) && HitsOf(hits, rules[i], Cell(side, w)) == 0
                  && rules[i].name !in synthetic;
      AppliesExactly(rules[i].scope, side);
      ReadsItsEntry(hits, rules[i], side, w);
      assert !HasHit(hits, rules[i], side, w);
    }
  }

  lemma AppliesExactly(scope: Scope, side: Side)
    ensures Applies(scope, side) <==> (scope.ONLY? ==> scope.side == side)
  {
    match scope
    case ANY =>
    case BOTH =>
    case ONLY(_) =>
  }

  lemma ReadsItsEntry(hits: map<Hit, nat>, rule: Rule, side: Side, w: Window)
    requires rule.scope.ONLY? ==> rule.scope.side == side
    ensures HitsOf(hits, rule, Cell(side, w)) > 0 <==> HasHit(hits, rule, side, w)
    ensures forall h :: h in hits && ReadFrom(h, rule, side, w) ==> HitsOf(hits, rule, Cell(side, w)) == hits[h]
  {
    var key := Hit(rule.name, if rule.scope == ANY then None else Some(side), w);
    forall h
      ensures ReadFrom(h, rule, side, w) <==> h == key
    {
      match rule.scope
      case ANY =>
      case BOTH =>
      case ONLY(_) =>
    }
  }

  /** Hits in the other window do not help: with none in `w` the side is not proven. */
  lemma OtherWindowDoesNotCount(rules: seq<Rule>, i: int, hits: map<Hit, nat>, synthetic: set<string>, side: Side, w: Window)
    requires 0 <= i < |rules| && rules[i].name !in synthetic && (rules[i].scope.ONLY? ==> rules[i].scope.side == side)
    requires forall h :: h in hits && h.rule == rules[i].name && h.window == w ==> hits[h] == 0
    ensures !Proven(rules, hits, synthetic, side)
  {
    ProvenByHits(rules, hits, synthetic, side);
    assert !HasHit(hits, rules[i], side, w);
  }

  /** Nor do hits on the other side, for a rule bound to sides. */
  lemma OtherSideDoesNotCount(rules: seq<Rule>, i: int, hits: map<Hit, nat>, synthetic: set<string>, side: Side, w: Window)
    requires 0 <= i < |rules| && rules[i].name !in synthetic && (rules[i].scope == BOTH || rules[i].scope == ONLY(side))
    requires forall h :: h in hits && h.rule == rules[i].name && h.side == Some(side) && h.window == w ==> hits[h] == 0
    ensures !Proven(rules, hits, synthetic, side)
  {
    ProvenByHits(rules, hits, synthetic, side);
    assert !HasHit(hits, rules[i], side, w);
  }

  /** The cell a rule's row holds, in terms of the entry it is read from. */
  lemma CoverageExactly(hits: map<Hit, nat>, rule: Rule, side: Side, w: Window)
    ensures var c := CoverageOf(hits, rule, Cell(side, w));
            && (c.status == NOT_APPLICABLE <==> rule.scope.ONLY? && rule.scope.side != side)
            && (c.status == EXERCISED <==> c.scans > 0)
            && (c.status == NOT_EXERCISED ==> c.scans == 0)
            && (c.status != NOT_APPLICABLE ==> forall h :: h in hits && ReadFrom(h, rule, side, w) ==> c.scans == hits[h])
            && (c.scans > 0 ==> HasHit(hits, rule, side, w))
            && c.status in {EXERCISED, NOT_EXERCISED, NOT_APPLICABLE}
  {
    AppliesExactly(rule.scope, side);
    if rule.scope.ONLY? ==> rule.scope.side == side {
      ReadsItsEntry(hits, rule, side, w);
    }
  }
}
