/** The grid-contents reducer: what the board shows (answers with their
    validity marks, candidate flags, locks), updated by three actions. The
    rules object is consulted only through the answers it gives. */
module GridContents {
  import opened Common

  /** An answer: the digit and whether the rules consider it valid. */
  datatype Answer = Answer(digit: Digit, valid: bool)

  /** The candidate flags of a cell, the flag of digit d at position d - 1:
      `None` when the candidate is not shown, otherwise its validity. */
  type Candidates = s: seq<Option<bool>> | |s| == 9 witness seq(9, _ => None)

  datatype Cell = Cell(contents: Option<Answer>, candidates: Candidates, isLocked: bool)

  type Grid = g: seq<Cell> | |g| == 81 witness seq(81, _ => Cell(None, seq(9, _ => None), false))

  /** The answers of the rules object, as the reducer asks for them. The two
      queries describe the rules after the write the reducer asks for. */
  datatype RulesOracle = RulesOracle(
    setContents: (Index, Option<Digit>) -> seq<Index>,
    isValidContents: Index -> bool,
    isValidCandidate: (Index, Digit) -> bool)

  datatype Update =
    | ToggleContents(cell: Index, digit: Digit)
    | ToggleCandidate(cell: Index, candidate: Digit)
    | LockContents

  /** The grid after an update, and the arguments of every call the reducer
      made to the rules' write operation, in order. */
  datatype Outcome = Outcome(grid: Grid, setContentsCalls: seq<(Index, Option<Digit>)>)

  function CandidateOf(c: Cell, d: Digit): Option<bool> {
    c.candidates[d - 1]
  }

  /** The cell currently shows the answer d. */
  predicate ShowsDigit(c: Cell, d: Digit) {
    c.contents.Some? && c.contents.value.digit == d
  }

  // ---------------------------------------------------------------------
  // Initial state

  function EmptyCell(): (c: Cell)
    ensures c.contents == None && !c.isLocked
    ensures forall d: Digit :: CandidateOf(c, d) == None
  {
    Cell(None, seq(9, _ => None), false)
  }

  function EmptyGrid(): (g: Grid)
    ensures forall j: Index :: g[j].contents == None && !g[j].isLocked
    ensures forall j: Index, d: Digit :: CandidateOf(g[j], d) == None
  {
    seq(81, _ => EmptyCell())
  }

  // ---------------------------------------------------------------------
  // Re-evaluating affected cells

  /** What re-evaluating cell i leaves: the same digit (or none) marked with
      the rules' verdict, every shown candidate marked with the rules'
      verdict, hidden candidates still hidden, and the lock untouched. */
  predicate Reevaluated(o: RulesOracle, i: Index, before: Cell, after: Cell) {
    && after.isLocked == before.isLocked
    && (before.contents.None? ==> after.contents.None?)
    && (before.contents.Some? ==>
          after.contents == Some(Answer(before.contents.value.digit, o.isValidContents(i))))
    && forall d: Digit ::
         (CandidateOf(before, d).None? ==> CandidateOf(after, d).None?)
         && (CandidateOf(before, d).Some? ==> CandidateOf(after, d) == Some(o.isValidCandidate(i, d)))
  }

  /** The body of the `forEach` for one affected index i. */
  function Refresh(o: RulesOracle, i: Index, c: Cell): (r: Cell)
    ensures Reevaluated(o, i, c, r)
  {
    var contents := match c.contents
      case None => None
      case Some(a) => Some(Answer(a.digit, o.isValidContents(i)));
    var candidates := seq(9, k requires 0 <= k < 9 =>
      if c.candidates[k].None? then None else Some(o.isValidCandidate(i, k + 1)));
    Cell(contents, candidates, c.isLocked)
  }

  /** Re-evaluating a cell twice is re-evaluating it once: the verdicts do
      not depend on the flags being overwritten. */
  lemma RefreshIdempotent(o: RulesOracle, i: Index, c: Cell)
    ensures Refresh(o, i, Refresh(o, i, c)) == Refresh(o, i, c)
  {
    var once := Refresh(o, i, c);
    var twice := Refresh(o, i, once);
    assert twice.candidates == once.candidates;
  }

  /** The whole `forEach` over the affected indices, repetitions included. */
  function RefreshAll(o: RulesOracle, g: Grid, affected: seq<Index>): (r: Grid)
    ensures forall j: Index :: r[j] == if j in affected then Refresh(o, j, g[j]) else g[j]
    decreases |affected|
  {
    if |affected| == 0 then g
    else
      var i := affected[0];
      var r := RefreshAll(o, g[i := Refresh(o, i, g[i])], affected[1..]);
      assert forall j: Index :: j in affected <==> j == i || j in affected[1..];
      RefreshIdempotent(o, i, g[i]);
      r
  }

  // ---------------------------------------------------------------------
  // The three actions

  /** `lockContents`: every cell showing an answer becomes locked. */
  function ApplyLockContents(g: Grid): (r: Outcome)
    ensures r.setContentsCalls == []
    ensures forall j: Index :: r.grid[j].isLocked <==> g[j].isLocked || g[j].contents.Some?
    ensures forall j: Index :: r.grid[j].contents == g[j].contents
    ensures forall j: Index :: r.grid[j].candidates == g[j].candidates
  {
    Outcome(seq(81, j requires 0 <= j < 81 =>
      if g[j].contents.Some? then g[j].(isLocked := true) else g[j]), [])
  }

  /** The answer a toggle leaves in the target cell before re-evaluation:
      cleared if it showed d, otherwise d marked valid. */
  function Toggled(c: Cell, d: Digit): Option<Answer> {
    if ShowsDigit(c, d) then None else Some(Answer(d, true))
  }

  /** `toggleContents`: toggles d in the target cell, reports the change to
      the rules, and re-evaluates every cell the rules call affected. */
  function ApplyToggleContents(o: RulesOracle, g: Grid, cell: Index, d: Digit): (r: Outcome)
    ensures ShowsDigit(g[cell], d) ==> r.setContentsCalls == [(cell, None)]
    ensures !ShowsDigit(g[cell], d) ==> r.setContentsCalls == [(cell, Some(d))]
    ensures var affected := o.setContents(r.setContentsCalls[0].0, r.setContentsCalls[0].1);
      && (ShowsDigit(g[cell], d) ==> r.grid[cell].contents == None)
      && (!ShowsDigit(g[cell], d) ==> ShowsDigit(r.grid[cell], d))
      && (!ShowsDigit(g[cell], d) && cell !in affected ==> r.grid[cell].contents == Some(Answer(d, true)))
      && (cell !in affected ==> r.grid[cell].candidates == g[cell].candidates)
      && (cell in affected ==>
            Reevaluated(o, cell, Cell(if ShowsDigit(g[cell], d) then None else Some(Answer(d, true)),
                                      g[cell].candidates, g[cell].isLocked), r.grid[cell]))
      && r.grid[cell].isLocked == g[cell].isLocked
      && (forall j: Index :: j in affected && j != cell ==> Reevaluated(o, j, g[j], r.grid[j]))
      && (forall j: Index :: j !in affected && j != cell ==> r.grid[j] == g[j])
  {
    var contents := Toggled(g[cell], d);
    var written := g[cell := g[cell].(contents := contents)];
    var newDigit := if contents.Some? then Some(contents.value.digit) else None;
    Outcome(RefreshAll(o, written, o.setContents(cell, newDigit)), [(cell, newDigit)])
  }

  /** `toggleCandidate`: a hidden candidate is shown with the rules' verdict,
      a shown one is hidden. */
  function ApplyToggleCandidate(o: RulesOracle, g: Grid, cell: Index, c: Digit): (r: Outcome)
    ensures r.setContentsCalls == []
    ensures CandidateOf(g[cell], c).None? ==> CandidateOf(r.grid[cell], c) == Some(o.isValidCandidate(cell, c))
    ensures CandidateOf(g[cell], c).Some? ==> CandidateOf(r.grid[cell], c) == None
    ensures forall d: Digit :: d != c ==> CandidateOf(r.grid[cell], d) == CandidateOf(g[cell], d)
    ensures r.grid[cell].contents == g[cell].contents && r.grid[cell].isLocked == g[cell].isLocked
    ensures forall j: Index :: j != cell ==> r.grid[j] == g[j]
  {
    var flag := CandidateOf(g[cell], c);
    var flag' := if flag.None? then Some(o.isValidCandidate(cell, c)) else None;
    Outcome(g[cell := g[cell].(candidates := g[cell].candidates[c - 1 := flag'])], [])
  }

  /** `updateGridContents`: dispatches on the action. */
  function UpdateGridContents(o: RulesOracle, g: Grid, u: Update): (r: Outcome)
    ensures |r.setContentsCalls| <= 1
    ensures |r.setContentsCalls| == 1 <==> u.ToggleContents?
    ensures u.ToggleContents? ==> r.setContentsCalls[0].0 == u.cell
    ensures forall j: Index :: (u.LockContents? || j != u.cell) && g[j].contents.None? ==>
      r.grid[j].contents.None?
    ensures u.ToggleContents? ==> forall j: Index ::
      j != u.cell && j !in o.setContents(u.cell, r.setContentsCalls[0].1) ==> r.grid[j] == g[j]
    ensures u.ToggleCandidate? ==> forall j: Index :: j != u.cell ==> r.grid[j] == g[j]
    ensures u.LockContents? ==> forall j: Index :: g[j].contents.None? ==> r.grid[j] == g[j]
  {
    match u
    case ToggleContents(cell, d) => ApplyToggleContents(o, g, cell, d)
    case ToggleCandidate(cell, c) => ApplyToggleCandidate(o, g, cell, c)
    case LockContents => ApplyLockContents(g)
  }

  // ---------------------------------------------------------------------
  // Properties across updates

  /** Showing a hidden candidate and hiding it again restores the grid,
      whatever the rules answered in between. */
  lemma ToggleCandidateTwiceRestores(o1: RulesOracle, o2: RulesOracle, g: Grid, cell: Index, c: Digit)
    requires CandidateOf(g[cell], c).None?
    ensures ApplyToggleCandidate(o2, ApplyToggleCandidate(o1, g, cell, c).grid, cell, c).grid == g
  {
    var g2 := ApplyToggleCandidate(o2, ApplyToggleCandidate(o1, g, cell, c).grid, cell, c).grid;
    assert g2[cell].candidates == g[cell].candidates by {
      forall k | 0 <= k < 9
        ensures g2[cell].candidates[k] == g[cell].candidates[k]
      {
        assert CandidateOf(g2[cell], k + 1) == CandidateOf(g[cell], k + 1);
      }
    }
    assert g2[cell] == g[cell];
  }

  /** Toggling the same digit twice in a cell that did not show it leaves the
      cell empty, and reports a write of the digit and then of nothing. */
  lemma ToggleContentsTwiceClears(o1: RulesOracle, o2: RulesOracle, g: Grid, cell: Index, d: Digit)
    requires !ShowsDigit(g[cell], d)
    ensures var first := ApplyToggleContents(o1, g, cell, d);
      var second := ApplyToggleContents(o2, first.grid, cell, d);
      && first.setContentsCalls == [(cell, Some(d))]
      && second.setContentsCalls == [(cell, None)]
      && second.grid[cell].contents == None
  {
  }

  /** Toggling a digit into a cell that showed another one replaces it: the
      earlier answer is not restored by toggling again. */
  lemma ToggleContentsReplaces(o: RulesOracle, g: Grid, cell: Index, d: Digit)
    requires g[cell].contents.Some? && g[cell].contents.value.digit != d
    ensures ShowsDigit(ApplyToggleContents(o, g, cell, d).grid[cell], d)
  {
  }

  /** Locking twice is locking once. */
  lemma LockIdempotent(g: Grid)
    ensures ApplyLockContents(ApplyLockContents(g).grid).grid == ApplyLockContents(g).grid
  {
    var once := ApplyLockContents(g).grid;
    var twice := ApplyLockContents(once).grid;
    assert forall j: Index :: twice[j] == once[j];
  }

  /** The lock bit does not protect a cell: toggling a locked cell still
      clears its answer or writes a new one, and the cell stays locked. */
  lemma LockedCellStillToggles(o: RulesOracle, g: Grid, cell: Index, d: Digit)
    requires g[cell].isLocked
    ensures ShowsDigit(g[cell], d) ==> ApplyToggleContents(o, g, cell, d).grid[cell].contents == None
    ensures !ShowsDigit(g[cell], d) ==> ShowsDigit(ApplyToggleContents(o, g, cell, d).grid[cell], d)
    ensures ApplyToggleContents(o, g, cell, d).grid[cell].isLocked
  {
  }

  // ---------------------------------------------------------------------
  // The reducer scenarios of the grid-contents tests

  /** Four answers re-marked by the rules' verdicts after a toggle in cell 20. */
  lemma ContentsVerdictScenario()
    ensures
      var g0 := EmptyGrid();
      var g := g0[0 := g0[0].(contents := Some(Answer(2, true)))]
                 [1 := g0[1].(contents := Some(Answer(3, true)))]
                 [2 := g0[2].(contents := Some(Answer(4, false)))]
                 [3 := g0[3].(contents := Some(Answer(5, false)))];
      var o := RulesOracle((i, d) => [0, 1, 2, 3], i => i == 1 || i == 2, (i, d) => true);
      var r := UpdateGridContents(o, g, ToggleContents(20, 5));
      && r.setContentsCalls == [(20, Some(5))]
      && r.grid[0].contents == Some(Answer(2, false))
      && r.grid[1].contents == Some(Answer(3, true))
      && r.grid[2].contents == Some(Answer(4, true))
      && r.grid[3].contents == Some(Answer(5, false))
  {
  }

  /** Candidate flags of an affected cell re-marked by the rules' verdicts. */
  lemma CandidateVerdictScenario()
    ensures
      var g0 := EmptyGrid();
      var g := g0[0 := g0[0].(candidates := g0[0].candidates[0 := Some(true)][1 := Some(true)]
                                                       [2 := Some(false)][3 := Some(false)])];
      var o := RulesOracle((i, d) => [0], i => true, (i, d) => i == 0 && (d == 2 || d == 4));
      var r := UpdateGridContents(o, g, ToggleContents(20, 5));
      && CandidateOf(r.grid[0], 1) == Some(false)
      && CandidateOf(r.grid[0], 2) == Some(true)
      && CandidateOf(r.grid[0], 3) == Some(false)
      && CandidateOf(r.grid[0], 4) == Some(true)
      && CandidateOf(r.grid[0], 5) == None
  {
  }
}
