/** The win test of revealCell compares the click counter with the number of
    safe cells, but the counter goes up once per successful request while a
    cascade can uncover many cells in one request. A game whose cascades
    uncover more than one cell can then never be won. This module exhibits
    that on the smallest board, and proves the intended rule for a variant
    that counts uncovered cells instead of requests. */
module WinCounter {
  import opened Geometry
  import opened Cells
  import opened Flood
  import opened Demineur
  import opened RevealProperties

  /** In a grid without mines every cell counts zero adjacent mines. */
  lemma BlankWithoutMines(g: Grid, p: Pos)
    requires p in g && MineSet(g) == {}
    ensures Blank(g, p)
  {
    forall i | 0 <= i < |g[p].adjacent|
      ensures !IsMineAt(g, g[p].adjacent[i])
    {
      assert g[p].adjacent[i] !in MineSet(g);
    }
  }

  /** Once every cell is revealed, every request is an invalid move. */
  lemma FullyRevealedRejects(b: Board, row: int, col: int, mines: set<Pos>)
    requires Valid(b) && b.firstClickDone
    requires forall q :: q in b.cells ==> b.cells[q].revealed
    ensures Reveal(b, row, col, mines).outcome == InvalidMove
  {
    if InBounds(b.rows, b.cols, Pos(row, col)) {
      RevealedCellIsInvalid(b, row, col, mines);
    }
  }

  /** A 1x2 grid without mines whose first cell is revealed, and whose
      neighbours are settled once it is blank, is fully revealed. */
  lemma OneByTwoGridUncovered(h: Grid)
    requires CellsCover(1, 2, h) && MineSet(h) == {}
    requires h[Pos(0, 0)].revealed
    requires Blank(h, Pos(0, 0)) ==> forall n :: n in Neighbours(1, 2, Pos(0, 0)) ==> Settled(h, n)
    ensures forall q :: q in h ==> h[q].revealed
  {
    BlankWithoutMines(h, Pos(0, 0));
    assert IsNeighbour(1, 2, Pos(0, 0), Pos(0, 1));
    assert Settled(h, Pos(0, 1));
    assert Pos(0, 1) !in MineSet(h);
    forall q | q in h
      ensures h[q].revealed
    {
      assert InBounds(1, 2, q);
      assert q == Pos(0, q.col);
      assert q == Pos(0, 0) || q == Pos(0, 1);
    }
  }

  /** On a 1x2 board without mines the first click uncovers both cells and
      counts one click. */
  lemma OneByTwoFirstClickUncoversAll(b: Board)
    requires Valid(b) && !b.firstClickDone
    requires b.rows == 1 && b.cols == 2 && b.bombs == 0
    ensures var s := Reveal(b, 0, 0, {});
      && s.board.clickCount == 1
      && (forall q :: q in s.board.cells ==> s.board.cells[q].revealed)
  {
    assert ValidPlacement(b.rows, b.cols, b.bombs, Pos(0, 0), {});
    SuccessCountsOneClick(b, 0, 0, {});
    FirstRevealIsSafe(b, 0, 0, {});
    ClickedBlankSettlesNeighbours(b, 0, 0, {});
    OneByTwoGridUncovered(Reveal(b, 0, 0, {}).board.cells);
  }

  /** As written: on a 1x2 board without mines the first click uncovers both
      cells but signals Continue, and every later request is InvalidMove, so
      Won never comes. */
  lemma OneByTwoBoardIsNeverWon(b: Board)
    requires Valid(b) && !b.firstClickDone
    requires b.rows == 1 && b.cols == 2 && b.bombs == 0
    ensures var s := Reveal(b, 0, 0, {});
      && s.outcome == Continue
      && (forall q :: q in s.board.cells ==> s.board.cells[q].revealed)
      && (forall row, col, mines :: Reveal(s.board, row, col, mines).outcome == InvalidMove)
  {
    OneByTwoFirstClickUncoversAll(b);
    var s := Reveal(b, 0, 0, {});
    forall row, col, mines
      ensures Reveal(s.board, row, col, mines).outcome == InvalidMove
    {
      FullyRevealedRejects(s.board, row, col, mines);
    }
  }

  /** The counter the source's comments describe: the number of revealed
      safe cells. */
  ghost predicate CountsCells(b: Board) {
    Valid(b) && b.clickCount == |RevealedSet(b.cells)|
  }

  /** The counter and win test after a successful request, counting the
      cells the request uncovered. */
  function Recount(b: Board, w: Step): (s: Step)
    requires CountsCells(b) && Valid(w.board) && w.board.firstClickDone
    requires b.firstClickDone ==> Grows(b.cells, w.board.cells)
    requires !b.firstClickDone ==> b.cells == map[]
    ensures CountsCells(s.board) && s.board.cells == w.board.cells
    ensures s.outcome == Won || s.outcome == Continue
    ensures s.outcome == Won <==>
      forall q :: q in s.board.cells && !s.board.cells[q].bomb ==> s.board.cells[q].revealed
  {
    var uncovered := RevealedSet(w.board.cells) - RevealedSet(b.cells);
    var board := w.board.(clickCount := b.clickCount + |uncovered|);
    UncoveredCount(b, w.board);
    RecountKeepsValid(w.board, board.clickCount);
    CountingCellsWinRule(board);
    Step(board, if board.clickCount == board.cellsToReveal then Won else Continue)
  }

  /** revealCell with the counter advanced once per uncovered cell: the same
      board change as `Reveal`, and Won exactly when the request leaves every
      safe cell revealed. */
  function RevealCountingCells(b: Board, row: int, col: int, mines: set<Pos>): (s: Step)
    requires CountsCells(b) && PlacementFor(b, row, col, mines)
    ensures CountsCells(s.board)
    ensures s.board.cells == Reveal(b, row, col, mines).board.cells
    ensures s.outcome == Lost <==> Reveal(b, row, col, mines).outcome == Lost
    ensures s.outcome == InvalidMove <==> Reveal(b, row, col, mines).outcome == InvalidMove
    ensures s.outcome == Won <==>
      && Succeeds(b, Pos(row, col))
      && forall q :: q in s.board.cells && !s.board.cells[q].bomb ==> s.board.cells[q].revealed
  {
    var w := Reveal(b, row, col, mines);
    SuccessCountsOneClick(b, row, col, mines);
    if w.outcome == Continue || w.outcome == Won then
      Recount(b, w)
    else
      LostIffHiddenMine(b, row, col, mines);
      InvalidIffOutOfRangeOrRevealed(b, row, col, mines);
      w
  }

  /** A laid-out board stays valid under any click count up to the number
      of revealed cells. */
  lemma RecountKeepsValid(b: Board, n: int)
    requires Valid(b) && b.firstClickDone
    requires 0 <= n <= |RevealedSet(b.cells)|
    ensures Valid(b.(clickCount := n))
  {
  }

  /** With a counter of revealed cells, reaching rows*cols - bombs means
      every safe cell is revealed. */
  lemma CountingCellsWinRule(b: Board)
    requires Valid(b) && b.firstClickDone && b.clickCount == |RevealedSet(b.cells)|
    ensures b.clickCount == b.cellsToReveal <==>
      forall q :: q in b.cells && !b.cells[q].bomb ==> b.cells[q].revealed
  {
    AllSafeRevealedIff(b);
    SubsetCount(RevealedSet(b.cells), SafeSet(b.cells));
  }

  /** Cells revealed before a request stay revealed, so the cells it
      uncovers number the difference of the two counts. */
  lemma UncoveredCount(b: Board, r: Board)
    requires b.firstClickDone ==> Grows(b.cells, r.cells)
    requires !b.firstClickDone ==> b.cells == map[]
    ensures |RevealedSet(r.cells) - RevealedSet(b.cells)|
      == |RevealedSet(r.cells)| - |RevealedSet(b.cells)|
  {
    if !b.firstClickDone {
      assert RevealedSet(b.cells) == {};
    }
    assert RevealedSet(b.cells) <= RevealedSet(r.cells);
    assert RevealedSet(r.cells) == (RevealedSet(r.cells) - RevealedSet(b.cells)) + RevealedSet(b.cells);
  }

  /** Corrected: the same 1x2 board without mines is won by its first click. */
  lemma OneByTwoBoardIsWonWhenCountingCells(b: Board)
    requires CountsCells(b) && !b.firstClickDone
    requires b.rows == 1 && b.cols == 2 && b.bombs == 0
    ensures RevealCountingCells(b, 0, 0, {}).outcome == Won
  {
    OneByTwoBoardIsNeverWon(b);
    assert ValidPlacement(b.rows, b.cols, b.bombs, Pos(0, 0), {});
    assert Succeeds(b, Pos(0, 0));
  }
}
