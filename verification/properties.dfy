/** What one reveal request does to a valid board: which outcome it signals,
    what it changes and what it leaves alone. */
module RevealProperties {
  import opened Geometry
  import opened Cells
  import opened Flood
  import opened Demineur

  /** A request that reveals something: in bounds, and either the first click
      or a hidden safe cell. */
  ghost predicate Succeeds(b: Board, p: Pos) {
    && InBounds(b.rows, b.cols, p)
    && (!b.firstClickDone || Hintable(b.cells, p))
  }

  function SafeSet(g: Grid): set<Pos> {
    set p | p in g && !g[p].bomb
  }

  /** Safe and mine cells split a grid that covers the board. */
  lemma SafeCount(rows: nat, cols: nat, g: Grid)
    requires CellsCover(rows, cols, g)
    ensures |SafeSet(g)| == rows * cols - |MineSet(g)|
  {
    AllPositionsCount(rows, cols);
    assert g.Keys == AllPositions(rows, cols);
    assert g.Keys == SafeSet(g) + MineSet(g);
    assert SafeSet(g) !! MineSet(g);
  }

  /** A subset of the safe cells at least as large as all of them is all of
      them. */
  lemma RevealedFillsSafe(g: Grid)
    requires NoMineRevealed(g)
    ensures RevealedSet(g) <= SafeSet(g)
    ensures |RevealedSet(g)| >= |SafeSet(g)| <==> forall q :: q in g && !g[q].bomb ==> g[q].revealed
  {
    SubsetCount(RevealedSet(g), SafeSet(g));
    if forall q :: q in g && !g[q].bomb ==> g[q].revealed {
      assert RevealedSet(g) == SafeSet(g);
    }
    if |RevealedSet(g)| >= |SafeSet(g)| {
      assert RevealedSet(g) == SafeSet(g);
      forall q | q in g && !g[q].bomb
        ensures g[q].revealed
      {
        assert q in SafeSet(g);
      }
    }
  }

  /** On a laid-out board, the revealed cells number rows*cols - bombs
      exactly when every safe cell is revealed. */
  lemma AllSafeRevealedIff(b: Board)
    requires Valid(b) && b.firstClickDone
    ensures |SafeSet(b.cells)| == b.rows * b.cols - b.bombs
    ensures RevealedSet(b.cells) <= SafeSet(b.cells)
    ensures |RevealedSet(b.cells)| >= b.rows * b.cols - b.bombs <==>
      forall q :: q in b.cells && !b.cells[q].bomb ==> b.cells[q].revealed
  {
    SafeCount(b.rows, b.cols, b.cells);
    RevealedFillsSafe(b.cells);
  }

  /** Outside the grid: InvalidMove, and nothing changes, not even the
      first-click initialization. */
  lemma OutOfRangeIsInvalid(b: Board, row: int, col: int, mines: set<Pos>)
    requires Valid(b)
    requires !InBounds(b.rows, b.cols, Pos(row, col))
    ensures Reveal(b, row, col, mines) == Step(b, InvalidMove)
  {
  }

  /** The first in-bounds click lays out exactly the given mines, none within
      one step of the click, and can never be lost. */
  lemma FirstRevealIsSafe(b: Board, row: int, col: int, mines: set<Pos>)
    requires Valid(b) && !b.firstClickDone
    requires InBounds(b.rows, b.cols, Pos(row, col))
    requires ValidPlacement(b.rows, b.cols, b.bombs, Pos(row, col), mines)
    ensures var s := Reveal(b, row, col, mines);
      && (s.outcome == Continue || s.outcome == Won)
      && s.board.firstClickDone
      && s.board.clickCount == 1
      && MineSet(s.board.cells) == mines
      && |MineSet(s.board.cells)| == b.bombs
      && (forall q :: q in s.board.cells && InSafeZone(q, Pos(row, col)) ==> !s.board.cells[q].bomb)
  {
    var b1 := FirstClick(b, Pos(row, col), mines);
    assert b1.cells[Pos(row, col)].bomb ==> Pos(row, col) in MineSet(b1.cells);
    var s := Reveal(b, row, col, mines);
    SameLayoutKeeps(b1.cells, s.board.cells);
    forall q | q in s.board.cells && InSafeZone(q, Pos(row, col))
      ensures !s.board.cells[q].bomb
    {
      assert s.board.cells[q].bomb ==> q in MineSet(s.board.cells);
    }
  }

  /** Revealing a revealed cell is an invalid move that changes nothing. */
  lemma RevealedCellIsInvalid(b: Board, row: int, col: int, mines: set<Pos>)
    requires Valid(b) && b.firstClickDone
    requires InBounds(b.rows, b.cols, Pos(row, col)) && b.cells[Pos(row, col)].revealed
    ensures Reveal(b, row, col, mines) == Step(b, InvalidMove)
  {
  }

  /** Lost is signalled exactly for a hidden mine, and then nothing changes:
      the mine is not even marked revealed. */
  lemma LostIffHiddenMine(b: Board, row: int, col: int, mines: set<Pos>)
    requires Valid(b) && PlacementFor(b, row, col, mines)
    ensures Reveal(b, row, col, mines).outcome == Lost <==>
      && InBounds(b.rows, b.cols, Pos(row, col)) && b.firstClickDone
      && b.cells[Pos(row, col)].bomb && !b.cells[Pos(row, col)].revealed
    ensures Reveal(b, row, col, mines).outcome == Lost ==> Reveal(b, row, col, mines).board == b
  {
    if InBounds(b.rows, b.cols, Pos(row, col)) && !b.firstClickDone {
      FirstRevealIsSafe(b, row, col, mines);
    }
  }

  /** InvalidMove is signalled exactly for an out-of-range request or an
      already revealed cell, and then nothing changes. */
  lemma InvalidIffOutOfRangeOrRevealed(b: Board, row: int, col: int, mines: set<Pos>)
    requires Valid(b) && PlacementFor(b, row, col, mines)
    ensures Reveal(b, row, col, mines).outcome == InvalidMove <==>
      || !InBounds(b.rows, b.cols, Pos(row, col))
      || (b.firstClickDone && b.cells[Pos(row, col)].revealed)
    ensures Reveal(b, row, col, mines).outcome == InvalidMove ==> Reveal(b, row, col, mines).board == b
  {
    if InBounds(b.rows, b.cols, Pos(row, col)) && !b.firstClickDone {
      FirstRevealIsSafe(b, row, col, mines);
    }
  }

  /** A successful request counts one click however many cells its cascade
      uncovers, reveals the clicked cell, un-reveals nothing and moves no
      mine; it is exactly the in-bounds request on a hidden safe cell (or the
      first click). */
  lemma SuccessCountsOneClick(b: Board, row: int, col: int, mines: set<Pos>)
    requires Valid(b) && PlacementFor(b, row, col, mines)
    ensures var s := Reveal(b, row, col, mines);
      (s.outcome == Continue || s.outcome == Won) <==> Succeeds(b, Pos(row, col))
    ensures var s := Reveal(b, row, col, mines);
      Succeeds(b, Pos(row, col)) ==>
        && s.board.clickCount == b.clickCount + 1
        && s.board.cells[Pos(row, col)].revealed
        && |RevealedSet(s.board.cells)| > |RevealedSet(b.cells)|
    ensures var s := Reveal(b, row, col, mines);
      b.firstClickDone ==>
        && SameLayout(b.cells, s.board.cells)
        && Grows(b.cells, s.board.cells)
        && RevealsNoMine(b.cells, s.board.cells)
  {
    var p := Pos(row, col);
    if InBounds(b.rows, b.cols, p) {
      var b1 := if b.firstClickDone then b else FirstClick(b, p, mines);
      if !b.firstClickDone {
        FirstRevealIsSafe(b, row, col, mines);
        assert RevealedSet(b.cells) == {};
      }
      if !b1.cells[p].revealed && !b1.cells[p].bomb {
        CascadeRevealsStart(b1.(clickCount := b1.clickCount + 1), p);
      }
    }
  }

  /** Won is signalled exactly by a successful request whose incremented
      click counter reaches rows*cols - bombs. */
  lemma WonIffCounterReachesTarget(b: Board, row: int, col: int, mines: set<Pos>)
    requires Valid(b) && PlacementFor(b, row, col, mines)
    ensures var s := Reveal(b, row, col, mines);
      s.outcome == Won <==>
        Succeeds(b, Pos(row, col)) && b.clickCount + 1 == b.rows * b.cols - b.bombs
  {
    SuccessCountsOneClick(b, row, col, mines);
  }

  /** When Won is signalled, every safe cell is revealed. */
  lemma WonIsSound(b: Board, row: int, col: int, mines: set<Pos>)
    requires Valid(b) && PlacementFor(b, row, col, mines)
    requires Reveal(b, row, col, mines).outcome == Won
    ensures var g := Reveal(b, row, col, mines).board.cells;
      forall q :: q in g && !g[q].bomb ==> g[q].revealed
  {
    var s := Reveal(b, row, col, mines);
    WonIffCounterReachesTarget(b, row, col, mines);
    AllSafeRevealedIff(s.board);
  }

  /** The cascade of a successful request on a started game: every blank
      cell it reveals has all its neighbours revealed or mined, and every
      cell it reveals is the clicked one or next to a blank cell it
      revealed. */
  lemma RevealCascades(b: Board, row: int, col: int, mines: set<Pos>)
    requires Valid(b) && b.firstClickDone
    requires Succeeds(b, Pos(row, col))
    ensures var g := Reveal(b, row, col, mines).board.cells;
      && Closed(b.rows, b.cols, b.cells, g)
      && Reached(b.rows, b.cols, b.cells, g, [Pos(row, col)])
      && (!Blank(b.cells, Pos(row, col)) ==> g == b.cells[Pos(row, col) := SetRevealed(b.cells[Pos(row, col)])])
  {
  }

  /** When the clicked cell turns out blank, each of its in-bounds
      neighbours ends revealed or mined; this holds for the first click too. */
  lemma ClickedBlankSettlesNeighbours(b: Board, row: int, col: int, mines: set<Pos>)
    requires Valid(b) && PlacementFor(b, row, col, mines)
    requires Succeeds(b, Pos(row, col))
    ensures var h := Reveal(b, row, col, mines).board.cells;
      Blank(h, Pos(row, col)) ==>
        forall n :: n in Neighbours(b.rows, b.cols, Pos(row, col)) ==> Settled(h, n)
  {
    var p := Pos(row, col);
    var b1 := if b.firstClickDone then b else FirstClick(b, p, mines);
    var h := Reveal(b, row, col, mines).board.cells;
    assert h == Cascade(b1.(clickCount := b1.clickCount + 1), p).cells;
    assert Newly(b1.cells, h, p);
  }

  /** After layout every cell's neighbours are exactly its in-bounds
      8-neighbourhood: at most eight, without repeats, and symmetric. */
  lemma WiringIsSymmetric(b: Board, p: Pos, q: Pos)
    requires Valid(b) && b.firstClickDone
    requires p in b.cells && q in b.cells
    ensures |b.cells[p].adjacent| <= Capacity
    ensures q in b.cells[p].adjacent <==> IsNeighbour(b.rows, b.cols, p, q)
    ensures q in b.cells[p].adjacent <==> p in b.cells[q].adjacent
  {
    assert Wired(b.rows, b.cols, b.cells, p) && Wired(b.rows, b.cols, b.cells, q);
    NeighbourSymmetric(b.rows, b.cols, p, q);
  }

  /** After layout a cell counts zero exactly when no cell of its in-bounds
      8-neighbourhood is a mine. */
  lemma BlankIffNoNeighbourMine(b: Board, p: Pos)
    requires Valid(b) && b.firstClickDone && p in b.cells
    ensures Blank(b.cells, p) <==>
      forall q :: IsNeighbour(b.rows, b.cols, p, q) ==> !b.cells[q].bomb
  {
    var ns := b.cells[p].adjacent;
    assert Wired(b.rows, b.cols, b.cells, p);
    if Blank(b.cells, p) {
      forall q | IsNeighbour(b.rows, b.cols, p, q)
        ensures !b.cells[q].bomb
      {
        var i :| 0 <= i < |ns| && ns[i] == q;
      }
    }
  }

  /** A fresh 1x1 board without mines is won by its first click. */
  lemma SingleCellBoardIsWon(b: Board)
    requires Valid(b) && !b.firstClickDone
    requires b.rows == 1 && b.cols == 1 && b.bombs == 0
    ensures Reveal(b, 0, 0, {}).outcome == Won
  {
    assert ValidPlacement(1, 1, 0, Pos(0, 0), {});
    assert Succeeds(b, Pos(0, 0));
    WonIffCounterReachesTarget(b, 0, 0, {});
  }
}
