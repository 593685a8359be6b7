/** The board: dimensions, mine count, the grid of cells (laid out on the
    first reveal), the click counter, and the reveal operation with its four
    outcomes. The source signals Lost, Won and invalid moves with exceptions;
    here they are the `Outcome` of a `Step`. */
module Demineur {
  import opened Geometry
  import opened Cells
  import opened Flood

  datatype Outcome = Continue | Won | Lost | InvalidMove

  datatype Option<T> = None | Some(value: T)

  /** `cells` is empty until the first click (the source's array of null
      cells) and then holds one cell per in-bounds coordinate. */
  datatype Board = Board(
    rows: int,
    cols: int,
    bombs: int,
    cells: Grid,
    clickCount: int,
    cellsToReveal: int,
    firstClickDone: bool)

  /** The board after a reveal request, and what the request signalled. */
  datatype Step = Step(board: Board, outcome: Outcome)

  /** Exactly the in-bounds coordinates have a cell. */
  ghost predicate CellsCover(rows: int, cols: int, g: Grid) {
    forall p :: p in g <==> InBounds(rows, cols, p)
  }

  /** The cell at `p` holds exactly its in-bounds 8-neighbourhood, in
      direction order. */
  ghost predicate Wired(rows: int, cols: int, g: Grid, p: Pos) {
    p in g && g[p].adjacent == Neighbours(rows, cols, p)
  }

  /** Each in-bounds coordinate has a wired cell. The quantifier fires only
      on `Wired` terms: firing on every cell would make each cell's
      neighbours produce further cells without end. */
  ghost predicate LaidOut(rows: int, cols: int, g: Grid) {
    && CellsCover(rows, cols, g)
    && (forall p {:trigger Wired(rows, cols, g, p)} :: p in g ==> Wired(rows, cols, g, p))
  }

  ghost predicate NoMineRevealed(g: Grid) {
    forall p :: p in g && g[p].revealed ==> !g[p].bomb
  }

  /** The states a board reaches from `NewBoard` through `Reveal`. */
  ghost predicate Valid(b: Board) {
    && b.rows > 0 && b.cols > 0 && b.bombs >= 0
    && b.cellsToReveal == b.rows * b.cols - b.bombs
    && 0 <= b.clickCount
    && (!b.firstClickDone ==> b.cells == map[] && b.clickCount == 0)
    && (b.firstClickDone ==>
          && LaidOut(b.rows, b.cols, b.cells)
          && |MineSet(b.cells)| == b.bombs
          && NoMineRevealed(b.cells)
          && b.clickCount <= |RevealedSet(b.cells)|)
  }

  /** A mine set the source's placement loop can produce for a first click
      at `anchor`: `bombs` distinct in-bounds cells outside the safe zone. */
  ghost predicate ValidPlacement(rows: int, cols: int, bombs: int, anchor: Pos, mines: set<Pos>) {
    && mines <= AllPositions(rows, cols)
    && |mines| == bombs
    && forall m :: m in mines ==> !InSafeZone(m, anchor)
  }

  /** The mine set only matters for the first in-bounds click. */
  ghost predicate PlacementFor(b: Board, row: int, col: int, mines: set<Pos>) {
    !b.firstClickDone && InBounds(b.rows, b.cols, Pos(row, col)) ==>
      ValidPlacement(b.rows, b.cols, b.bombs, Pos(row, col), mines)
  }

  /** The constructor stores its arguments and validates nothing. */
  function NewBoard(rows: int, cols: int, bombs: int): (b: Board)
    ensures rows > 0 && cols > 0 && bombs >= 0 ==> Valid(b)
    ensures !b.firstClickDone && b.clickCount == 0 && RevealedSet(b.cells) == {}
    ensures forall row, col :: GetCell(b, row, col).None?
    ensures b.cellsToReveal == rows * cols - bombs
  {
    Board(rows, cols, bombs, map[], 0, rows * cols - bombs, false)
  }

  function GetRowCount(b: Board): (n: int)
    ensures Valid(b) ==> n > 0
    ensures forall p :: p in b.cells && Valid(b) ==> p.row < n
  {
    b.rows
  }

  function GetColCount(b: Board): (n: int)
    ensures Valid(b) ==> n > 0
    ensures forall p :: p in b.cells && Valid(b) ==> p.col < n
  {
    b.cols
  }

  /** The number of successful reveal requests so far; never more than the
      number of revealed cells. */
  function GetClickCount(b: Board): (n: int)
    ensures Valid(b) ==> 0 <= n <= |RevealedSet(b.cells)|
  {
    b.clickCount
  }

  function GetBombCount(b: Board): (n: int)
    ensures Valid(b) && b.firstClickDone ==> n == |MineSet(b.cells)|
  {
    b.bombs
  }

  /** Bounds-checked lookup: None outside the grid and before the first
      click. */
  function GetCell(b: Board, row: int, col: int): (r: Option<Cell>)
    ensures !InBounds(b.rows, b.cols, Pos(row, col)) ==> r.None?
    ensures r.Some? ==> Pos(row, col) in b.cells && r.value == b.cells[Pos(row, col)]
    ensures Valid(b) ==> (r.Some? <==> b.firstClickDone && InBounds(b.rows, b.cols, Pos(row, col)))
  {
    var p := Pos(row, col);
    if InBounds(b.rows, b.cols, p) && p in b.cells then Some(b.cells[p]) else None
  }

  /** The grid right after mine placement: a fresh cell everywhere, with a
      mine exactly on the cells of `mines`. */
  function InitializeCells(rows: int, cols: int, mines: set<Pos>): (g: Grid)
    requires mines <= AllPositions(rows, cols)
    ensures forall p :: p in g <==> InBounds(rows, cols, p)
    ensures MineSet(g) == mines
    ensures RevealedSet(g) == {}
    ensures forall p :: p in g ==> g[p].adjacent == []
  {
    map p | p in AllPositions(rows, cols) :: NewCell(p in mines)
  }

  /** Every cell is given its in-bounds neighbours, direction by direction. */
  function SetAdjacentCells(rows: int, cols: int, g: Grid): (h: Grid)
    ensures g.Keys == h.Keys
    ensures forall p :: p in g ==> h[p].bomb == g[p].bomb && h[p].revealed == g[p].revealed
    ensures forall p :: p in g && g[p].adjacent == [] ==> h[p].adjacent == Neighbours(rows, cols, p)
  {
    map p | p in g :: AddAllAdjacent(g[p], Neighbours(rows, cols, p))
  }

  /** The one-time initialization of the first click at `anchor`. */
  function FirstClick(b: Board, anchor: Pos, mines: set<Pos>): (r: Board)
    requires Valid(b) && !b.firstClickDone
    requires ValidPlacement(b.rows, b.cols, b.bombs, anchor, mines)
    ensures Valid(r) && r.firstClickDone
    ensures MineSet(r.cells) == mines && RevealedSet(r.cells) == {}
    ensures r == b.(cells := r.cells, firstClickDone := true)
  {
    var g := SetAdjacentCells(b.rows, b.cols, InitializeCells(b.rows, b.cols, mines));
    assert MineSet(g) == mines;
    assert RevealedSet(g) == {};
    b.(cells := g, firstClickDone := true)
  }

  /** The cascade run on the board's grid. */
  function Cascade(b: Board, p: Pos): (r: Board)
    ensures r == b.(cells := r.cells)
    ensures SameLayout(b.cells, r.cells) && Grows(b.cells, r.cells) && RevealsNoMine(b.cells, r.cells)
    ensures Closed(b.rows, b.cols, b.cells, r.cells)
    ensures Reached(b.rows, b.cols, b.cells, r.cells, [p])
    ensures !Settled(b.cells, p) && !Blank(b.cells, p) ==> r.cells == b.cells[p := SetRevealed(b.cells[p])]
    ensures Settled(r.cells, p)
  {
    b.(cells := RevealFrom(b.rows, b.cols, b.cells, p))
  }

  /** A cascade keeps the layout and the "no revealed mine" invariant. */
  lemma CascadeKeepsLayout(b: Board, p: Pos)
    requires Valid(b) && b.firstClickDone
    ensures LaidOut(b.rows, b.cols, Cascade(b, p).cells)
    ensures MineSet(Cascade(b, p).cells) == MineSet(b.cells)
    ensures NoMineRevealed(Cascade(b, p).cells)
  {
    var g := b.cells;
    var h := Cascade(b, p).cells;
    SameLayoutKeeps(g, h);
    forall q | q in h
      ensures Wired(b.rows, b.cols, h, q)
    {
      assert Wired(b.rows, b.cols, g, q);
    }
    forall q | q in h && h[q].revealed
      ensures !h[q].bomb
    {
      if !g[q].revealed {
        assert Newly(g, h, q);
      }
    }
  }

  /** A cascade from a hidden safe cell reveals at least that cell. */
  lemma CascadeRevealsStart(b: Board, p: Pos)
    requires p in b.cells && !b.cells[p].revealed && !b.cells[p].bomb
    ensures Cascade(b, p).cells[p].revealed
    ensures |RevealedSet(Cascade(b, p).cells)| > |RevealedSet(b.cells)|
  {
    var g := b.cells;
    var h := Cascade(b, p).cells;
    assert RevealedSet(g) + {p} <= RevealedSet(h);
    SubsetCount(RevealedSet(g) + {p}, RevealedSet(h));
  }

  /** A cascade from a hidden safe cell keeps the board valid even when the
      click counter has been advanced by one. */
  lemma CascadeKeepsValid(b: Board, p: Pos, clicks: int)
    requires Valid(b) && b.firstClickDone
    requires p in b.cells && !b.cells[p].revealed && !b.cells[p].bomb
    requires 0 <= clicks <= b.clickCount + 1
    ensures Valid(Cascade(b, p).(clickCount := clicks))
  {
    CascadeKeepsLayout(b, p);
    CascadeRevealsStart(b, p);
  }

  /** The source's revealCell. */
  function Reveal(b: Board, row: int, col: int, mines: set<Pos>): (s: Step)
    requires Valid(b)
    requires PlacementFor(b, row, col, mines)
    ensures Valid(s.board)
    ensures s.board.rows == b.rows && s.board.cols == b.cols && s.board.bombs == b.bombs
    ensures !InBounds(b.rows, b.cols, Pos(row, col)) ==> s == Step(b, InvalidMove)
    ensures InBounds(b.rows, b.cols, Pos(row, col)) ==> s.board.firstClickDone
    ensures s.outcome == Won || s.outcome == Continue ==>
      (s.outcome == Won <==> s.board.clickCount == b.rows * b.cols - b.bombs)
  {
    var p := Pos(row, col);
    if !InBounds(b.rows, b.cols, p) then Step(b, InvalidMove)
    else
      var b1 := if b.firstClickDone then b else FirstClick(b, p, mines);
      var cell := b1.cells[p];
      if cell.revealed then Step(b1, InvalidMove)
      else if cell.bomb then Step(b1, Lost)
      else
        var b2 := b1.(clickCount := b1.clickCount + 1);
        CascadeKeepsValid(b1, p, b2.clickCount);
        var b3 := Cascade(b2, p);
        Step(b3, if b3.clickCount == b3.cellsToReveal then Won else Continue)
  }

  /** A cell `AttemptRandomReveal` may suggest. */
  predicate Hintable(g: Grid, q: Pos) {
    q in g && !g[q].revealed && !g[q].bomb
  }

  /** `q` comes strictly before `p` in a row-by-row scan. */
  predicate RowMajorBefore(q: Pos, p: Pos) {
    q.row < p.row || (q.row == p.row && q.col < p.col)
  }

  /** The first hidden safe cell in row-major order, if any. The grid must
      be laid out (the source dereferences every cell). */
  method AttemptRandomReveal(b: Board) returns (hint: Option<Pos>)
    requires CellsCover(b.rows, b.cols, b.cells)
    ensures hint.Some? ==> InBounds(b.rows, b.cols, hint.value) && Hintable(b.cells, hint.value)
    ensures hint.Some? ==> forall q :: RowMajorBefore(q, hint.value) ==> !Hintable(b.cells, q)
    ensures hint.None? ==> forall q :: !Hintable(b.cells, q)
  {
    var i := 0;
    while i < b.rows
      invariant 0 <= i
      invariant forall q :: Hintable(b.cells, q) ==> q.row >= i
    {
      var j := 0;
      while j < b.cols
        invariant 0 <= j
        invariant forall q :: Hintable(b.cells, q) ==> q.row > i || (q.row == i && q.col >= j)
      {
        var cell := b.cells[Pos(i, j)];
        if !cell.revealed && !cell.bomb {
          return Some(Pos(i, j));
        }
        assert forall q: Pos :: Hintable(b.cells, q) && q.row == i && q.col == j ==> q == Pos(i, j);
        j := j + 1;
      }
      i := i + 1;
    }
    return None;
  }

  /** The source's rejection-sampling loop over an injected sequence of
      random in-bounds draws, starting from the mines already `placed`.
      None means the draws ran out before `bombs` mines were placed. */
  function PlaceMines(rows: int, cols: int, bombs: int, anchor: Pos, draws: seq<Pos>, placed: set<Pos>)
    : (r: Option<set<Pos>>)
    requires forall i :: 0 <= i < |draws| ==> InBounds(rows, cols, draws[i])
    requires placed <= AllPositions(rows, cols) && |placed| <= bombs
    requires forall m :: m in placed ==> !InSafeZone(m, anchor)
    ensures r.Some? ==> ValidPlacement(rows, cols, bombs, anchor, r.value) && placed <= r.value
    ensures r.Some? ==> forall m :: m in r.value && m !in placed ==> m in draws
    decreases |draws|
  {
    if |placed| >= bombs then Some(placed)
    else if draws == [] then None
    else
      var d := draws[0];
      var r := if InSafeZone(d, anchor) || d in placed
        then PlaceMines(rows, cols, bombs, anchor, draws[1..], placed)
        else PlaceMines(rows, cols, bombs, anchor, draws[1..], placed + {d});
      assert forall m :: m in draws[1..] ==> m in draws;
      r
  }

  /** The cells a mine may be placed on for a first click at `anchor`. */
  function OutsideSafeZone(rows: int, cols: int, anchor: Pos): set<Pos> {
    set p | p in AllPositions(rows, cols) && !InSafeZone(p, anchor)
  }

  /** With more mines than cells outside the safe zone the placement loop
      never finishes: no sequence of draws, however long, places them all. */
  lemma PlacementNeedsRoom(rows: int, cols: int, bombs: int, anchor: Pos, draws: seq<Pos>)
    requires forall i :: 0 <= i < |draws| ==> InBounds(rows, cols, draws[i])
    requires bombs > |OutsideSafeZone(rows, cols, anchor)|
    ensures PlaceMines(rows, cols, bombs, anchor, draws, {}) == None
  {
    var r := PlaceMines(rows, cols, bombs, anchor, draws, {});
    if r.Some? {
      SubsetCount(r.value, OutsideSafeZone(rows, cols, anchor));
    }
  }
}
