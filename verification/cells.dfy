/** One square of the board: an immutable mine flag, a revealed flag that
    only ever goes from false to true, and up to eight neighbour references
    (coordinates here) from which its adjacent-mine count is derived. */
module Cells {
  import opened Geometry

  /** A cell stores at most this many neighbours. */
  const Capacity: nat := 8

  /** `adjacent` holds the filled prefix of the source's eight-slot array,
      so its length is the source's adjacentCellCount. */
  datatype Cell = Cell(bomb: bool, revealed: bool, adjacent: seq<Pos>)

  /** A grid resolves neighbour coordinates to cells. */
  type Grid = map<Pos, Cell>

  predicate WellFormed(c: Cell) {
    |c.adjacent| <= Capacity
  }

  /** Whether the neighbour reference `q` denotes a mine cell of `g`. */
  predicate IsMineAt(g: Grid, q: Pos) {
    q in g && g[q].bomb
  }

  /** Mines among the first |adj| neighbour references, counted front to back. */
  function CountMines(adj: seq<Pos>, g: Grid): (n: nat)
    ensures n <= |adj|
    ensures n == 0 <==> forall i :: 0 <= i < |adj| ==> !IsMineAt(g, adj[i])
    decreases |adj|
  {
    if adj == [] then 0
    else
      var front := adj[..|adj| - 1];
      assert forall i :: 0 <= i < |front| ==> front[i] == adj[i];
      CountMines(front, g) + (if IsMineAt(g, adj[|adj| - 1]) then 1 else 0)
  }

  /** The number of mine cells among the stored neighbours of `c`. */
  function AdjacentBombs(c: Cell, g: Grid): (n: nat)
    ensures n <= |c.adjacent|
    ensures WellFormed(c) ==> n <= Capacity
    ensures n == 0 <==> forall i :: 0 <= i < |c.adjacent| ==> !IsMineAt(g, c.adjacent[i])
  {
    CountMines(c.adjacent, g)
  }

  /** A new cell with the given mine flag: unrevealed and without neighbours. */
  function NewCell(bomb: bool): (c: Cell)
    ensures WellFormed(c) && c.bomb == bomb && !c.revealed
    ensures forall g :: AdjacentBombs(c, g) == 0
  {
    Cell(bomb, false, [])
  }

  /** The default constructor builds a cell without a mine. */
  function DefaultCell(): (c: Cell)
    ensures WellFormed(c) && !c.bomb && !c.revealed
    ensures forall g :: AdjacentBombs(c, g) == 0
  {
    NewCell(false)
  }

  function SetRevealed(c: Cell): (r: Cell)
    ensures r.revealed
    ensures r.bomb == c.bomb && r.adjacent == c.adjacent
    ensures c.revealed ==> r == c
  {
    c.(revealed := true)
  }

  /** Marking a cell revealed twice is the same as marking it once. */
  lemma SetRevealedIdempotent(c: Cell)
    ensures SetRevealed(SetRevealed(c)) == SetRevealed(c)
  {
  }

  /** Appends `q` to the neighbours while a slot is free, otherwise leaves the
      cell as it is (the source only prints an error). */
  function AddAdjacent(c: Cell, q: Pos): (r: Cell)
    ensures r.bomb == c.bomb && r.revealed == c.revealed
    ensures |c.adjacent| < Capacity ==> r.adjacent == c.adjacent + [q]
    ensures |c.adjacent| >= Capacity ==> r == c
    ensures WellFormed(c) ==> WellFormed(r)
  {
    if |c.adjacent| < Capacity then c.(adjacent := c.adjacent + [q]) else c
  }

  /** `AddAdjacent` applied to every element of `qs`, in order. */
  function AddAllAdjacent(c: Cell, qs: seq<Pos>): (r: Cell)
    ensures r.bomb == c.bomb && r.revealed == c.revealed
    ensures WellFormed(c) ==> WellFormed(r)
    ensures |c.adjacent| + |qs| <= Capacity ==> r.adjacent == c.adjacent + qs
    decreases |qs|
  {
    if qs == [] then c
    else
      var r := AddAllAdjacent(AddAdjacent(c, qs[0]), qs[1..]);
      assert |c.adjacent| + |qs| <= Capacity ==> c.adjacent + [qs[0]] + qs[1..] == c.adjacent + qs;
      r
  }

  /** The loop of the source's getAdjacentBombs. */
  method GetAdjacentBombs(c: Cell, g: Grid) returns (count: nat)
    ensures count == AdjacentBombs(c, g)
  {
    count := 0;
    var i := 0;
    while i < |c.adjacent|
      invariant 0 <= i <= |c.adjacent|
      invariant count == CountMines(c.adjacent[..i], g)
    {
      assert c.adjacent[..i + 1][..i] == c.adjacent[..i];
      if IsMineAt(g, c.adjacent[i]) {
        count := count + 1;
      }
      i := i + 1;
    }
    assert c.adjacent[..i] == c.adjacent;
  }

  /** The indices of the neighbour references that denote mines. */
  function MineIndices(adj: seq<Pos>, g: Grid): set<int> {
    set i | 0 <= i < |adj| && IsMineAt(g, adj[i])
  }

  /** The count is the number of neighbour slots that hold a mine. */
  lemma {:induction false} CountMinesIsMineIndices(adj: seq<Pos>, g: Grid)
    ensures CountMines(adj, g) == |MineIndices(adj, g)|
    decreases |adj|
  {
    if adj != [] {
      var n := |adj| - 1;
      var front := adj[..n];
      CountMinesIsMineIndices(front, g);
      assert forall i :: 0 <= i < n ==> front[i] == adj[i];
      if IsMineAt(g, adj[n]) {
        assert MineIndices(adj, g) == MineIndices(front, g) + {n};
      } else {
        assert MineIndices(adj, g) == MineIndices(front, g);
      }
    }
  }

  /** The count only looks at mine flags: two grids with the same mines
      count the same. */
  lemma {:induction false} CountMinesSameMines(adj: seq<Pos>, g: Grid, h: Grid)
    requires forall q :: IsMineAt(g, q) == IsMineAt(h, q)
    ensures CountMines(adj, g) == CountMines(adj, h)
    decreases |adj|
  {
    if adj != [] {
      CountMinesSameMines(adj[..|adj| - 1], g, h);
    }
  }
}
