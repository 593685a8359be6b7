/** Coordinates of the board, the eight directions a cell looks in, and the
    first-click safe zone. Cells refer to their neighbours by coordinate, so
    the neighbour relation of the board is a relation on `Pos`. */
module Geometry {

  /** A grid coordinate (row, column). */
  datatype Pos = Pos(row: int, col: int)

  predicate InBounds(rows: int, cols: int, p: Pos) {
    0 <= p.row < rows && 0 <= p.col < cols
  }

  /** Every coordinate of a rows x cols grid. */
  function AllPositions(rows: int, cols: int): (ps: set<Pos>)
    ensures forall p :: p in ps <==> InBounds(rows, cols, p)
  {
    set r, c | 0 <= r < rows && 0 <= c < cols :: Pos(r, c)
  }

  /** The coordinates of row `r`, columns 0 .. cols-1. */
  function RowPositions(r: int, cols: int): (ps: set<Pos>)
    ensures forall p :: p in ps <==> p.row == r && 0 <= p.col < cols
  {
    set c | 0 <= c < cols :: Pos(r, c)
  }

  lemma {:induction false} RowPositionsCount(r: int, cols: nat)
    ensures |RowPositions(r, cols)| == cols
  {
    if cols > 0 {
      RowPositionsCount(r, cols - 1);
      assert RowPositions(r, cols) == RowPositions(r, cols - 1) + {Pos(r, cols - 1)};
    } else {
      assert RowPositions(r, cols) == {};
    }
  }

  /** A grid is the grid of its first rows-1 rows plus its last row. */
  lemma AllPositionsSplit(rows: nat, cols: nat)
    requires rows > 0
    ensures AllPositions(rows, cols) == AllPositions(rows - 1, cols) + RowPositions(rows - 1, cols)
    ensures AllPositions(rows - 1, cols) !! RowPositions(rows - 1, cols)
  {
    var top := AllPositions(rows - 1, cols);
    var last := RowPositions(rows - 1, cols);
    forall p | p in AllPositions(rows, cols)
      ensures p in top + last
    {
      if p.row < rows - 1 {
        assert InBounds(rows - 1, cols, p);
      }
    }
  }

  /** One more row adds `cols` coordinates. */
  lemma AllPositionsGrow(rows: nat, cols: nat)
    requires rows > 0
    ensures |AllPositions(rows, cols)| == |AllPositions(rows - 1, cols)| + cols
  {
    RowPositionsCount(rows - 1, cols);
    AllPositionsSplit(rows, cols);
  }

  /** A rows x cols grid has exactly rows * cols coordinates. */
  lemma {:induction false} AllPositionsCount(rows: nat, cols: nat)
    ensures |AllPositions(rows, cols)| == rows * cols
  {
    if rows > 0 {
      AllPositionsCount(rows - 1, cols);
      AllPositionsGrow(rows, cols);
      assert (rows - 1) * cols + cols == rows * cols;
    } else {
      assert AllPositions(rows, cols) == {};
    }
  }

  function Abs(x: int): nat {
    if x < 0 then -x else x
  }

  /** Chebyshev distance: the number of king moves between two coordinates. */
  function Distance(p: Pos, q: Pos): nat {
    var dr := Abs(p.row - q.row);
    var dc := Abs(p.col - q.col);
    if dr < dc then dc else dr
  }

  /** The clamped 3x3 block centred on the first click never holds a mine. */
  predicate InSafeZone(p: Pos, anchor: Pos)
    ensures InSafeZone(p, anchor) <==> Distance(p, anchor) <= 1
  {
    Abs(p.row - anchor.row) <= 1 && Abs(p.col - anchor.col) <= 1
  }

  /** `q` is one of the in-bounds cells around `p`. */
  predicate IsNeighbour(rows: int, cols: int, p: Pos, q: Pos) {
    InBounds(rows, cols, q) && Distance(p, q) == 1
  }

  /** The eight offsets, in the order the board visits them. */
  const Directions: seq<(int, int)> :=
    [(-1, -1), (-1, 0), (-1, 1), (0, -1), (0, 1), (1, -1), (1, 0), (1, 1)]

  /** Where a non-zero offset of at most one step sits in `Directions`. */
  function DirectionIndex(dr: int, dc: int): (k: nat)
    requires -1 <= dr <= 1 && -1 <= dc <= 1 && (dr != 0 || dc != 0)
    ensures k < |Directions| && Directions[k] == (dr, dc)
  {
    if dr == -1 then dc + 1
    else if dr == 0 then (if dc == -1 then 3 else 4)
    else dc + 6
  }

  function Offset(p: Pos, d: (int, int)): Pos {
    Pos(p.row + d.0, p.col + d.1)
  }

  /** The offsets of `ds` that land in bounds, applied to `p`, in order. */
  function InBoundsOffsets(rows: int, cols: int, p: Pos, ds: seq<(int, int)>): (ns: seq<Pos>)
    ensures |ns| <= |ds|
    ensures forall q :: q in ns <==>
      exists i :: 0 <= i < |ds| && q == Offset(p, ds[i]) && InBounds(rows, cols, q)
    ensures (forall i, j :: 0 <= i < j < |ds| ==> ds[i] != ds[j]) ==>
      forall i, j :: 0 <= i < j < |ns| ==> ns[i] != ns[j]
  {
    if ds == [] then []
    else
      var q := Offset(p, ds[0]);
      var rest := InBoundsOffsets(rows, cols, p, ds[1..]);
      assert forall x :: x in rest <==>
        exists i :: 1 <= i < |ds| && x == Offset(p, ds[i]) && InBounds(rows, cols, x) by {
        forall x | x in rest
          ensures exists i :: 1 <= i < |ds| && x == Offset(p, ds[i]) && InBounds(rows, cols, x)
        {
          var k :| 0 <= k < |ds[1..]| && x == Offset(p, ds[1..][k]) && InBounds(rows, cols, x);
          assert ds[1..][k] == ds[k + 1];
        }
        forall x | exists i :: 1 <= i < |ds| && x == Offset(p, ds[i]) && InBounds(rows, cols, x)
          ensures x in rest
        {
          var k :| 1 <= k < |ds| && x == Offset(p, ds[k]) && InBounds(rows, cols, x);
          assert ds[1..][k - 1] == ds[k];
        }
      }
      if InBounds(rows, cols, q) then [q] + rest else rest
  }

  /** The in-bounds 8-neighbourhood of `p`, in direction order. */
  function Neighbours(rows: int, cols: int, p: Pos): (ns: seq<Pos>)
    ensures |ns| <= 8
    ensures forall q :: q in ns <==> IsNeighbour(rows, cols, p, q)
    ensures forall i, j :: 0 <= i < j < |ns| ==> ns[i] != ns[j]
  {
    var ns := InBoundsOffsets(rows, cols, p, Directions);
    forall q | IsNeighbour(rows, cols, p, q)
      ensures q in ns
    {
      var k := DirectionIndex(q.row - p.row, q.col - p.col);
      assert q == Offset(p, Directions[k]);
    }
    ns
  }

  /** Adjacency on the board is symmetric. */
  lemma NeighbourSymmetric(rows: int, cols: int, p: Pos, q: Pos)
    requires InBounds(rows, cols, p) && InBounds(rows, cols, q)
    ensures q in Neighbours(rows, cols, p) <==> p in Neighbours(rows, cols, q)
  {
  }
}
