/** The cascading reveal of the board: reveal a safe cell and, when it has no
    adjacent mine, repeat on each of its in-bounds neighbours in direction
    order. `RevealFrom` is one recursive call of the source, `RevealEach` the
    loop over the eight directions inside it. */
module Flood {
  import opened Geometry
  import opened Cells

  function Unrevealed(g: Grid): set<Pos> {
    set p | p in g && !g[p].revealed
  }

  function RevealedSet(g: Grid): set<Pos> {
    set p | p in g && g[p].revealed
  }

  function MineSet(g: Grid): set<Pos> {
    set p | p in g && g[p].bomb
  }

  /** Same cells, same mine flags, same neighbour lists: only revealed flags
      may differ. */
  predicate SameLayout(g: Grid, h: Grid) {
    && g.Keys == h.Keys
    && forall p :: p in g ==> h[p].bomb == g[p].bomb && h[p].adjacent == g[p].adjacent
  }

  /** No cell is un-revealed on the way from `g` to `h`. */
  predicate Grows(g: Grid, h: Grid) {
    forall p :: p in g && g[p].revealed ==> p in h && h[p].revealed
  }

  /** `p` is hidden in `g` and revealed in `h`. */
  predicate Newly(g: Grid, h: Grid, p: Pos) {
    p in g && p in h && !g[p].revealed && h[p].revealed
  }

  /** Nothing is left for the cascade to do at `p`: it is outside the grid,
      already revealed, or a mine. */
  predicate Settled(g: Grid, p: Pos) {
    p !in g || g[p].revealed || g[p].bomb
  }

  /** A cell without adjacent mines: the cascade expands from it. */
  predicate Blank(g: Grid, p: Pos) {
    p in g && AdjacentBombs(g[p], g) == 0
  }

  ghost predicate RevealsNoMine(g: Grid, h: Grid) {
    forall q :: Newly(g, h, q) ==> !h[q].bomb
  }

  /** Every blank cell revealed between `g` and `h` has all its neighbours
      settled in `h`. */
  ghost predicate Closed(rows: int, cols: int, g: Grid, h: Grid) {
    forall z, n :: Newly(g, h, z) && Blank(h, z) && n in Neighbours(rows, cols, z) ==> Settled(h, n)
  }

  /** `path` walks through neighbouring cells, and every cell on it but the
      last is a blank cell revealed between `g` and `h`: the cascade can
      step along it from its first cell to its last. */
  ghost predicate CascadePath(rows: int, cols: int, g: Grid, h: Grid, path: seq<Pos>) {
    && |path| > 0
    && forall k :: 0 <= k < |path| - 1 ==>
         && Newly(g, h, path[k])
         && Blank(h, path[k])
         && path[k + 1] in Neighbours(rows, cols, path[k])
  }

  /** Every cell revealed between `g` and `h` lies at the end of a cascade
      path that begins at a starting cell. */
  ghost predicate Reached(rows: int, cols: int, g: Grid, h: Grid, starts: seq<Pos>) {
    forall q :: Newly(g, h, q) ==>
      exists path :: CascadePath(rows, cols, g, h, path) && path[0] in starts && path[|path| - 1] == q
  }

  lemma SubsetCount<T>(a: set<T>, b: set<T>)
    requires a <= b
    ensures |a| <= |b|
    ensures |a| == |b| ==> a == b
  {
    assert b == a + (b - a);
    if |a| == |b| {
      assert |b - a| == 0;
    }
  }

  /** Revealing a hidden cell removes exactly it from the hidden ones. */
  lemma RevealOneCell(g: Grid, p: Pos)
    requires p in g && !g[p].revealed
    ensures Unrevealed(g[p := SetRevealed(g[p])]) == Unrevealed(g) - {p}
    ensures |Unrevealed(g[p := SetRevealed(g[p])])| < |Unrevealed(g)|
  {
    assert Unrevealed(g[p := SetRevealed(g[p])]) == Unrevealed(g) - {p};
  }

  /** Layout-preserving steps keep blank cells blank and settled cells
      settled. */
  lemma SameLayoutKeeps(g: Grid, h: Grid)
    requires SameLayout(g, h)
    ensures MineSet(g) == MineSet(h)
    ensures forall z :: Blank(g, z) <==> Blank(h, z)
    ensures Grows(g, h) ==> forall n :: Settled(g, n) ==> Settled(h, n)
  {
    forall z | z in g
      ensures AdjacentBombs(g[z], g) == AdjacentBombs(h[z], h)
    {
      CountMinesSameMines(g[z].adjacent, g, h);
    }
  }

  /** A cascade path stays one when the cells it steps on are still newly
      revealed and blank in another pair of grids. */
  lemma PathCarries(rows: int, cols: int, g: Grid, h: Grid, g': Grid, h': Grid, path: seq<Pos>)
    requires CascadePath(rows, cols, g, h, path)
    requires forall x :: Newly(g, h, x) ==> Newly(g', h', x)
    requires SameLayout(h, h')
    ensures CascadePath(rows, cols, g', h', path)
  {
    SameLayoutKeeps(h, h');
  }

  /** Revealing one hidden cell reaches just that cell. */
  lemma ReachedAlone(rows: int, cols: int, g: Grid, p: Pos)
    requires p in g && !g[p].revealed
    ensures Reached(rows, cols, g, g[p := SetRevealed(g[p])], [p])
  {
    var g1 := g[p := SetRevealed(g[p])];
    assert CascadePath(rows, cols, g, g1, [p]);
    forall q | Newly(g, g1, q)
      ensures exists path :: CascadePath(rows, cols, g, g1, path) && path[0] in [p] && path[|path| - 1] == q
    {
      assert q == p;
    }
  }

  /** A blank revealed cell can be put in front of a cascade path that
      starts at one of its neighbours. */
  lemma PrependBlank(rows: int, cols: int, g: Grid, h: Grid, p: Pos, path: seq<Pos>)
    requires CascadePath(rows, cols, g, h, path)
    requires Newly(g, h, p) && Blank(h, p) && path[0] in Neighbours(rows, cols, p)
    ensures CascadePath(rows, cols, g, h, [p] + path)
  {
    var full := [p] + path;
    forall k | 0 <= k < |full| - 1
      ensures Newly(g, h, full[k]) && Blank(h, full[k])
        && full[k + 1] in Neighbours(rows, cols, full[k])
    {
      if k > 0 {
        assert full[k] == path[k - 1] && full[k + 1] == path[k];
      }
    }
  }

  /** Revealing `p` first changes which cells are newly revealed only at `p`. */
  lemma NewlyAfterStart(g: Grid, g1: Grid, h: Grid, p: Pos)
    requires p in g && !g[p].revealed && g1 == g[p := SetRevealed(g[p])]
    requires SameLayout(g1, h) && Grows(g1, h)
    ensures Newly(g, h, p)
    ensures forall x :: Newly(g1, h, x) ==> Newly(g, h, x)
    ensures forall x :: Newly(g, h, x) && x != p ==> Newly(g1, h, x)
  {
  }

  /** A cell the neighbours' cascade reached is reached from the blank
      start through it. */
  lemma ReachedPastStart(rows: int, cols: int, g: Grid, g1: Grid, h: Grid, p: Pos, q: Pos)
    requires Newly(g, h, p) && Blank(h, p) && Newly(g1, h, q)
    requires forall x :: Newly(g1, h, x) ==> Newly(g, h, x)
    requires Reached(rows, cols, g1, h, Neighbours(rows, cols, p))
    ensures exists path :: CascadePath(rows, cols, g, h, path) && path[0] in [p] && path[|path| - 1] == q
  {
    var path :| CascadePath(rows, cols, g1, h, path)
      && path[0] in Neighbours(rows, cols, p) && path[|path| - 1] == q;
    PathCarries(rows, cols, g1, h, g, h, path);
    PrependBlank(rows, cols, g, h, p, path);
    assert ([p] + path)[|path|] == q;
  }

  /** Revealing a blank start and then cascading from its neighbours reaches
      every revealed cell from the start. */
  lemma ReachedThroughBlank(rows: int, cols: int, g: Grid, g1: Grid, h: Grid, p: Pos)
    requires p in g && !g[p].revealed && g1 == g[p := SetRevealed(g[p])]
    requires SameLayout(g1, h) && Grows(g1, h) && Blank(h, p)
    requires Reached(rows, cols, g1, h, Neighbours(rows, cols, p))
    ensures Reached(rows, cols, g, h, [p])
  {
    NewlyAfterStart(g, g1, h, p);
    forall q | Newly(g, h, q)
      ensures exists path :: CascadePath(rows, cols, g, h, path) && path[0] in [p] && path[|path| - 1] == q
    {
      if q == p {
        assert CascadePath(rows, cols, g, h, [p]);
      } else {
        ReachedPastStart(rows, cols, g, g1, h, p, q);
      }
    }
  }

  /** Cascading from the first start and then from the others reaches every
      revealed cell from one of the starts. */
  lemma ReachedInTurn(rows: int, cols: int, g: Grid, g1: Grid, h: Grid, qs: seq<Pos>)
    requires |qs| > 0
    requires SameLayout(g, g1) && Grows(g, g1) && SameLayout(g1, h) && Grows(g1, h)
    requires Reached(rows, cols, g, g1, [qs[0]])
    requires Reached(rows, cols, g1, h, qs[1..])
    ensures Reached(rows, cols, g, h, qs)
  {
    forall q | Newly(g, h, q)
      ensures exists path :: CascadePath(rows, cols, g, h, path) && path[0] in qs && path[|path| - 1] == q
    {
      if Newly(g, g1, q) {
        var path :| CascadePath(rows, cols, g, g1, path) && path[0] in [qs[0]] && path[|path| - 1] == q;
        PathCarries(rows, cols, g, g1, g, h, path);
      } else {
        assert Newly(g1, h, q);
        var path :| CascadePath(rows, cols, g1, h, path) && path[0] in qs[1..] && path[|path| - 1] == q;
        PathCarries(rows, cols, g1, h, g, h, path);
      }
    }
  }

  function RevealFrom(rows: int, cols: int, g: Grid, p: Pos): (h: Grid)
    ensures SameLayout(g, h) && Grows(g, h) && RevealsNoMine(g, h)
    ensures Settled(h, p)
    ensures Settled(g, p) ==> h == g
    ensures !Settled(g, p) && !Blank(g, p) ==> h == g[p := SetRevealed(g[p])]
    ensures Closed(rows, cols, g, h)
    ensures Reached(rows, cols, g, h, [p])
    ensures Unrevealed(h) <= Unrevealed(g)
    decreases |Unrevealed(g)|, 0
  {
    if Settled(g, p) then g
    else
      var g1 := g[p := SetRevealed(g[p])];
      RevealOneCell(g, p);
      SameLayoutKeeps(g, g1);
      if AdjacentBombs(g1[p], g1) > 0 then
        ReachedAlone(rows, cols, g, p);
        g1
      else
        var ns := Neighbours(rows, cols, p);
        var h := RevealEach(rows, cols, g1, ns);
        SameLayoutKeeps(g1, h);
        assert Blank(h, p);
        assert forall z :: Newly(g, h, z) ==> z == p || Newly(g1, h, z);
        ReachedThroughBlank(rows, cols, g, g1, h, p);
        h
  }

  function RevealEach(rows: int, cols: int, g: Grid, qs: seq<Pos>): (h: Grid)
    ensures SameLayout(g, h) && Grows(g, h) && RevealsNoMine(g, h)
    ensures forall i :: 0 <= i < |qs| ==> Settled(h, qs[i])
    ensures Closed(rows, cols, g, h)
    ensures Reached(rows, cols, g, h, qs)
    ensures Unrevealed(h) <= Unrevealed(g)
    decreases |Unrevealed(g)|, |qs|
  {
    if qs == [] then g
    else
      var g1 := RevealFrom(rows, cols, g, qs[0]);
      SubsetCount(Unrevealed(g1), Unrevealed(g));
      var h := RevealEach(rows, cols, g1, qs[1..]);
      SameLayoutKeeps(g1, h);
      assert forall z :: Newly(g, h, z) ==> Newly(g, g1, z) || Newly(g1, h, z);
      assert qs == [qs[0]] + qs[1..];
      ReachedInTurn(rows, cols, g, g1, h, qs);
      h
  }
}
