# Démineur rule engine in Dafny

This project models the rule engine of a Minesweeper game ("démineur"). The
engine owns a `rows × cols` board. It lays the mines out lazily on the first
reveal request, keeping the 3×3 block around the first click clear. It wires
every cell to its in-bounds 8-neighbourhood. It answers each reveal request
with one of four outcomes: Continue, Won, Lost or InvalidMove. A request that
succeeds uncovers the clicked cell and cascades through neighbouring cells
that have no adjacent mine.

The model is functional. A board is an immutable value, and `Reveal` returns
the new board together with the outcome.

- `geometry.dfy`, module `Geometry`: coordinates, the bounds check, the eight
  directions in the order the source visits them, the in-bounds
  neighbourhood, Chebyshev distance and the first-click safe zone.
- `cells.dfy`, module `Cells` (the source's `AbstractCell`): the cell record,
  both constructors, `setRevealed`, `addAdjacentCell` with its capacity of
  eight, and the adjacent-mine count. Neighbour references are coordinates.
  A grid (`map<Pos, Cell>`) resolves them to cells.
- `flood.dfy`, module `Flood` (the source's `revealCellRecursive`):
  - `RevealFrom` is one recursive call.
  - `RevealEach` is the loop over the eight directions inside it.
  - The two are mutually recursive. Termination is measured by the number of
    unrevealed cells.
- `demineur.dfy`, module `Demineur` (the source's `Demineur`):
  - the board record, the constructor and accessors, `getCell`, and the
    first-click layout (`initializeCells` and `setAdjacentCells`);
  - `revealCell`, as `Reveal`;
  - `attemptRandomReveal`;
  - the rejection-sampling placement loop over an injected sequence of
    random draws.
- `properties.dfy`, module `RevealProperties`: what one reveal request does
  to a valid board.
- `win_counter.dfy`, module `WinCounter`: the win-counter discrepancy
  described under "Findings" below, and a corrected variant.

`Valid(b)` is the invariant of every board reachable from `NewBoard` (with
`rows, cols > 0` and `bombs >= 0`) through `Reveal`:

- Before the first click, the grid is empty and the click counter is 0.
- After the first click, there is one cell per in-bounds coordinate, and its
  neighbours are exactly its in-bounds 8-neighbourhood.
- There are exactly `bombs` mines, and no mine is revealed.
- The click counter never exceeds the number of revealed cells.

`Reveal` takes the mine set as a parameter. It is used only on the first
in-bounds click, and it must satisfy `ValidPlacement`: `bombs` distinct
in-bounds cells, none in the safe zone. Those are the postconditions of the
source's placement loop.

The click counter follows the code. It goes up once per successful
`revealCell` call, however many cells the cascade uncovers, and Won is
signalled when it reaches `rows*cols - bombs`. The comments at
lib/Demineur.java:15 and lib/Demineur.java:70-71 describe the counter as the
number of revealed safe cells instead. The constructor validates nothing, and
`NewBoard` follows it.

## Model

| member | source | states |
|---|---|---|
| Cells.NewCell | lib/AbstractCell.java:22-27 | a new cell has the given mine flag, is unrevealed, has no neighbours and therefore counts zero adjacent mines in any grid |
| Cells.DefaultCell | lib/AbstractCell.java:30-35 | the default cell has no mine, is unrevealed and counts zero adjacent mines |
| Cells.SetRevealed | lib/AbstractCell.java:50-52 | afterwards the cell is revealed; its mine flag and neighbours are unchanged, and an already revealed cell is left as it is |
| Cells.SetRevealedIdempotent | lib/AbstractCell.java:50-52 | marking a cell revealed twice equals marking it once |
| Cells.AddAdjacent | lib/AbstractCell.java:57-63 | with fewer than eight neighbours the new one is appended; otherwise the cell is unchanged; the mine and revealed flags never change and the neighbour count stays within eight |
| Cells.AddAllAdjacent | lib/Demineur.java:153-159 | adding a list of neighbours in order to a cell with room for them appends exactly that list; flags are untouched and capacity is kept |
| Cells.CountMines | lib/AbstractCell.java:66-74 | the count over a neighbour list is at most its length, and zero exactly when no listed neighbour is a mine |
| Cells.AdjacentBombs | lib/AbstractCell.java:66-74 | the adjacent-mine count of a cell lies in [0, number of stored neighbours] ⊆ [0, 8] and is zero exactly when no stored neighbour is a mine |
| Cells.GetAdjacentBombs | lib/AbstractCell.java:66-74 | the source's counting loop computes the adjacent-mine count |
| Cells.CountMinesIsMineIndices | lib/AbstractCell.java:66-74 | the count equals the number of neighbour slots holding a mine |
| Cells.CountMinesSameMines | lib/AbstractCell.java:69 | the count depends only on the mine flags of the grid |
| Geometry.AllPositionsCount | lib/Demineur.java:24-25 | a rows × cols grid has exactly rows*cols cells |
| Geometry.InBoundsOffsets | lib/Demineur.java:153-158 | applying the directions in order and keeping the in-bounds results yields exactly the in-bounds offsets, without repeats when the directions are distinct |
| Geometry.Neighbours | lib/Demineur.java:149-158 | the wired neighbourhood of a cell is exactly the in-bounds cells at Chebyshev distance 1, at most eight of them and none repeated |
| Geometry.NeighbourSymmetric | lib/Demineur.java:148-162 | the neighbour relation is symmetric on in-bounds cells |
| Geometry.InSafeZone | lib/Demineur.java:143-145 | a cell is in the first click's safe zone exactly when it lies within Chebyshev distance 1 of the click |
| Flood.RevealOneCell | lib/Demineur.java:81-83 | revealing a hidden cell removes exactly that cell from the unrevealed ones, so the cascade's measure decreases |
| Flood.SameLayoutKeeps | lib/Demineur.java:83-86 | changing only revealed flags keeps the mine set, which cells are blank, and which cells are settled |
| Flood.RevealFrom | lib/Demineur.java:78-97 | the cascade does nothing from a settled cell; a hidden safe cell with an adjacent mine is revealed alone; otherwise it reveals only safe cells, un-reveals nothing, changes no mine flag or neighbour list, leaves every neighbour of each blank cell it revealed revealed or mined, and reaches every cell it reveals from the start along neighbouring blank cells it revealed |
| Flood.RevealEach | lib/Demineur.java:88-96 | running the cascade from each cell of a list leaves every listed cell settled, and every cell it reveals is reached from a listed cell along neighbouring blank cells it revealed, with the other guarantees of a single cascade |
| Demineur.NewBoard | lib/Demineur.java:20-26 | the constructor validates nothing; with positive dimensions and non-negative mines the board is valid, nothing is laid out or revealed, the counter is 0 and the win target is rows*cols - bombs |
| Demineur.GetRowCount | lib/Demineur.java:29-31 | the row count is positive and bounds every cell's row |
| Demineur.GetColCount | lib/Demineur.java:33-35 | the column count is positive and bounds every cell's column |
| Demineur.GetClickCount | lib/Demineur.java:108-110 | the click count is between 0 and the number of revealed cells |
| Demineur.GetBombCount | lib/Demineur.java:113-115 | after layout the mine count equals the number of mine cells |
| Demineur.GetCell | lib/Demineur.java:100-105 | lookup yields nothing outside the bounds or before the first click, and otherwise the cell at that coordinate |
| Demineur.InitializeCells | lib/Demineur.java:118-140 | after placement there is one unrevealed cell per in-bounds coordinate, without neighbours yet, and the mines are exactly the placed set |
| Demineur.SetAdjacentCells | lib/Demineur.java:148-162 | wiring gives each fresh cell exactly its in-bounds neighbourhood in direction order and changes no flag |
| Demineur.FirstClick | lib/Demineur.java:49-53 | first-click initialization yields a valid laid-out board whose mines are the placed set, with nothing revealed, and sets the first-click flag |
| Demineur.Cascade | lib/Demineur.java:68 | the cascade changes only the board's grid: only revealed flags, never a mine; a numbered start is revealed alone; the start ends settled, blank cells it reveals have settled neighbours, and every revealed cell is reached from the start |
| Demineur.CascadeKeepsLayout | lib/Demineur.java:79-96 | a cascade keeps the board laid out, its mine set unchanged and no mine revealed |
| Demineur.CascadeRevealsStart | lib/Demineur.java:81-83 | a cascade from a hidden safe cell reveals it and so strictly increases the number of revealed cells |
| Demineur.CascadeKeepsValid | lib/Demineur.java:67-68 | advancing the counter by one and cascading keeps the board valid |
| Demineur.Reveal | lib/Demineur.java:42-75 | a reveal keeps the board valid and the dimensions fixed; out of range it is InvalidMove with the board unchanged; in range the board is initialized afterwards; Won and Continue are told apart by whether the new counter equals rows*cols - bombs |
| Demineur.AttemptRandomReveal | lib/Demineur.java:165-175 | the hint is the first cell in row-major order that is neither revealed nor a mine, or none when no such cell exists |
| Demineur.PlaceMines | lib/Demineur.java:127-139 | when the rejection loop over the draws finishes, it has placed exactly `bombs` distinct in-bounds mines, none in the safe zone, all taken from the draws |
| Demineur.PlacementNeedsRoom | lib/Demineur.java:128-139 | with more mines than cells outside the safe zone the loop never finishes, whatever the draws |
| RevealProperties.SafeCount | lib/Demineur.java:25 | a laid-out grid has rows*cols minus its mine count safe cells |
| RevealProperties.RevealedFillsSafe | lib/Demineur.java:70-71 | revealed cells are safe cells, and there are as many of them as safe cells exactly when every safe cell is revealed |
| RevealProperties.AllSafeRevealedIff | lib/Demineur.java:70-74 | on a valid board at least rows*cols - bombs cells are revealed exactly when every safe cell is |
| RevealProperties.OutOfRangeIsInvalid | lib/Demineur.java:44-46 | an out-of-range request is InvalidMove before any initialization, and the board, its first-click flag and its counter are unchanged |
| RevealProperties.FirstRevealIsSafe | lib/Demineur.java:49-65 | the first in-range click lays out exactly the given mines, none within Chebyshev distance 1 of the click, counts one click and is never Lost |
| RevealProperties.RevealedCellIsInvalid | lib/Demineur.java:58-60 | revealing a revealed cell is InvalidMove and changes nothing |
| RevealProperties.LostIffHiddenMine | lib/Demineur.java:62-65 | Lost is signalled exactly for a hidden mine on a started board, and the board is unchanged, with the mine still unrevealed |
| RevealProperties.InvalidIffOutOfRangeOrRevealed | lib/Demineur.java:44-60 | InvalidMove is signalled exactly for an out-of-range coordinate or a revealed cell, and the board is unchanged |
| RevealProperties.SuccessCountsOneClick | lib/Demineur.java:67-68 | Continue or Won comes exactly from an in-range first click or a hidden safe cell; the counter then rises by exactly one however many cells are uncovered; the clicked cell is revealed and the number of revealed cells grows; on a started board nothing is un-revealed, no mine is revealed and no mine moves |
| RevealProperties.WonIffCounterReachesTarget | lib/Demineur.java:72-74 | Won is signalled exactly by a successful request whose incremented counter equals rows*cols - bombs |
| RevealProperties.WonIsSound | lib/Demineur.java:70-74 | when Won is signalled every safe cell is revealed |
| RevealProperties.ClickedBlankSettlesNeighbours | lib/Demineur.java:86-96 | when the clicked cell has no adjacent mine, each of its in-bounds neighbours ends revealed or mined, on the first click too |
| RevealProperties.RevealCascades | lib/Demineur.java:79-96 | on a started board a successful request on a numbered cell reveals that cell alone; otherwise every neighbour of each blank cell it reveals is settled, and every cell it reveals is reached from the clicked cell along neighbouring blank cells it revealed |
| RevealProperties.WiringIsSymmetric | lib/Demineur.java:148-162 | after layout each cell's neighbours are its in-bounds 8-neighbourhood, at most eight, and the relation is symmetric |
| RevealProperties.BlankIffNoNeighbourMine | lib/Demineur.java:86 | after layout a cell counts zero exactly when no in-bounds neighbour is a mine |
| RevealProperties.SingleCellBoardIsWon | lib/Demineur.java:72-74 | the first click on a 1×1 board without mines is Won |
| WinCounter.OneByTwoBoardIsNeverWon | lib/Demineur.java:67-74 | as written: on a 1×2 board without mines the first click uncovers both cells yet signals Continue, and every later request is InvalidMove, so Won never comes |
| WinCounter.FullyRevealedRejects | lib/Demineur.java:58-60 | once every cell is revealed every request is InvalidMove |
| WinCounter.OneByTwoFirstClickUncoversAll | lib/Demineur.java:67-68 | on a 1×2 board without mines the first click uncovers both cells and counts one click |
| WinCounter.Recount | lib/Demineur.java:70-74 | counting uncovered cells, the counter equals the number of revealed cells and Won is signalled exactly when every safe cell is revealed |
| WinCounter.RevealCountingCells | lib/Demineur.java:67-74 | corrected: the same board change as the source's reveal, and Won exactly for a successful request that leaves every safe cell revealed |
| WinCounter.OneByTwoBoardIsWonWhenCountingCells | lib/Demineur.java:72-74 | corrected: the 1×2 board without mines is won by its first click |

## Findings

| source | as written | input that shows it | evidently intended | confidence | as-written member | corrected member |
|---|---|---|---|---|---|---|
| lib/Demineur.java:67-74 | `clickCount` goes up once per successful request. Won is signalled only when it equals `rows*cols - bombs`, although one cascade can uncover many cells. | A 1×2 board with 0 mines, first click at (0,0). The cascade uncovers both cells, but `clickCount` is 1 and the target is 2, so the result is Continue. Every later request is InvalidMove, so the game can never be won. | The comments at lines 15 and 70-71 call the counter the number of revealed safe cells, so Won should fire when every safe cell is revealed. | high; not executed | WinCounter.OneByTwoBoardIsNeverWon | WinCounter.RevealCountingCells |

The rest of the model keeps the code's counter, because it describes what the
program does. `WinCounter.RevealCountingCells` is the corrected definition. It
performs the same board change as `Reveal`, but it advances the counter by the
number of cells the request uncovered. Under that counter, Won is proved to
fire exactly when every safe cell is revealed.

## Left out

- Random draws: `Math.random` is not modelled. `PlaceMines` takes the draws as
  a finite sequence of in-bounds coordinates. `Reveal` takes the resulting
  mine set as a parameter that must satisfy `ValidPlacement`.
- PlaceMines: returns None when the finite draws run out, where the source
  would keep drawing. `PlacementNeedsRoom` states the case in which it never
  finishes.
- The neighbour-overflow error message in `addAdjacentCell` is I/O.
  `AddAdjacent` models it as leaving the cell unchanged.
- The exception classes are replaced by the `Outcome` datatype. Lost, Won and
  InvalidMove are outcomes, and Continue stands for a normal return.
- Java object identity: neighbour references are coordinates resolved
  through the grid, and null cells before the first click are an empty grid.
- `AttemptRandomReveal` requires the grid to be laid out. The source would
  dereference null cells before the first click.
- Java `int` overflow of `rows * cols` and of the counter is not modelled.
  Negative array sizes are excluded by `Valid`: `rows, cols > 0` and
  `bombs >= 0`.
- `isBomb` and `isRevealed` are the `bomb` and `revealed` fields of `Cell`.
  No function in the model changes `bomb` after construction.
- `setAdjacentCells` visits the cells in row-major order. The model wires all
  cells at once, because each cell receives only its own neighbours.
- `revealCellRecursive` recurses once per uncovered cell, so a large blank
  board can overflow the Java call stack. The functional cascade has no such
  limit, and that failure is not modelled.
- Presentation and entry-point code are not part of this model.
