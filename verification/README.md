# CirclePop board model

This project models the board of CirclePop, a "pop the colour group" puzzle, in Dafny. The board is implemented by
`BoardManager`:

- It is a grid of `width * height` circles. Each circle holds a colour index in `[0, numColors)`.
- A click on a circle pops the circle's 4-connected group of same-coloured circles, if the group has at least
  `minPopAmt` members.
- In every column, the surviving circles then fall down in their original order.
- The emptied top rows get freshly drawn random colours.
- The `_clickable` lock keeps moves from overlapping.

Cells are stored row-major: the circle in column `x`, row `y` has index `x + y * width`, and row 0 is the bottom row.
A circle never moves; only its colour changes. So the model names each circle by its index and stores the board as an
`array<int>` of colour indices.

The project has five modules:

- `Coords` (coords.dfy): conversions between a cell index and its map coordinate.
- `Matching` (matching.dfy): the colour group of a cell, defined as the set of cells reachable through same-coloured
  4-neighbours. It is proved to be the least set that contains the clicked cell and that no same-coloured neighbour
  step leaves.
- `Search` (search.dfy): the invariant of the open/closed/popped-list flood fill, and the lemmas that carry it through
  each step.
- `Collapser` (collapser.dfy): a value-level definition of the collapse.
  - A collapsed column is its surviving colours, bottom to top, followed by one fresh draw per popped cell.
  - Columns are refilled in increasing order, so the draws are numbered across the whole board in that order.
  - The module also holds the loop invariants of the in-place collapse (`SettleInv` for one column, `CollapsedBelow`
    for the board) and the lemmas that begin, advance and end each loop.
- `Board` (board.dfy): the class `BoardManager` with `Init`, `MakeMove`, `AddNeighbors`, `UpdateBoard` and
  `ClearBoard`, and the loops they run.
  - The flood fill of `MakeMove` sits in its own read-only method, `FindRegion`.
  - The per-column work of `UpdateBoard` sits in `SettleColumn`, its row loop in `SettleRows`, and one pass of
    that loop in `SettleRow`.
  - `SettleRow` uses the single-cell accessors `GetCell` and `SetCell`, and `NextUnpopped` (the `while` at source
    lines 187-188).

The random colour source (`Random.Range(0, _numCols)`) is a parameter `rng: nat -> int`. Draw `k` of a call is
`rng(k)`. `Init` draws in cell order. `UpdateBoard` draws in the order the source's loops run: column by column from
the left, each column bottom to top.

## Model

| member | source | states |
|---|---|---|
| Coords.InBoard | CirclePop/Assets/Scripts/BoardManager.cs:89-90 | the bounds check that clicks and neighbour probes pass; a board with no columns or no rows accepts none |
| Coords.MapCoordToIndex | CirclePop/Assets/Scripts/BoardManager.cs:256-259 | a coordinate inside the columns lands in the block of `width` consecutive indices that holds its row; `CoordRoundTrip` and `IndexRoundTrip` state that it inverts `IndexToMapCoord` |
| Coords.IndexToMapCoord | CirclePop/Assets/Scripts/BoardManager.cs:237-243 | the coordinate of an index lies in columns `[0, width)` and non-negative rows, and `x + y * width` gives back the index |
| Coords.CoordRoundTrip | CirclePop/Assets/Scripts/BoardManager.cs:256-259 | a coordinate inside the columns maps to a non-negative index that `IndexToMapCoord` maps back to the same coordinate |
| Coords.IndexRoundTrip | CirclePop/Assets/Scripts/BoardManager.cs:237-243 | `MapCoordToIndex(IndexToMapCoord(i)) == i` for every index |
| Coords.InBoardIndex | CirclePop/Assets/Scripts/BoardManager.cs:89-90 | a coordinate inside the columns passes the bounds check exactly when its index is in `[0, width * height)` |
| Coords.IndexInBoard | CirclePop/Assets/Scripts/BoardManager.cs:222-224 | an index is below `width * height` exactly when its coordinate is on the board |
| Coords.ColumnIndices | CirclePop/Assets/Scripts/BoardManager.cs:180-181 | every cell `(x, y)` of a column has an index on the board that maps back to `(x, y)` |
| Matching.PathStaysInClosedSet | CirclePop/Assets/Scripts/BoardManager.cs:122-128 | a same-colour neighbour path that starts in a set closed under same-colour neighbour steps never leaves it |
| Matching.RegionIsLeastClosedSet | CirclePop/Assets/Scripts/BoardManager.cs:101-130 | the colour group holds the clicked cell, no same-colour neighbour step leaves it, and it lies inside every such closed set holding the clicked cell (it is the maximal connected component) |
| Matching.RegionMaximal | CirclePop/Assets/Scripts/BoardManager.cs:122-128 | a same-coloured 4-neighbour of a group cell is in the group |
| Matching.RegionConnected | CirclePop/Assets/Scripts/BoardManager.cs:101-130 | every group cell has the clicked cell's colour and is joined to it by a path of same-coloured neighbours inside the group |
| Search.DistinctCardinality | CirclePop/Assets/Scripts/BoardManager.cs:105-126 | a popped list without repetitions has as many entries as cells, so the `numPopped` counter equals the group size |
| Search.DistinctBounded | CirclePop/Assets/Scripts/BoardManager.cs:112 | a list of distinct cells of the board has at most `width * height` entries (the search terminates) |
| Search.SearchStart | CirclePop/Assets/Scripts/BoardManager.cs:101-109 | after the origin is popped and closed and its neighbours are queued, the search invariant holds |
| Search.SkipStep | CirclePop/Assets/Scripts/BoardManager.cs:115-122 | examining a queued cell of another colour moves it to the closed list, keeps the invariant and grows the closed list |
| Search.PopStep | CirclePop/Assets/Scripts/BoardManager.cs:115-129 | examining a queued cell of the target colour pops it, queues its unseen neighbours, and keeps the invariant |
| Search.NextQueue | CirclePop/Assets/Scripts/BoardManager.cs:215-233 | the queue after a pop is distinct, holds no closed cell, keeps the old queue, and adds only neighbours of the popped cell |
| Search.ClosedGrows | CirclePop/Assets/Scripts/BoardManager.cs:118-119 | moving the queue head to the closed list keeps both lists repetition-free, with the closed list still below `width * height` |
| Search.MembersTail | CirclePop/Assets/Scripts/BoardManager.cs:118 | removing the head of the queue removes exactly that cell |
| Search.SearchDone | CirclePop/Assets/Scripts/BoardManager.cs:112-130 | when the queue is empty the popped cells are exactly the origin's colour group, all on the board |
| Collapser.Survivors | CirclePop/Assets/Scripts/BoardManager.cs:183-196 | the surviving colours of a column number its height minus its popped cells |
| Collapser.CountPopped | CirclePop/Assets/Scripts/BoardManager.cs:159 | a column has at most as many popped cells as rows |
| Collapser.Draws | CirclePop/Assets/Scripts/BoardManager.cs:198-200 | `n` fresh colours, the i-th being draw `base + i` of the colour source |
| Collapser.CollapseColumn | CirclePop/Assets/Scripts/BoardManager.cs:175-209 | a collapsed column keeps the column's height; what each row holds is stated by `SurvivorLands`, `SurvivorsKeepOrder` and `FreshOnTop` |
| Collapser.UnpoppedColumnUnchanged | CirclePop/Assets/Scripts/BoardManager.cs:168-170 | a column without popped cells draws nothing and is left exactly as it was |
| Collapser.RowsBelowLowestUnchanged | CirclePop/Assets/Scripts/BoardManager.cs:176-177 | every row below the lowest popped row keeps its colour |
| Collapser.SurvivorLands | CirclePop/Assets/Scripts/BoardManager.cs:185-196 | an un-popped cell at row `y` lands at the row counting the survivors below it, which is at most `y` (it never rises) |
| Collapser.SurvivorsKeepOrder | CirclePop/Assets/Scripts/BoardManager.cs:185-196 | of two surviving cells the lower lands strictly lower: the fall keeps the column's order |
| Collapser.SurvivorsFromColumn | CirclePop/Assets/Scripts/BoardManager.cs:194-196 | every surviving colour is a colour of the original column |
| Collapser.FreshOnTop | CirclePop/Assets/Scripts/BoardManager.cs:192-200 | the top `CountPopped` rows of a collapsed column hold draws `base, base + 1, ...` in order, and every row below them holds a colour of the original column |
| Collapser.CollapseColumnInRange | CirclePop/Assets/Scripts/BoardManager.cs:200 | collapsing keeps every colour of a column in `[0, numColors)` when the column and every draw are |
| Collapser.SettleStart | CirclePop/Assets/Scripts/BoardManager.cs:176-177 | starting at the lowest popped row is sound: the rows below it are already collapsed, and exactly `rowStart` survivors lie below `rowStart + 1` |
| Collapser.SettleStep | CirclePop/Assets/Scripts/BoardManager.cs:184-200 | the row being written takes the next un-popped cell above the cursor when there is one, otherwise the next fresh draw, which is the collapsed column's colour for that row |
| Collapser.SettleExtend | CirclePop/Assets/Scripts/BoardManager.cs:204-206 | writing row `row` of a column collapsed below `row` makes it collapsed below `row + 1` |
| Collapser.SettleBegin | CirclePop/Assets/Scripts/BoardManager.cs:175-177 | the per-column loop invariant holds at `rowStart`, with the read cursor `lastRow` one row above the write row |
| Collapser.SettleAdvance | CirclePop/Assets/Scripts/BoardManager.cs:177-209 | one row of the per-column loop keeps its invariant: rows below the write row are collapsed, the read cursor stays strictly above the write row, one draw is used per row read past the top, and other columns are untouched |
| Collapser.SettleEnd | CirclePop/Assets/Scripts/BoardManager.cs:177-209 | at the top of the column the column is its collapse, one colour per popped cell was drawn, and other columns are untouched |
| Collapser.CollapseBegin | CirclePop/Assets/Scripts/BoardManager.cs:165-166 | before the column loop nothing has changed and nothing was drawn |
| Collapser.CollapseAdvance | CirclePop/Assets/Scripts/BoardManager.cs:166-210 | collapsing one more column, with draws numbered on from those of the columns to its left, keeps the board loop invariant |
| Collapser.CollapseEnd | CirclePop/Assets/Scripts/BoardManager.cs:166-210 | after the last column the board is the collapse of the popped cells |
| Collapser.CollapseAt | CirclePop/Assets/Scripts/BoardManager.cs:204-206 | the collapsed board's cell at `(x, y)` is row `y` of the collapse of column `x` |
| Collapser.ColumnWrite | CirclePop/Assets/Scripts/BoardManager.cs:204-206 | writing the cell at `(x, y)` changes row `y` of column `x` and no other column |
| Collapser.ColumnsDetermineBoard | CirclePop/Assets/Scripts/BoardManager.cs:166 | two boards with the same columns are equal |
| Collapser.CollapseColumns | CirclePop/Assets/Scripts/BoardManager.cs:166-210 | every column of the collapsed board is the collapse of that column with its own draws |
| Collapser.UntouchedColumnUnchanged | CirclePop/Assets/Scripts/BoardManager.cs:170 | a column with no popped cell is the same on the collapsed board |
| Collapser.CollapseInRange | CirclePop/Assets/Scripts/BoardManager.cs:200 | collapsing keeps every colour of the board in `[0, numColors)` when the board and the colour source are |
| Collapser.NonContiguousExample | CirclePop/Assets/Scripts/BoardManager.cs:185-188 | removing rows 1 and 3 of a five-row column gives `[a, c, e, draw 0, draw 1]` |
| Board.SettleRows | CirclePop/Assets/Scripts/BoardManager.cs:176-209 | the row loop keeps the column collapsed below the row being filled, from `rowStart` to the top |
| Board.SettleRow | CirclePop/Assets/Scripts/BoardManager.cs:180-208 | one pass of the row loop: the row takes the first un-popped cell at or above the cursor, which lies strictly above the row, or else the next fresh draw; the collapse invariant moves up one row |
| Board.SettleColumn | CirclePop/Assets/Scripts/BoardManager.cs:175-209 | collapsing one column in place: the column becomes its collapse, with draws numbered from `drawn`; exactly one colour per popped cell is drawn; other columns are unchanged |
| Board.NextUnpopped | CirclePop/Assets/Scripts/BoardManager.cs:184-188 | the first row at or above `from` that was not popped (or a row at or above `height` when none is left); all rows skipped were popped |
| Board.GetCell | CirclePop/Assets/Scripts/BoardManager.cs:196 | reads row `y` of column `x` |
| Board.SetCell | CirclePop/Assets/Scripts/BoardManager.cs:204-206 | changes row `y` of column `x` and nothing else |
| Board.ColumnCount | CirclePop/Assets/Scripts/BoardManager.cs:159 | a column's popped count is at most the number of popped cells |
| Board.ColumnCountPositive | CirclePop/Assets/Scripts/BoardManager.cs:170 | a column's count is positive exactly when some popped cell lies in it |
| Board.ScanPopped | CirclePop/Assets/Scripts/BoardManager.cs:148-163 | `colOffsets[c]` is the number of popped cells in column `c`; `rowStart[c]` is the lowest popped row of column `c`, or `height` when there is none |
| Board.ColumnFacts | CirclePop/Assets/Scripts/BoardManager.cs:149-177 | from the scan: a column with a zero count has no popped row, otherwise `rowStart` is a popped row with none below it |
| Board.BoardManager.constructor | CirclePop/Assets/Scripts/BoardManager.cs:15-20 | a fresh manager has no cell array at all (`_cells` is null until the first `Init`), is locked, and has size and colour count 0 |
| Board.BoardManager.Init | CirclePop/Assets/Scripts/BoardManager.cs:36-65 | creates `w * h` cells, cell `i` taking draw `i` (all colours in range), sets the size and colour count, and unlocks the board |
| Board.BoardManager.ClearBoard | CirclePop/Assets/Scripts/BoardManager.cs:270-278 | fails (the walk over a null `_cells`) exactly when there is no cell array yet, changing nothing; otherwise leaves an empty cell array and keeps the size, colour count and lock |
| Board.BoardManager.ClearBoardGuarded | CirclePop/Assets/Scripts/BoardManager.cs:270-278 | the clear with a null check: from any state, an empty cell array, with size, colour count and lock kept |
| Board.FirstGameClear | CirclePop/Assets/Scripts/GameManager.cs:99-103 | clearing the board of a new manager, as the first game start does, fails |
| Board.StartBoard | CirclePop/Assets/Scripts/GameManager.cs:99-103 | the guarded clear followed by `Init` leaves a valid, unlocked board of the requested size whose cell `i` holds draw `i`, on a new manager as on a used one |
| Board.ClickBeforeInit | CirclePop/Assets/Scripts/BoardManager.cs:77-82 | a click on a new manager is rejected with -1, because the board starts locked |
| Board.BoardManager.AddNeighbors | CirclePop/Assets/Scripts/BoardManager.cs:215-233 | appends only on-board 4-neighbours of the origin that are neither closed nor already open, without repeats, keeps the old open list as a prefix, and leaves every neighbour open or closed |
| Board.BoardManager.FindRegion | CirclePop/Assets/Scripts/BoardManager.cs:101-130 | the popped list starts with the clicked cell, has no duplicates, counts its entries in `numPopped`, and holds exactly the clicked cell's colour group |
| Board.BoardManager.UpdateBoard | CirclePop/Assets/Scripts/BoardManager.cs:146-211 | the board becomes the collapse of the popped cells, with colours still in range |
| Board.BoardManager.MakeMove | CirclePop/Assets/Scripts/BoardManager.cs:72-144 | requires a valid board and in-range draws only when the board is unlocked; a locked board or an off-board click gives -1 and changes nothing; a group smaller than `minPopAmt` gives -1, leaves the colours as they were and unlocks; otherwise the result is the group size (at least 1 and at least `minPopAmt`), the board is the collapse of the group, and the board is unlocked |

## Findings

| source | as written | input that shows it | evidently intended | confidence | as-written member | corrected member |
|---|---|---|---|---|---|---|
| CirclePop/Assets/Scripts/BoardManager.cs:270-278 | `ClearBoard` walks `_cells` with no null check, and `_cells` has no initialiser (line 19), so it is null until the first `Init`; `GameManager.StartGame` calls `ClearBoard` before `Init` (GameManager.cs:100-103) | the first game start on a new manager, shown by `Board.FirstGameClear` | clearing a manager that has no board yet leaves it without cells, so the `Init` that follows runs | medium, not executed | Board.BoardManager.ClearBoard | Board.BoardManager.ClearBoardGuarded |

## Left out

- Unity plumbing is not modelled: `Awake` and the `Instance` singleton, `Resources.Load`, `Instantiate`, `Destroy`,
  `Debug.Log` and the `Time.time` timing in `MakeMove`.
- The world/screen geometry is left out (`_cellDimensions`, `MapCoordToWorldPos`, `WorldPosToMapCoord`, the screen
  size passed to `Init`). `MakeMove` takes the clicked map coordinate `(x, y)` directly, as the integers that
  `Mathf.Floor` produces.
- The circles' visuals are left out: the `colors` palette, `SetColor`'s sprite colour and the `Drop` animation. Only a
  circle's colour index is kept. Circle.cs is not part of this model.
- `minPopAmt` comes from `GameManager`, and is a parameter of `MakeMove`. Of GameManager.cs only the board calls of
  `StartGame` are modelled (`StartBoard`); its scoring and move counting, and the layout code in UIScaler.cs, are not
  part of this model.
- `Random.Range` is replaced by the injected source `rng`, whose draws are assumed to lie in `[0, numColors)`.
- `IndexToMapCoord` divides as floats and then applies `FloorToInt`. The model uses integer division, which agrees for
  non-negative indices while they are exactly representable as floats (below 2^24).
- `_numCells` is not kept as a field. `Init` sets it to `width * height`, the length of the cell array it creates;
  nothing reads it afterwards, and `ClearBoard` leaves it unchanged while the cell array becomes empty.
- Board.BoardManager.MakeMove: requires `Valid()` when the board is unlocked, which says the cell array matches the
  board size. A click on an unlocked board emptied by a bare `ClearBoard` would index an empty array in the source
  and fail; the model does not cover that call.
- Board.BoardManager.ClearBoard: the failure of the walk over a null `_cells` is reported as a result instead of an
  exception that unwinds the caller; `Destroy` of each circle's game object is not modelled.
- Board.BoardManager.UpdateBoard: requires every popped index to lie on the board and the board width to be
  positive. The only caller passes a flood-fill result, which satisfies both.
- Concurrency is not modelled. The `_clickable` lock is modelled as a field set and cleared by `MakeMove`; how it
  interacts with animations running across frames is outside the model.
