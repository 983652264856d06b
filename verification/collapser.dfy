/** What a successful move does to the board: in every column the cells that
    were not popped fall to the bottom in their original order, and the rows
    left empty at the top receive freshly drawn colours. Columns are read
    bottom (row 0) to top. */
module Collapser {
  import opened Coords

  /** Number of popped rows in a column. */
  function CountPopped(popped: seq<bool>): (k: nat)
    ensures k <= |popped|
  {
    if |popped| == 0 then 0
    else CountPopped(popped[..|popped| - 1]) + (if popped[|popped| - 1] then 1 else 0)
  }

  /** The colours of the cells of a column that were not popped, bottom to
      top: one per un-popped row, each taken from the column. */
  function Survivors(column: seq<int>, popped: seq<bool>): (s: seq<int>)
    requires |popped| == |column|
    ensures |s| + CountPopped(popped) == |column|
  {
    if |column| == 0 then []
    else
      var n := |column| - 1;
      assert popped[..n] == popped[..|popped| - 1];
      Survivors(column[..n], popped[..n]) + (if popped[n] then [] else [column[n]])
  }

  /** Survivors of the rows below row n. */
  function SurvivorsBelow(column: seq<int>, popped: seq<bool>, n: nat): (s: seq<int>)
    requires |popped| == |column| && n <= |column|
  {
    Survivors(column[..n], popped[..n])
  }

  /** A column after the collapse: its survivors, followed by one fresh colour
      per popped row, draws base, base + 1, ... of the colour source. */
  function CollapseColumn(column: seq<int>, popped: seq<bool>, rng: nat -> int, base: nat): (r: seq<int>)
    requires |popped| == |column|
    ensures |r| == |column|
  {
    Survivors(column, popped) + Draws(rng, base, CountPopped(popped))
  }

  /** Draws base, base + 1, ..., base + n - 1 of the colour source. */
  function Draws(rng: nat -> int, base: nat, n: nat): (d: seq<int>)
    ensures |d| == n
    ensures forall i :: 0 <= i < n ==> d[i] == rng(base + i)
  {
    if n == 0 then [] else Draws(rng, base, n - 1) + [rng(base + n - 1)]
  }

  /** The colours of column x, bottom to top. */
  function ColumnOf(board: seq<int>, width: nat, height: nat, x: nat): (column: seq<int>)
    requires |board| == width * height && x < width
    ensures |column| == height
  {
    seq(height, y requires 0 <= y < height =>
      InBoardIndex(Coord(x, y), width, height);
      board[MapCoordToIndex(Coord(x, y), width)])
  }

  /** Which rows of column x are popped. */
  function PoppedRows(popped: set<nat>, width: nat, height: nat, x: nat): (rows: seq<bool>)
    ensures |rows| == height
  {
    seq(height, y => MapCoordToIndex(Coord(x, y), width) in popped)
  }

  /** Number of colours drawn for the columns left of column x: columns are
      refilled in increasing order, each drawing one colour per popped cell. */
  function DrawBase(popped: set<nat>, width: nat, height: nat, x: nat): (base: nat)
  {
    if x == 0 then 0
    else DrawBase(popped, width, height, x - 1) + CountPopped(PoppedRows(popped, width, height, x - 1))
  }

  /** Column x of the board after the collapse. */
  function NewColumn(board: seq<int>, width: nat, height: nat, popped: set<nat>, rng: nat -> int, x: nat): (r: seq<int>)
    requires |board| == width * height && x < width
    ensures |r| == height
  {
    CollapseColumn(ColumnOf(board, width, height, x), PoppedRows(popped, width, height, x), rng,
                   DrawBase(popped, width, height, x))
  }

  /** The whole board after the popped cells are removed and every column is
      collapsed and refilled. */
  function Collapse(board: seq<int>, width: nat, height: nat, popped: set<nat>, rng: nat -> int): (r: seq<int>)
    requires width > 0 && |board| == width * height
    ensures |r| == |board|
  {
    seq(width * height, i requires 0 <= i < width * height =>
      IndexInBoard(i, width, height);
      var c := IndexToMapCoord(i, width);
      NewColumn(board, width, height, popped, rng, c.x)[c.y])
  }

  // ---------------------------------------------------------------------
  // Column-level properties

  /** Going one row up adds that row's colour to the survivors when it was
      not popped. */
  lemma SurvivorsStep(column: seq<int>, popped: seq<bool>, n: nat)
    requires |popped| == |column| && n < |column|
    ensures SurvivorsBelow(column, popped, n + 1)
         == SurvivorsBelow(column, popped, n) + (if popped[n] then [] else [column[n]])
  {
    assert column[..n + 1][..n] == column[..n];
    assert popped[..n + 1][..n] == popped[..n];
  }

  /** The survivors below a row are a prefix of the survivors below any
      higher row. */
  lemma {:induction false} SurvivorsPrefix(column: seq<int>, popped: seq<bool>, m: nat, n: nat)
    requires |popped| == |column| && m <= n <= |column|
    ensures SurvivorsBelow(column, popped, m) <= SurvivorsBelow(column, popped, n)
    decreases n - m
  {
    if m < n {
      SurvivorsPrefix(column, popped, m, n - 1);
      SurvivorsStep(column, popped, n - 1);
    }
  }

  /** Popped rows add no survivors: when every row from m up to n is popped,
      the survivors below n are those below m. */
  lemma {:induction false} SurvivorsSkipPopped(column: seq<int>, popped: seq<bool>, m: nat, n: nat)
    requires |popped| == |column| && m <= n <= |column|
    requires forall y :: m <= y < n ==> popped[y]
    ensures SurvivorsBelow(column, popped, n) == SurvivorsBelow(column, popped, m)
    decreases n - m
  {
    if m < n {
      SurvivorsSkipPopped(column, popped, m, n - 1);
      SurvivorsStep(column, popped, n - 1);
    }
  }

  /** No popped row below row n: the survivors below n are the column's
      bottom n colours. */
  lemma {:induction false} SurvivorsOfUnpoppedRows(column: seq<int>, popped: seq<bool>, n: nat)
    requires |popped| == |column| && n <= |column|
    requires forall y :: 0 <= y < n ==> !popped[y]
    ensures SurvivorsBelow(column, popped, n) == column[..n]
  {
    if n > 0 {
      SurvivorsOfUnpoppedRows(column, popped, n - 1);
      SurvivorsStep(column, popped, n - 1);
      assert column[..n] == column[..n - 1] + [column[n - 1]];
    }
  }

  /** A column with no popped cell is left exactly as it was. */
  lemma {:induction false} UnpoppedColumnUnchanged(column: seq<int>, popped: seq<bool>, rng: nat -> int, base: nat)
    requires |popped| == |column|
    requires forall y :: 0 <= y < |column| ==> !popped[y]
    ensures CountPopped(popped) == 0
    ensures CollapseColumn(column, popped, rng, base) == column
  {
    SurvivorsOfUnpoppedRows(column, popped, |column|);
    assert column[..|column|] == column && popped[..|column|] == popped;
  }

  /** Every row below the lowest popped row keeps its colour. */
  lemma {:induction false} RowsBelowLowestUnchanged(column: seq<int>, popped: seq<bool>, rng: nat -> int, base: nat, low: nat)
    requires |popped| == |column| && low <= |column|
    requires forall y :: 0 <= y < low ==> !popped[y]
    ensures forall y :: 0 <= y < low ==> CollapseColumn(column, popped, rng, base)[y] == column[y]
  {
    SurvivorsOfUnpoppedRows(column, popped, low);
    SurvivorsPrefix(column, popped, low, |column|);
    assert column[..|column|] == column && popped[..|column|] == popped;
  }

  /** A surviving cell falls (never rises) to the row just above the
      survivors below it, and keeps its colour. */
  lemma {:induction false} SurvivorLands(column: seq<int>, popped: seq<bool>, rng: nat -> int, base: nat, y: nat)
    requires |popped| == |column| && y < |column| && !popped[y]
    ensures |SurvivorsBelow(column, popped, y)| <= y
    ensures CollapseColumn(column, popped, rng, base)[|SurvivorsBelow(column, popped, y)|] == column[y]
  {
    SurvivorsStep(column, popped, y);
    SurvivorsPrefix(column, popped, y + 1, |column|);
    assert column[..y][..y] == column[..y];
    assert column[..|column|] == column && popped[..|column|] == popped;
  }

  /** Order preservation: of two surviving cells, the lower one lands on a
      strictly lower row, so no survivor passes another. */
  lemma {:induction false} SurvivorsKeepOrder(column: seq<int>, popped: seq<bool>, y1: nat, y2: nat)
    requires |popped| == |column| && y1 < y2 <= |column| && !popped[y1]
    ensures |SurvivorsBelow(column, popped, y1)| < |SurvivorsBelow(column, popped, y2)|
  {
    SurvivorsStep(column, popped, y1);
    SurvivorsPrefix(column, popped, y1 + 1, y2);
  }

  /** Where the in-place collapse of a column starts: at its lowest popped
      row rowStart, the survivors below the cursor rowStart + 1 number
      rowStart, and the rows below rowStart already hold their collapsed
      colours. */
  lemma SettleStart(column: seq<int>, popped: seq<bool>, rng: nat -> int, base: nat, rowStart: nat)
    requires |popped| == |column| && rowStart < |column| && popped[rowStart]
    requires forall y :: 0 <= y < rowStart ==> !popped[y]
    ensures |SurvivorsBelow(column, popped, rowStart + 1)| == rowStart <= |Survivors(column, popped)|
    ensures column == CollapseColumn(column, popped, rng, base)[..rowStart] + column[rowStart..]
  {
    SurvivorsPrefix(column, popped, rowStart + 1, |column|);
    assert column[..|column|] == column && popped[..|column|] == popped;
    SurvivorsOfUnpoppedRows(column, popped, rowStart);
    SurvivorsStep(column, popped, rowStart);
    RowsBelowLowestUnchanged(column, popped, rng, base, rowStart);
  }

  /** One step of the in-place collapse of a column. Row `row` is being
      filled; the survivors below the cursor lastRow number exactly row (or
      the cursor is past the top); newY is the first un-popped row at or
      above the cursor. Then the collapsed column holds at row `row` the
      colour of row newY when that is on the column, else the next fresh
      draw, and the cursor just above newY counts one more survivor. */
  lemma {:induction false} SettleStep(column: seq<int>, popped: seq<bool>, rng: nat -> int, base: nat,
                                      row: nat, lastRow: nat, newY: nat)
    requires |popped| == |column| && row < |column|
    requires lastRow <= |column| ==> |SurvivorsBelow(column, popped, lastRow)| == row
    requires lastRow > |column| ==> |Survivors(column, popped)| <= row
    requires lastRow <= newY && (lastRow <= |column| ==> newY <= |column|) && (lastRow > |column| ==> newY == lastRow)
    requires forall y :: lastRow <= y < newY ==> popped[y]
    requires newY < |column| ==> !popped[newY]
    ensures newY + 1 <= |column| ==> |SurvivorsBelow(column, popped, newY + 1)| == row + 1
    ensures newY < |column| ==>
      && row < |Survivors(column, popped)|
      && CollapseColumn(column, popped, rng, base)[row] == column[newY]
    ensures newY >= |column| ==>
      && |Survivors(column, popped)| <= row
      && CollapseColumn(column, popped, rng, base)[row] == rng(base + row - |Survivors(column, popped)|)
  {
    assert column[..|column|] == column && popped[..|column|] == popped;
    if lastRow <= |column| {
      SurvivorsSkipPopped(column, popped, lastRow, newY);
    }
    if newY < |column| {
      SurvivorLands(column, popped, rng, base, newY);
      SurvivorsStep(column, popped, newY);
      SurvivorsPrefix(column, popped, newY + 1, |column|);
    }
  }

  /** Every survivor is a colour of the column. */
  lemma {:induction false} SurvivorsFromColumn(column: seq<int>, popped: seq<bool>)
    requires |popped| == |column|
    ensures forall i :: 0 <= i < |Survivors(column, popped)| ==> Survivors(column, popped)[i] in column
  {
    if |column| > 0 {
      var n := |column| - 1;
      SurvivorsFromColumn(column[..n], popped[..n]);
      assert popped[..n] == popped[..|popped| - 1];
      forall i | 0 <= i < |Survivors(column[..n], popped[..n])|
        ensures Survivors(column[..n], popped[..n])[i] in column
      {
        assert Survivors(column[..n], popped[..n])[i] in column[..n];
      }
    }
  }

  /** Replacing row `row` of a partly collapsed column (collapsed below
      `row`, original from `row` up) by its collapsed colour extends the
      collapsed part by one row. */
  lemma SettleExtend(column: seq<int>, newColumn: seq<int>, row: nat)
    requires |newColumn| == |column| && row < |column|
    ensures (newColumn[..row] + column[row..])[row := newColumn[row]] == newColumn[..row + 1] + column[row + 1..]
  {
  }

  /** The top rows of a collapsed column, one per popped cell, hold fresh
      draws in bottom-to-top order; every row below them holds a survivor. */
  lemma FreshOnTop(column: seq<int>, popped: seq<bool>, rng: nat -> int, base: nat)
    requires |popped| == |column|
    ensures forall y :: |column| - CountPopped(popped) <= y < |column| ==>
      CollapseColumn(column, popped, rng, base)[y] == rng(base + y - (|column| - CountPopped(popped)))
    ensures forall y :: 0 <= y < |column| - CountPopped(popped) ==>
      CollapseColumn(column, popped, rng, base)[y] in column
  {
    SurvivorsFromColumn(column, popped);
  }

  /** Collapsing keeps every colour of a column in [0, numColors) when the
      column and every draw are in range. */
  lemma CollapseColumnInRange(column: seq<int>, popped: seq<bool>, rng: nat -> int, base: nat, numColors: int)
    requires |popped| == |column|
    requires forall y :: 0 <= y < |column| ==> 0 <= column[y] < numColors
    requires forall k :: 0 <= rng(k) < numColors
    ensures forall y :: 0 <= y < |column| ==> 0 <= CollapseColumn(column, popped, rng, base)[y] < numColors
  {
    FreshOnTop(column, popped, rng, base);
  }

  // ---------------------------------------------------------------------
  // Board-level properties

  /** The cell at an on-board coordinate after the collapse is the matching
      row of its new column. */
  lemma CollapseAt(board: seq<int>, width: nat, height: nat, popped: set<nat>, rng: nat -> int, c: Coord)
    requires width > 0 && |board| == width * height && InBoard(c, width, height)
    ensures 0 <= MapCoordToIndex(c, width) < |board|
    ensures Collapse(board, width, height, popped, rng)[MapCoordToIndex(c, width)]
         == NewColumn(board, width, height, popped, rng, c.x)[c.y]
  {
    InBoardIndex(c, width, height);
    CoordRoundTrip(c, width);
  }

  /** Writing one cell of the board changes one row of its column and no
      other column. */
  lemma ColumnWrite(board: seq<int>, width: nat, height: nat, x: nat, y: nat, v: int)
    requires width > 0 && |board| == width * height && x < width && y < height
    ensures 0 <= MapCoordToIndex(Coord(x, y), width) < |board|
    ensures ColumnOf(board[MapCoordToIndex(Coord(x, y), width) := v], width, height, x)
         == ColumnOf(board, width, height, x)[y := v]
    ensures forall x' :: 0 <= x' < width && x' != x ==>
      ColumnOf(board[MapCoordToIndex(Coord(x, y), width) := v], width, height, x') == ColumnOf(board, width, height, x')
  {
    InBoardIndex(Coord(x, y), width, height);
    CoordRoundTrip(Coord(x, y), width);
    var i := MapCoordToIndex(Coord(x, y), width);
    var board' := board[i := v];
    forall x', y' | 0 <= x' < width && 0 <= y' < height
      ensures ColumnOf(board', width, height, x')[y'] == if x' == x && y' == y then v else ColumnOf(board, width, height, x')[y']
    {
      InBoardIndex(Coord(x', y'), width, height);
      CoordRoundTrip(Coord(x', y'), width);
    }
  }

  /** A board is determined by its columns. */
  lemma ColumnsDetermineBoard(b1: seq<int>, b2: seq<int>, width: nat, height: nat)
    requires width > 0 && |b1| == width * height && |b2| == width * height
    requires forall x :: 0 <= x < width ==> ColumnOf(b1, width, height, x) == ColumnOf(b2, width, height, x)
    ensures b1 == b2
  {
    forall i | 0 <= i < |b1| ensures b1[i] == b2[i] {
      IndexInBoard(i, width, height);
      var c := IndexToMapCoord(i, width);
      assert ColumnOf(b1, width, height, c.x)[c.y] == ColumnOf(b2, width, height, c.x)[c.y];
    }
  }

  /** Every column of the collapsed board is the collapse of that column. */
  lemma CollapseColumns(board: seq<int>, width: nat, height: nat, popped: set<nat>, rng: nat -> int)
    requires width > 0 && |board| == width * height
    ensures forall x :: 0 <= x < width ==>
      ColumnOf(Collapse(board, width, height, popped, rng), width, height, x) == NewColumn(board, width, height, popped, rng, x)
  {
    forall x | 0 <= x < width
      ensures ColumnOf(Collapse(board, width, height, popped, rng), width, height, x) == NewColumn(board, width, height, popped, rng, x)
    {
      forall y | 0 <= y < height
        ensures ColumnOf(Collapse(board, width, height, popped, rng), width, height, x)[y] == NewColumn(board, width, height, popped, rng, x)[y]
      {
        CollapseAt(board, width, height, popped, rng, Coord(x, y));
      }
    }
  }

  /** A column none of whose cells is popped is unchanged by the collapse. */
  lemma UntouchedColumnUnchanged(board: seq<int>, width: nat, height: nat, popped: set<nat>, rng: nat -> int, x: nat)
    requires width > 0 && |board| == width * height && x < width
    requires forall y :: 0 <= y < height ==> MapCoordToIndex(Coord(x, y), width) !in popped
    ensures forall y :: 0 <= y < height ==>
      0 <= MapCoordToIndex(Coord(x, y), width) < |board| &&
      Collapse(board, width, height, popped, rng)[MapCoordToIndex(Coord(x, y), width)]
        == board[MapCoordToIndex(Coord(x, y), width)]
  {
    var column := ColumnOf(board, width, height, x);
    var rows := PoppedRows(popped, width, height, x);
    UnpoppedColumnUnchanged(column, rows, rng, DrawBase(popped, width, height, x));
    forall y | 0 <= y < height
      ensures 0 <= MapCoordToIndex(Coord(x, y), width) < |board| &&
        Collapse(board, width, height, popped, rng)[MapCoordToIndex(Coord(x, y), width)]
          == board[MapCoordToIndex(Coord(x, y), width)]
    {
      CollapseAt(board, width, height, popped, rng, Coord(x, y));
    }
  }

  /** Colour-range invariant: when the board and every draw lie in
      [0, numColors), so does the collapsed board. */
  lemma CollapseInRange(board: seq<int>, width: nat, height: nat, popped: set<nat>, rng: nat -> int, numColors: int)
    requires width > 0 && |board| == width * height
    requires forall i :: 0 <= i < |board| ==> 0 <= board[i] < numColors
    requires forall k :: 0 <= rng(k) < numColors
    ensures forall i :: 0 <= i < |board| ==> 0 <= Collapse(board, width, height, popped, rng)[i] < numColors
  {
    forall i | 0 <= i < |board| ensures 0 <= Collapse(board, width, height, popped, rng)[i] < numColors {
      IndexInBoard(i, width, height);
      var c := IndexToMapCoord(i, width);
      var column := ColumnOf(board, width, height, c.x);
      forall y | 0 <= y < height ensures 0 <= column[y] < numColors {
        InBoardIndex(Coord(c.x, y), width, height);
      }
      CollapseColumnInRange(column, PoppedRows(popped, width, height, c.x), rng,
                            DrawBase(popped, width, height, c.x), numColors);
    }
  }

  // ---------------------------------------------------------------------
  // The in-place collapse of one column

  /** The state of the in-place collapse of column col between two rows.
      board is the board before the collapse, cur the board now: rows below
      `row` of the column hold their collapsed colours and the rows from `row`
      up their original ones; the survivors below the read cursor lastRow
      number row (or the cursor is past the top); `used` draws have been
      taken since base, one per row filled above the survivors; every other
      column is as it was. */
  ghost predicate SettleInv(board: seq<int>, cur: seq<int>, width: nat, height: nat, col: nat,
                            rows: seq<bool>, rng: nat -> int, base: nat,
                            row: nat, lastRow: nat, used: nat)
    requires |board| == width * height && |cur| == width * height && col < width && |rows| == height
  {
    var column := ColumnOf(board, width, height, col);
    var kept := |Survivors(column, rows)|;
    && row <= height && lastRow >= row + 1
    && (lastRow <= height ==> |SurvivorsBelow(column, rows, lastRow)| == row)
    && (lastRow > height ==> kept <= row)
    && (row <= kept ==> used == base)
    && (kept <= row ==> used == base + row - kept)
    && ColumnOf(cur, width, height, col) == CollapseColumn(column, rows, rng, base)[..row] + column[row..]
    && forall x :: 0 <= x < width && x != col ==> ColumnOf(cur, width, height, x) == ColumnOf(board, width, height, x)
  }

  /** The collapse of a column starts at its lowest popped row rowStart, with
      the cursor just above it and nothing drawn. */
  lemma SettleBegin(board: seq<int>, width: nat, height: nat, col: nat, rows: seq<bool>, rng: nat -> int,
                    base: nat, rowStart: nat)
    requires |board| == width * height && col < width && |rows| == height
    requires rowStart < height && rows[rowStart] && forall y :: 0 <= y < rowStart ==> !rows[y]
    ensures SettleInv(board, board, width, height, col, rows, rng, base, rowStart, rowStart + 1, base)
  {
    SettleStart(ColumnOf(board, width, height, col), rows, rng, base, rowStart);
  }

  /** One row of the in-place collapse. newY is the first row at or above the
      cursor that was not popped (height or more when there is none); row
      `row` takes the colour of row newY of the current board, or else draw
      `used` of the colour source. Writing it keeps the invariant with the
      cursor just above newY. */
  lemma {:induction false} SettleAdvance(board: seq<int>, cur: seq<int>, next: seq<int>, width: nat, height: nat, col: nat,
                                         rows: seq<bool>, rng: nat -> int, base: nat,
                                         row: nat, lastRow: nat, used: nat, newY: nat, v: int, used': nat, lastRow': nat)
    requires |board| == width * height && |cur| == width * height && |next| == width * height
    requires col < width && |rows| == height
    requires SettleInv(board, cur, width, height, col, rows, rng, base, row, lastRow, used)
    requires row < height
    requires lastRow <= newY && (lastRow <= height ==> newY <= height) && (lastRow > height ==> newY == lastRow)
    requires forall y :: lastRow <= y < newY ==> rows[y]
    requires newY < height ==> !rows[newY]
    requires newY < height ==> v == ColumnOf(cur, width, height, col)[newY] && used' == used
    requires newY >= height ==> v == rng(used) && used' == used + 1
    requires ColumnOf(next, width, height, col) == ColumnOf(cur, width, height, col)[row := v]
    requires forall x :: 0 <= x < width && x != col ==> ColumnOf(next, width, height, x) == ColumnOf(cur, width, height, x)
    requires lastRow' == newY + 1
    ensures SettleInv(board, next, width, height, col, rows, rng, base, row + 1, lastRow', used')
  {
    var column := ColumnOf(board, width, height, col);
    var newColumn := CollapseColumn(column, rows, rng, base);
    SettleStep(column, rows, rng, base, row, lastRow, newY);
    SettleExtend(column, newColumn, row);
  }

  /** When every row is filled the column is its collapse and one colour was
      drawn per popped row. */
  lemma SettleEnd(board: seq<int>, cur: seq<int>, width: nat, height: nat, col: nat,
                  rows: seq<bool>, rng: nat -> int, base: nat, lastRow: nat, used: nat)
    requires |board| == width * height && |cur| == width * height && col < width && |rows| == height
    requires SettleInv(board, cur, width, height, col, rows, rng, base, height, lastRow, used)
    ensures used == base + CountPopped(rows)
    ensures ColumnOf(cur, width, height, col) == CollapseColumn(ColumnOf(board, width, height, col), rows, rng, base)
    ensures forall x :: 0 <= x < width && x != col ==> ColumnOf(cur, width, height, x) == ColumnOf(board, width, height, x)
  {
    var column := ColumnOf(board, width, height, col);
    assert CollapseColumn(column, rows, rng, base)[..height] + column[height..] == CollapseColumn(column, rows, rng, base);
  }

  // ---------------------------------------------------------------------
  // The in-place collapse of the whole board, column by column

  /** The state of the board collapse before column col is processed: the
      columns left of col hold their collapsed colours, the others their
      original ones, and the draws used so far are those of the columns left
      of col. */
  ghost predicate CollapsedBelow(board: seq<int>, cur: seq<int>, width: nat, height: nat, popped: set<nat>,
                                 rng: nat -> int, col: nat, drawn: nat)
    requires |board| == width * height && |cur| == width * height
  {
    && col <= width
    && drawn == DrawBase(popped, width, height, col)
    && forall x :: 0 <= x < width ==>
         ColumnOf(cur, width, height, x)
           == if x < col then NewColumn(board, width, height, popped, rng, x) else ColumnOf(board, width, height, x)
  }

  /** Before any column is processed nothing has changed. */
  lemma CollapseBegin(board: seq<int>, width: nat, height: nat, popped: set<nat>, rng: nat -> int)
    requires |board| == width * height
    ensures CollapsedBelow(board, board, width, height, popped, rng, 0, 0)
  {
  }

  /** Collapsing column col of the current board, with draws numbered from
      the draws used so far, and changing no other column, moves on to
      column col + 1. */
  lemma CollapseAdvance(board: seq<int>, cur: seq<int>, next: seq<int>, width: nat, height: nat, popped: set<nat>,
                        rng: nat -> int, col: nat, drawn: nat, drawn': nat)
    requires |board| == width * height && |cur| == width * height && |next| == width * height && col < width
    requires CollapsedBelow(board, cur, width, height, popped, rng, col, drawn)
    requires drawn' == drawn + CountPopped(PoppedRows(popped, width, height, col))
    requires ColumnOf(next, width, height, col)
          == CollapseColumn(ColumnOf(cur, width, height, col), PoppedRows(popped, width, height, col), rng, drawn)
    requires forall x :: 0 <= x < width && x != col ==> ColumnOf(next, width, height, x) == ColumnOf(cur, width, height, x)
    ensures CollapsedBelow(board, next, width, height, popped, rng, col + 1, drawn')
  {
    assert ColumnOf(cur, width, height, col) == ColumnOf(board, width, height, col);
  }

  /** Once every column is processed the board is its collapse. */
  lemma CollapseEnd(board: seq<int>, cur: seq<int>, width: nat, height: nat, popped: set<nat>, rng: nat -> int, drawn: nat)
    requires width > 0 && |board| == width * height && |cur| == width * height
    requires CollapsedBelow(board, cur, width, height, popped, rng, width, drawn)
    ensures cur == Collapse(board, width, height, popped, rng)
  {
    CollapseColumns(board, width, height, popped, rng);
    ColumnsDetermineBoard(cur, Collapse(board, width, height, popped, rng), width, height);
  }

  /** Removing the non-adjacent rows 1 and 3 of a five-row column moves rows
      0, 2 and 4 down to rows 0, 1 and 2 and puts two fresh colours on top. */
  lemma NonContiguousExample(a: int, b: int, c: int, d: int, e: int, rng: nat -> int)
    ensures CollapseColumn([a, b, c, d, e], [false, true, false, true, false], rng, 0)
         == [a, c, e, rng(0), rng(1)]
  {
    var column, popped := [a, b, c, d, e], [false, true, false, true, false];
    assert SurvivorsBelow(column, popped, 0) == [];
    SurvivorsStep(column, popped, 0);
    SurvivorsStep(column, popped, 1);
    SurvivorsStep(column, popped, 2);
    SurvivorsStep(column, popped, 3);
    SurvivorsStep(column, popped, 4);
    assert column[..5] == column && popped[..5] == popped;
    assert Survivors(column, popped) == [a, c, e];
  }
}
