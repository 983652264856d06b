/** The board simulation of BoardManager: a width-by-height grid of colour
    indices, the lock that keeps moves from overlapping, the flood fill that
    finds the clicked colour group, and the column collapse with refill. */
module Board {
  import opened Coords
  import opened Matching
  import opened Collapser
  import opened Search

  /** rows[y] tells whether cell (col, y) is in the popped list. */
  predicate RowsLink(popped: seq<nat>, width: nat, col: nat, rows: seq<bool>)
  {
    forall y :: 0 <= y < |rows| ==> (rows[y] <==> MapCoordToIndex(Coord(col, y), width) in popped)
  }

  /** Collapses column col of the width-by-height board a in place,
      starting at its lowest popped row rowStart: each row takes the colour
      of the next un-popped cell above it, found with the lastRow cursor, and
      once those run out a fresh draw; draws are numbered from drawn on. */
  method SettleColumn(a: array<int>, width: nat, height: nat, col: nat, rowStart: nat, popped: seq<nat>,
                      rng: nat -> int, drawn: nat, ghost rows: seq<bool>)
    returns (drawn': nat)
    requires width > 0 && a.Length == width * height
    requires col < width && rowStart < height && |rows| == height
    requires RowsLink(popped, width, col, rows)
    requires rows[rowStart] && forall y :: 0 <= y < rowStart ==> !rows[y]
    modifies a
    ensures drawn' == drawn + CountPopped(rows)
    ensures ColumnOf(a[..], width, height, col) == CollapseColumn(ColumnOf(old(a[..]), width, height, col), rows, rng, drawn)
    ensures forall x :: 0 <= x < width && x != col ==> ColumnOf(a[..], width, height, x) == ColumnOf(old(a[..]), width, height, x)
  {
    ghost var board := a[..];
    SettleBegin(board, width, height, col, rows, rng, drawn, rowStart);
    var lastRow;
    lastRow, drawn' := SettleRows(a, width, height, col, rowStart, popped, rng, drawn, board, rows);
    SettleEnd(board, a[..], width, height, col, rows, rng, drawn, lastRow, drawn');
  }

  /** The row loop of the column collapse: rows rowStart, rowStart + 1, ...
      up to the top are filled in turn, keeping the column collapsed below
      the row being filled. */
  method SettleRows(a: array<int>, width: nat, height: nat, col: nat, rowStart: nat, popped: seq<nat>,
                    rng: nat -> int, drawn: nat, ghost board: seq<int>, ghost rows: seq<bool>)
    returns (lastRow: nat, drawn': nat)
    requires width > 0 && a.Length == width * height && |board| == width * height
    requires col < width && rowStart < height && |rows| == height
    requires RowsLink(popped, width, col, rows)
    requires SettleInv(board, a[..], width, height, col, rows, rng, drawn, rowStart, rowStart + 1, drawn)
    modifies a
    ensures SettleInv(board, a[..], width, height, col, rows, rng, drawn, height, lastRow, drawn')
  {
    drawn' := drawn;
    lastRow := rowStart + 1;
    for row := rowStart to height
      invariant SettleInv(board, a[..], width, height, col, rows, rng, drawn, row, lastRow, drawn')
    {
      lastRow, drawn' := SettleRow(a, width, height, col, row, lastRow, popped, rng, drawn', board, rows, drawn);
    }
  }

  /** One pass of the row loop of the column collapse: row `row` takes the
      colour of the first un-popped cell at or above the lastRow cursor, or
      the next fresh draw when there is none, and the cursor moves to just
      above the cell read. The column stays collapsed below the next row, the
      cursor stays above the row written, and draws are counted. */
  method SettleRow(a: array<int>, width: nat, height: nat, col: nat, row: nat, lastRow: nat, popped: seq<nat>,
                   rng: nat -> int, drawn: nat, ghost board: seq<int>, ghost rows: seq<bool>, ghost base: nat)
    returns (lastRow': nat, drawn': nat)
    requires width > 0 && a.Length == width * height && |board| == width * height
    requires col < width && row < height && |rows| == height
    requires RowsLink(popped, width, col, rows)
    requires SettleInv(board, a[..], width, height, col, rows, rng, base, row, lastRow, drawn)
    modifies a
    ensures SettleInv(board, a[..], width, height, col, rows, rng, base, row + 1, lastRow', drawn')
  {
    var newY := NextUnpopped(width, height, col, lastRow, popped, rows);
    // the cell read lies strictly above the row being written
    assert row < newY;
    var colIndex;
    drawn' := drawn;
    if newY < height {
      colIndex := GetCell(a, width, height, col, newY);
    } else {
      colIndex := rng(drawn);
      drawn' := drawn + 1;
    }
    ghost var cur := a[..];
    SetCell(a, width, height, col, row, colIndex);
    lastRow' := newY + 1;
    SettleAdvance(board, cur, a[..], width, height, col, rows, rng, base, row, lastRow, drawn, newY, colIndex, drawn', lastRow');
  }

  /** The first row of column col, from row `from` upwards, whose cell was
      not popped; a result of height or more means there is none. */
  method NextUnpopped(width: nat, height: nat, col: nat, from: nat, popped: seq<nat>, ghost rows: seq<bool>)
    returns (newY: nat)
    requires |rows| == height
    requires RowsLink(popped, width, col, rows)
    ensures from <= newY && (from <= height ==> newY <= height) && (from > height ==> newY == from)
    ensures forall y :: from <= y < newY ==> rows[y]
    ensures newY < height ==> !rows[newY]
  {
    newY := from;
    while newY < height && MapCoordToIndex(Coord(col, newY), width) in popped
      invariant from <= newY && (from <= height ==> newY <= height) && (from > height ==> newY == from)
      invariant forall y :: from <= y < newY ==> rows[y]
      decreases height - newY
    {
      assert rows[newY];
      newY := newY + 1;
    }
  }

  /** The colour of cell (x, y) of the board a. */
  method GetCell(a: array<int>, width: nat, height: nat, x: nat, y: nat) returns (v: int)
    requires width > 0 && a.Length == width * height && x < width && y < height
    ensures v == ColumnOf(a[..], width, height, x)[y]
  {
    InBoardIndex(Coord(x, y), width, height);
    v := a[MapCoordToIndex(Coord(x, y), width)];
  }

  /** Sets the colour of cell (x, y) of the board a: row y of column x
      changes and nothing else. */
  method SetCell(a: array<int>, width: nat, height: nat, x: nat, y: nat, v: int)
    requires width > 0 && a.Length == width * height && x < width && y < height
    modifies a
    ensures ColumnOf(a[..], width, height, x) == ColumnOf(old(a[..]), width, height, x)[y := v]
    ensures forall x' :: 0 <= x' < width && x' != x ==> ColumnOf(a[..], width, height, x') == ColumnOf(old(a[..]), width, height, x')
  {
    ColumnWrite(a[..], width, height, x, y, v);
    a[MapCoordToIndex(Coord(x, y), width)] := v;
    assert a[..] == old(a[..])[MapCoordToIndex(Coord(x, y), width) := v];
  }

  /** Number of entries of the popped list that lie in column c. */
  function ColumnCount(popped: seq<nat>, width: nat, c: nat): (n: nat)
    requires width > 0
    ensures n <= |popped|
  {
    if |popped| == 0 then 0
    else ColumnCount(popped[..|popped| - 1], width, c)
         + (if IndexToMapCoord(popped[|popped| - 1], width).x == c then 1 else 0)
  }

  /** A column's count is positive exactly when some popped cell lies in it. */
  lemma {:induction false} ColumnCountPositive(popped: seq<nat>, width: nat, c: nat)
    requires width > 0
    ensures ColumnCount(popped, width, c) > 0
        <==> exists j :: 0 <= j < |popped| && IndexToMapCoord(popped[j], width).x == c
  {
    if |popped| > 0 {
      var t := popped[..|popped| - 1];
      ColumnCountPositive(t, width, c);
      if exists j :: 0 <= j < |t| && IndexToMapCoord(t[j], width).x == c {
        var j :| 0 <= j < |t| && IndexToMapCoord(t[j], width).x == c;
        assert popped[j] == t[j];
      }
      if exists j :: 0 <= j < |popped| && IndexToMapCoord(popped[j], width).x == c {
        var j :| 0 <= j < |popped| && IndexToMapCoord(popped[j], width).x == c;
        if j < |t| {
          assert t[j] == popped[j];
        }
      }
    }
  }

  /** The first pass of UpdateBoard: for every column, the number of popped
      cells in it and the lowest row among them (height when there is none). */
  method ScanPopped(popped: seq<nat>, width: nat, height: nat) returns (colOffsets: array<int>, rowStart: array<int>)
    requires width > 0
    requires forall j :: 0 <= j < |popped| ==> popped[j] < width * height
    ensures fresh(colOffsets) && fresh(rowStart)
    ensures colOffsets.Length == width && rowStart.Length == width
    ensures forall c :: 0 <= c < width ==> colOffsets[c] == ColumnCount(popped, width, c)
    ensures forall c :: 0 <= c < width ==> 0 <= rowStart[c] <= height
    ensures forall c, j :: 0 <= c < width && 0 <= j < |popped| && IndexToMapCoord(popped[j], width).x == c ==>
      rowStart[c] <= IndexToMapCoord(popped[j], width).y
    ensures forall c :: 0 <= c < width && rowStart[c] < height ==> MapCoordToIndex(Coord(c, rowStart[c]), width) in popped
  {
    colOffsets := new int[width](_ => 0);
    rowStart := new int[width];
    for i := 0 to width
      modifies rowStart
      invariant forall c :: 0 <= c < i ==> rowStart[c] == height
    {
      rowStart[i] := height;
    }
    for k := 0 to |popped|
      modifies colOffsets, rowStart
      invariant forall c :: 0 <= c < width ==> colOffsets[c] == ColumnCount(popped[..k], width, c)
      invariant forall c :: 0 <= c < width ==> 0 <= rowStart[c] <= height
      invariant forall c, j :: 0 <= c < width && 0 <= j < k && IndexToMapCoord(popped[j], width).x == c ==>
        rowStart[c] <= IndexToMapCoord(popped[j], width).y
      invariant forall c :: 0 <= c < width && rowStart[c] < height ==> MapCoordToIndex(Coord(c, rowStart[c]), width) in popped
    {
      var mapCoord := IndexToMapCoord(popped[k], width);
      IndexInBoard(popped[k], width, height);
      assert popped[..k + 1][..k] == popped[..k];
      colOffsets[mapCoord.x] := colOffsets[mapCoord.x] + 1;
      if mapCoord.y < rowStart[mapCoord.x] {
        rowStart[mapCoord.x] := mapCoord.y;
      }
    }
    assert popped[..|popped|] == popped;
  }

  /** What the first pass tells about one column: its popped rows are the
      rows whose cell is in the popped list; a column with a zero count has
      none; otherwise its lowest popped row is rowStart. */
  lemma ColumnFacts(popped: seq<nat>, width: nat, height: nat, col: nat, count: int, start: int)
    requires width > 0 && col < width
    requires forall j :: 0 <= j < |popped| ==> popped[j] < width * height
    requires count == ColumnCount(popped, width, col) && 0 <= start <= height
    requires forall j :: 0 <= j < |popped| && IndexToMapCoord(popped[j], width).x == col ==>
      start <= IndexToMapCoord(popped[j], width).y
    requires start < height ==> MapCoordToIndex(Coord(col, start), width) in popped
    ensures forall y :: 0 <= y < height ==>
      (PoppedRows(Members(popped), width, height, col)[y] <==> MapCoordToIndex(Coord(col, y), width) in popped)
    ensures count <= 0 ==> forall y :: 0 <= y < height ==> !PoppedRows(Members(popped), width, height, col)[y]
    ensures count > 0 ==>
      && start < height && PoppedRows(Members(popped), width, height, col)[start]
      && forall y :: 0 <= y < start ==> !PoppedRows(Members(popped), width, height, col)[y]
  {
    var rows := PoppedRows(Members(popped), width, height, col);
    ColumnCountPositive(popped, width, col);
    ColumnIndices(col, width, height);
    if count > 0 {
      var j :| 0 <= j < |popped| && IndexToMapCoord(popped[j], width).x == col;
      IndexInBoard(popped[j], width, height);
    }
    forall y | 0 <= y < height && MapCoordToIndex(Coord(col, y), width) in popped
      ensures start <= y && count > 0
    {
      var j :| 0 <= j < |popped| && popped[j] == MapCoordToIndex(Coord(col, y), width);
    }
  }

  class BoardManager {
    /** Board size in cells. */
    var width: nat
    var height: nat
    /** Number of colours; every cell holds a colour index in [0, numColors). */
    var numColors: int
    /** Colour index of every cell, row-major; null until the first Init. */
    var cells: array?<int>
    /** False while a move is being evaluated. */
    var clickable: bool

    /** The board holds one cell per position, each with a colour in range. */
    ghost predicate Valid()
      reads this, cells
    {
      && cells != null
      && cells.Length == width * height
      && forall i :: 0 <= i < cells.Length ==> 0 <= cells[i] < numColors
    }

    /** A board manager before its first initialisation: no cell array at
        all, and locked. */
    constructor ()
      ensures width == 0 && height == 0 && numColors == 0
      ensures cells == null && !clickable
    {
      width, height, numColors := 0, 0, 0;
      cells := null;
      clickable := false;
    }

    /** Creates width * height cells, cell i taking draw i of the colour
        source, and unlocks the board. */
    method Init(w: nat, h: nat, nC: int, rng: nat -> int)
      requires forall k :: 0 <= rng(k) < nC
      modifies this
      ensures Valid() && fresh(cells)
      ensures width == w && height == h && numColors == nC && clickable
      ensures forall i :: 0 <= i < cells.Length ==> cells[i] == rng(i)
    {
      numColors := nC;
      width, height := w, h;
      var numCells := w * h;
      var newCells := new int[numCells];
      for i := 0 to numCells
        modifies newCells
        invariant forall j :: 0 <= j < i ==> newCells[j] == rng(j)
      {
        newCells[i] := rng(i);
      }
      cells := newCells;
      clickable := true;
    }

    /** Empties the cell array; the size, colour count and lock are kept.
        The walk over the old cells fails with a null reference when there
        is no cell array yet: `thrown` reports that failure, which leaves
        everything as it was. */
    method ClearBoard() returns (thrown: bool)
      modifies this
      ensures thrown <==> old(cells) == null
      ensures thrown ==> cells == null
      ensures !thrown ==> fresh(cells) && cells.Length == 0
      ensures width == old(width) && height == old(height)
      ensures numColors == old(numColors) && clickable == old(clickable)
    {
      if cells == null {
        return true;
      }
      thrown := false;
      cells := new int[0];
    }

    /** ClearBoard with the missing null check added: it empties the cell
        array whether or not one exists, so it can precede the first Init. */
    method ClearBoardGuarded()
      modifies this
      ensures fresh(cells) && cells.Length == 0
      ensures width == old(width) && height == old(height)
      ensures numColors == old(numColors) && clickable == old(clickable)
    {
      cells := new int[0];
    }

    /** Appends to the open list every in-board neighbour of the origin (up,
        down, left, right) that is neither closed nor already open. */
    method AddNeighbors(open: seq<nat>, closed: seq<nat>, origin: Coord) returns (open': seq<nat>)
      requires InBoard(origin, width, height)
      ensures |open| <= |open'| && open'[..|open|] == open
      ensures forall i :: |open| <= i < |open'| ==>
        && Adjacent(width, height, MapCoordToIndex(origin, width), open'[i])
        && open'[i] !in closed && open'[i] !in open'[..i]
      ensures forall b: nat :: Adjacent(width, height, MapCoordToIndex(origin, width), b) ==>
        b in open' || b in closed
    {
      var dirs := [Coord(0, 1), Coord(0, -1), Coord(-1, 0), Coord(1, 0)];
      ghost var probes := [Coord(origin.x, origin.y + 1), Coord(origin.x, origin.y - 1),
                           Coord(origin.x - 1, origin.y), Coord(origin.x + 1, origin.y)];
      CoordRoundTrip(origin, width);
      InBoardIndex(origin, width, height);
      var o: nat := MapCoordToIndex(origin, width);
      open' := open;
      for k := 0 to |dirs|
        invariant |open| <= |open'| && open'[..|open|] == open
        invariant forall i :: |open| <= i < |open'| ==>
          Adjacent(width, height, o, open'[i]) && open'[i] !in closed && open'[i] !in open'[..i]
        invariant forall j :: 0 <= j < k && InBoard(probes[j], width, height) ==>
          MapCoordToIndex(probes[j], width) in open' || MapCoordToIndex(probes[j], width) in closed
      {
        var t := Coord(origin.x + dirs[k].x, origin.y + dirs[k].y);
        assert t == probes[k];
        if t.x < 0 || t.x >= width || t.y < 0 || t.y >= height {
          continue;
        }
        InBoardIndex(t, width, height);
        CoordRoundTrip(t, width);
        var cell: nat := MapCoordToIndex(t, width);
        assert Adjacent(width, height, o, cell);
        if cell !in closed && cell !in open' {
          open' := open' + [cell];
        }
      }
      forall b: nat | Adjacent(width, height, o, b)
        ensures b in open' || b in closed
      {
        var cb := IndexToMapCoord(b, width);
        IndexInBoard(b, width, height);
        assert cb in probes;
      }
    }

    /** The flood fill of MakeMove: the list of popped cells starts with the
        origin, repeats no cell, and holds exactly the origin's colour group. */
    method FindRegion(origin: Coord) returns (popped: seq<nat>, numPopped: int)
      requires Valid() && InBoard(origin, width, height)
      ensures numPopped == |popped| && |popped| >= 1
      ensures popped[0] == MapCoordToIndex(origin, width)
      ensures Distinct(popped)
      ensures forall j :: 0 <= j < |popped| ==> popped[j] < width * height
      ensures forall c :: c in popped <==> c in Region(cells[..], width, height, popped[0])
    {
      ghost var board := cells[..];
      InBoardIndex(origin, width, height);
      CoordRoundTrip(origin, width);
      var o: nat := MapCoordToIndex(origin, width);
      var open: seq<nat> := [];
      var closed: seq<nat> := [o];
      popped := [o];
      numPopped := 1;
      var targetCol := cells[o];
      open := AddNeighbors(open, closed, origin);
      SearchStart(board, width, height, o, open);
      while |open| > 0
        invariant SearchInv(board, width, height, o, open, closed, popped)
        invariant numPopped == |popped|
        decreases width * height - |closed|
      {
        var curr := open[0];
        ghost var open0, closed0 := open, closed;
        open := open[1..];
        closed := closed + [curr];
        if cells[curr] == targetCol {
          ghost var popped0 := popped;
          popped := popped + [curr];
          numPopped := numPopped + 1;
          IndexInBoard(curr, width, height);
          open := AddNeighbors(open, closed, IndexToMapCoord(curr, width));
          PopStep(board, width, height, o, open0, closed0, popped0, open);
        } else {
          SkipStep(board, width, height, o, open0, closed0, popped);
        }
      }
      SearchDone(board, width, height, o, closed, popped);
    }

    /** Collapses every column that lost cells, in increasing column order:
        the board becomes the collapse of the popped cells. */
    method UpdateBoard(popped: seq<nat>, rng: nat -> int)
      requires Valid() && width > 0
      requires forall j :: 0 <= j < |popped| ==> popped[j] < width * height
      requires forall k :: 0 <= rng(k) < numColors
      modifies cells
      ensures Valid()
      ensures cells[..] == Collapse(old(cells[..]), width, height, Members(popped), rng)
    {
      var a, w, h := cells, width, height;
      ghost var board := a[..];
      ghost var P := Members(popped);
      var colOffsets, rowStart := ScanPopped(popped, w, h);
      var drawn: nat := 0;
      CollapseBegin(board, w, h, P, rng);
      for col := 0 to w
        modifies a
        invariant CollapsedBelow(board, a[..], w, h, P, rng, col, drawn)
      {
        ColumnFacts(popped, w, h, col, colOffsets[col], rowStart[col]);
        ghost var rows := PoppedRows(P, w, h, col);
        ghost var cur := a[..];
        if colOffsets[col] <= 0 {
          UnpoppedColumnUnchanged(ColumnOf(cur, w, h, col), rows, rng, drawn);
          CollapseAdvance(board, cur, cur, w, h, P, rng, col, drawn, drawn);
          continue;
        }
        var drawn' := SettleColumn(a, w, h, col, rowStart[col], popped, rng, drawn, rows);
        CollapseAdvance(board, cur, a[..], w, h, P, rng, col, drawn, drawn');
        drawn := drawn';
      }
      CollapseEnd(board, a[..], w, h, P, rng, drawn);
      CollapseInRange(board, w, h, P, rng, numColors);
    }

    /** A click on cell (x, y). Rejected with -1, changing nothing, while the
        board is locked or when the cell is off the board; rejected with -1,
        changing no colour, when the clicked colour group is smaller than
        minPopAmt; otherwise the group is popped, the columns collapse and
        refill, and the group's size is returned. The board is unlocked
        whenever the click got past the first two checks. */
    method MakeMove(x: int, y: int, minPopAmt: int, rng: nat -> int) returns (r: int)
      requires clickable ==> Valid() && forall k :: 0 <= rng(k) < numColors
      modifies this, cells
      ensures cells == old(cells) && (old(Valid()) ==> Valid())
      ensures width == old(width) && height == old(height) && numColors == old(numColors)
      ensures r == -1 || (r >= 1 && r >= minPopAmt)
      ensures !old(clickable) || !InBoard(Coord(x, y), width, height) ==>
        r == -1 && clickable == old(clickable) && (cells != null ==> cells[..] == old(cells[..]))
      ensures old(clickable) && InBoard(Coord(x, y), width, height) ==>
        && clickable && Valid()
        && MapCoordToIndex(Coord(x, y), width) >= 0
        && var group := Region(old(cells[..]), width, height, MapCoordToIndex(Coord(x, y), width));
           if |group| < minPopAmt then r == -1 && cells[..] == old(cells[..])
           else r == |group| && cells[..] == Collapse(old(cells[..]), width, height, group, rng)
    {
      if !clickable {
        return -1;
      }
      if x < 0 || x >= width || y < 0 || y >= height {
        return -1;
      }
      clickable := false;
      var popped, numPopped := FindRegion(Coord(x, y));
      ghost var group := Region(cells[..], width, height, popped[0]);
      assert Members(popped) == group;
      DistinctCardinality(popped);
      if numPopped < minPopAmt {
        clickable := true;
        return -1;
      }
      clickable := true;
      InBoardIndex(Coord(x, y), width, height);
      UpdateBoard(popped, rng);
      return numPopped;
    }
  }

  /** The first game on a new manager clears the board before any Init has
      created it: the unguarded ClearBoard fails there. */
  method FirstGameClear() returns (thrown: bool)
    ensures thrown
  {
    var manager := new BoardManager();
    thrown := manager.ClearBoard();
  }

  /** The board part of starting a game: clear the board, then initialise
      it. With the guarded clear this works on a new manager as well as on
      one that has played, and leaves a full, unlocked board. */
  method StartBoard(manager: BoardManager, w: nat, h: nat, nC: int, rng: nat -> int)
    requires forall k :: 0 <= rng(k) < nC
    modifies manager
    ensures manager.Valid() && fresh(manager.cells) && manager.clickable
    ensures manager.width == w && manager.height == h && manager.numColors == nC
    ensures forall i :: 0 <= i < manager.cells.Length ==> manager.cells[i] == rng(i)
  {
    manager.ClearBoardGuarded();
    manager.Init(w, h, nC, rng);
  }

  /** A click on a new manager, before any game has started, is rejected:
      the board is locked. */
  method ClickBeforeInit(x: int, y: int, minPopAmt: int, rng: nat -> int) returns (r: int)
    ensures r == -1
  {
    var manager := new BoardManager();
    r := manager.MakeMove(x, y, minPopAmt, rng);
  }
}
