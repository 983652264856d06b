/** Conversions between a cell's linear index and its map coordinate.
    The board is stored row-major: the cell in column x, row y has index
    x + y * width, and row 0 is the bottom row. */
module Coords {

  /** A map coordinate: column x and row y. Clicks and neighbour probes may
      fall outside the board, so both components are plain integers. */
  datatype Coord = Coord(x: int, y: int)

  /** True when the coordinate names a cell of a width-by-height board. */
  predicate InBoard(c: Coord, width: nat, height: nat): (b: bool)
    ensures b ==> 0 < width && 0 < height
  {
    0 <= c.x < width && 0 <= c.y < height
  }

  /** The coordinate of a cell index: its column is the remainder and its row
      the quotient of the index by the board width. */
  function IndexToMapCoord(index: nat, width: nat): (c: Coord)
    requires width > 0
    ensures 0 <= c.x < width && 0 <= c.y
    ensures index == c.x + c.y * width
  {
    Coord(index % width, index / width)
  }

  /** The cell index of a map coordinate. A coordinate inside the columns
      lands in the block of width consecutive indices that holds its row. */
  function MapCoordToIndex(c: Coord, width: nat): (index: int)
    ensures 0 <= c.x < width ==> c.y * width <= index < c.y * width + width
  {
    c.x + c.y * width
  }

  /** Multiplying by a non-negative width preserves order. */
  lemma {:induction false} MulMonotone(a: int, b: int, width: nat)
    requires a <= b
    ensures a * width <= b * width
    decreases b - a
  {
    if a < b {
      MulMonotone(a + 1, b, width);
      assert (a + 1) * width == a * width + width;
    }
  }

  /** The quotient and remainder by a positive width are unique. */
  lemma {:induction false} DivModUnique(i: int, width: nat, x: int, y: int)
    requires width > 0 && 0 <= x < width && 0 <= y
    requires i == x + y * width
    ensures i % width == x && i / width == y
  {
    var q, r := i / width, i % width;
    assert i == q * width + r && 0 <= r < width;
    if q > y {
      assert (y + 1) * width == y * width + width;
      MulMonotone(y + 1, q, width);
    } else if q < y {
      assert (q + 1) * width == q * width + width;
      MulMonotone(q + 1, y, width);
    }
  }

  /** A coordinate inside the columns maps to an index that maps back to it. */
  lemma {:induction false} CoordRoundTrip(c: Coord, width: nat)
    requires 0 <= c.x < width && 0 <= c.y
    ensures MapCoordToIndex(c, width) >= 0
    ensures IndexToMapCoord(MapCoordToIndex(c, width), width) == c
  {
    DivModUnique(MapCoordToIndex(c, width), width, c.x, c.y);
  }

  /** An index maps to a coordinate that maps back to the index. */
  lemma IndexRoundTrip(index: nat, width: nat)
    requires width > 0
    ensures MapCoordToIndex(IndexToMapCoord(index, width), width) == index
  {
  }

  /** A coordinate inside the columns is on the board exactly when its index
      is a valid index into the width * height cells. */
  lemma {:induction false} InBoardIndex(c: Coord, width: nat, height: nat)
    requires 0 <= c.x < width
    ensures InBoard(c, width, height) <==> 0 <= MapCoordToIndex(c, width) < width * height
  {
    if c.y < 0 {
      MulMonotone(c.y, -1, width);
    } else if c.y >= height {
      MulMonotone(height, c.y, width);
    } else {
      MulMonotone(c.y + 1, height, width);
      assert (c.y + 1) * width == c.y * width + width;
    }
  }

  /** An index below width * height lies on a row below height. */
  lemma {:induction false} IndexInBoard(index: nat, width: nat, height: nat)
    requires width > 0
    ensures index < width * height <==> InBoard(IndexToMapCoord(index, width), width, height)
  {
    var c := IndexToMapCoord(index, width);
    InBoardIndex(c, width, height);
  }

  /** The cells of column x: each row below height has an index on the board
      that maps back to the row. */
  lemma ColumnIndices(x: int, width: nat, height: nat)
    requires 0 <= x < width
    ensures forall y :: 0 <= y < height ==>
      && 0 <= MapCoordToIndex(Coord(x, y), width) < width * height
      && IndexToMapCoord(MapCoordToIndex(Coord(x, y), width), width) == Coord(x, y)
  {
    forall y | 0 <= y < height
      ensures && 0 <= MapCoordToIndex(Coord(x, y), width) < width * height
              && IndexToMapCoord(MapCoordToIndex(Coord(x, y), width), width) == Coord(x, y)
    {
      InBoardIndex(Coord(x, y), width, height);
      CoordRoundTrip(Coord(x, y), width);
    }
  }
}
