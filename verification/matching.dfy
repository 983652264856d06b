/** The colour group a click selects: the cells reachable from the clicked
    cell through up, down, left and right steps over cells of its colour.
    Boards are given as their row-major colour sequence. */
module Matching {
  import opened Coords

  /** Two board cells are 4-neighbours: their coordinates differ by one step
      up, down, left or right (never diagonally). */
  predicate Adjacent(width: nat, height: nat, a: nat, b: nat)
    requires width > 0
  {
    a < width * height && b < width * height &&
    var ca, cb := IndexToMapCoord(a, width), IndexToMapCoord(b, width);
    (ca.x == cb.x && (ca.y == cb.y + 1 || cb.y == ca.y + 1)) ||
    (ca.y == cb.y && (ca.x == cb.x + 1 || cb.x == ca.x + 1))
  }

  /** A non-empty walk over board cells of one colour in which each cell is a
      4-neighbour of the one before it. */
  ghost predicate IsPath(board: seq<int>, width: nat, height: nat, path: seq<nat>)
    requires width > 0 && |board| == width * height
  {
    && |path| > 0 && path[0] < |board|
    && (forall i :: 0 <= i < |path| ==> path[i] < |board| && board[path[i]] == board[path[0]])
    && (forall i :: 0 < i < |path| ==> Adjacent(width, height, path[i - 1], path[i]))
  }

  /** Cell c can be reached from cell origin through same-coloured neighbours. */
  ghost predicate Reachable(board: seq<int>, width: nat, height: nat, origin: nat, c: nat)
    requires width > 0 && |board| == width * height
  {
    exists path :: IsPath(board, width, height, path) && path[0] == origin && path[|path| - 1] == c
  }

  /** The colour group of the origin: every cell reachable from it. */
  ghost function Region(board: seq<int>, width: nat, height: nat, origin: nat): (group: set<nat>)
    requires width > 0 && |board| == width * height
  {
    set c: nat | c < width * height && Reachable(board, width, height, origin, c)
  }

  /** A set of cells that no same-coloured neighbour step leaves. */
  ghost predicate ClosedUnderMatch(board: seq<int>, width: nat, height: nat, s: set<nat>)
    requires width > 0 && |board| == width * height
  {
    forall a: nat, b: nat :: a in s && Adjacent(width, height, a, b) && board[b] == board[a] ==> b in s
  }

  /** Every cell of a path that starts inside a closed set stays inside it. */
  lemma {:induction false} PathStaysInClosedSet(board: seq<int>, width: nat, height: nat, s: set<nat>, path: seq<nat>)
    requires width > 0 && |board| == width * height
    requires IsPath(board, width, height, path) && path[0] in s
    requires ClosedUnderMatch(board, width, height, s)
    ensures forall i :: 0 <= i < |path| ==> path[i] in s
  {
    if |path| > 1 {
      var prefix := path[..|path| - 1];
      assert IsPath(board, width, height, prefix);
      PathStaysInClosedSet(board, width, height, s, prefix);
      var n := |path| - 1;
      assert path[n - 1] == prefix[n - 1];
      assert Adjacent(width, height, path[n - 1], path[n]);
    }
  }

  /** The region is the least closed set holding the origin: it holds the
      origin, is itself closed, and lies inside every closed set that holds
      the origin. */
  lemma {:induction false} RegionIsLeastClosedSet(board: seq<int>, width: nat, height: nat, origin: nat, s: set<nat>)
    requires width > 0 && |board| == width * height && origin < width * height
    ensures origin in Region(board, width, height, origin)
    ensures ClosedUnderMatch(board, width, height, Region(board, width, height, origin))
    ensures origin in s && ClosedUnderMatch(board, width, height, s) ==> Region(board, width, height, origin) <= s
  {
    var r := Region(board, width, height, origin);
    assert IsPath(board, width, height, [origin]);
    forall a: nat, b: nat | a in r && Adjacent(width, height, a, b) && board[b] == board[a]
      ensures b in r
    {
      RegionMaximal(board, width, height, origin, a, b);
    }
    if origin in s && ClosedUnderMatch(board, width, height, s) {
      forall c | c in r ensures c in s {
        var path :| IsPath(board, width, height, path) && path[0] == origin && path[|path| - 1] == c;
        PathStaysInClosedSet(board, width, height, s, path);
      }
    }
  }

  /** Maximality: a same-coloured neighbour of a region cell is in the region. */
  lemma {:induction false} RegionMaximal(board: seq<int>, width: nat, height: nat, origin: nat, a: nat, b: nat)
    requires width > 0 && |board| == width * height
    requires a in Region(board, width, height, origin)
    requires Adjacent(width, height, a, b) && board[b] == board[a]
    ensures b in Region(board, width, height, origin)
  {
    var path :| IsPath(board, width, height, path) && path[0] == origin && path[|path| - 1] == a;
    var longer := path + [b];
    assert longer[|longer| - 1] == b && longer[|longer| - 2] == a;
    assert IsPath(board, width, height, longer);
  }

  /** Containment and connectivity: every region cell has the origin's colour
      and is joined to the origin by a path that lies inside the region. */
  lemma {:induction false} RegionConnected(board: seq<int>, width: nat, height: nat, origin: nat, c: nat)
    requires width > 0 && |board| == width * height
    requires c in Region(board, width, height, origin)
    ensures board[c] == board[origin]
    ensures exists path ::
              && IsPath(board, width, height, path) && path[0] == origin && path[|path| - 1] == c
              && (forall i :: 0 <= i < |path| ==> path[i] in Region(board, width, height, origin))
  {
    var path :| IsPath(board, width, height, path) && path[0] == origin && path[|path| - 1] == c;
    forall i | 0 <= i < |path| ensures path[i] in Region(board, width, height, origin) {
      var prefix := path[..i + 1];
      assert IsPath(board, width, height, prefix);
    }
  }
}
