/** The bookkeeping of the flood fill in BoardManager.MakeMove: the open,
    closed and popped lists, the invariant they keep from one step of the
    search to the next, and why the popped list ends up as the colour group. */
module Search {
  import opened Coords
  import opened Matching

  /** No cell occurs twice. */
  predicate Distinct(s: seq<nat>)
  {
    forall i, j :: 0 <= i < j < |s| ==> s[i] != s[j]
  }

  /** The cells a list holds, as a set. */
  function Members(s: seq<nat>): (members: set<nat>)
  {
    set c | c in s
  }

  /** A list without repetitions has as many members as entries. */
  lemma {:induction false} DistinctCardinality(s: seq<nat>)
    requires Distinct(s)
    ensures |Members(s)| == |s|
  {
    if |s| > 0 {
      var t := s[..|s| - 1];
      DistinctCardinality(t);
      assert Members(s) == Members(t) + {s[|s| - 1]};
      assert s[|s| - 1] !in Members(t);
    }
  }

  /** A list of distinct cells below n has at most n entries. */
  lemma {:induction false} DistinctBounded(s: seq<nat>, n: nat)
    requires Distinct(s) && forall i :: 0 <= i < |s| ==> s[i] < n
    ensures |s| <= n
  {
    if |s| > 0 {
      assert s[0] < n;
      if k :| 0 <= k < |s| && s[k] == n - 1 {
        var t := s[..k] + s[k + 1..];
        assert forall i :: 0 <= i < |t| ==> t[i] == if i < k then s[i] else s[i + 1];
        DistinctBounded(t, n - 1);
      } else {
        DistinctBounded(s, n - 1);
      }
    }
  }

  /** Every neighbour of a popped cell has been queued or examined. */
  ghost predicate Frontier(width: nat, height: nat, popped: set<nat>, open: set<nat>, closed: set<nat>)
    requires width > 0
  {
    forall p: nat, b: nat :: p in popped && Adjacent(width, height, p, b) ==> b in open || b in closed
  }

  /** Every queued cell neighbours a popped cell. */
  ghost predicate Supported(width: nat, height: nat, popped: set<nat>, open: set<nat>)
    requires width > 0
  {
    forall b :: b in open ==> exists p :: p in popped && Adjacent(width, height, p, b)
  }

  /** The state of the search between two steps: open and closed cells are
      on the board and never both; popped cells are the closed cells of the
      origin's colour, lie in its colour group, and have every neighbour
      queued or examined; every queued cell neighbours a popped one. */
  ghost predicate SearchInv(board: seq<int>, width: nat, height: nat, origin: nat,
                            open: seq<nat>, closed: seq<nat>, popped: seq<nat>)
    requires width > 0 && |board| == width * height
  {
    && origin < width * height
    && (forall i :: 0 <= i < |open| ==> open[i] < width * height)
    && (forall i :: 0 <= i < |closed| ==> closed[i] < width * height)
    && Distinct(open) && Distinct(closed) && Distinct(popped)
    && |popped| >= 1 && popped[0] == origin
    && (forall i :: 0 <= i < |open| ==> open[i] !in Members(closed))
    && Members(popped) <= Members(closed)
    && (forall c :: c in Members(closed) ==> (c in Members(popped) <==> board[c] == board[origin]))
    && Members(popped) <= Region(board, width, height, origin)
    && Supported(width, height, Members(popped), Members(open))
    && Frontier(width, height, Members(popped), Members(open), Members(closed))
  }

  /** Removing the head of a list removes exactly that member. */
  lemma MembersTail(s: seq<nat>)
    requires |s| > 0
    ensures Members(s) == Members(s[1..]) + {s[0]}
  {
    assert s == [s[0]] + s[1..];
  }

  /** The search starts with the origin popped and closed and its neighbours
      queued. */
  lemma {:induction false} SearchStart(board: seq<int>, width: nat, height: nat, origin: nat, open: seq<nat>)
    requires width > 0 && |board| == width * height && origin < width * height
    requires forall i :: 0 <= i < |open| ==> Adjacent(width, height, origin, open[i])
    requires forall i :: 0 <= i < |open| ==> open[i] != origin && open[i] !in open[..i]
    requires forall b: nat :: Adjacent(width, height, origin, b) ==> b in open || b == origin
    ensures SearchInv(board, width, height, origin, open, [origin], [origin])
  {
    RegionIsLeastClosedSet(board, width, height, origin, {});
    assert Members([origin]) == {origin};
    forall i, j | 0 <= i < j < |open| ensures open[i] != open[j] {
      assert open[i] in open[..j];
    }
    forall b | b in Members(open) ensures exists p :: p in {origin} && Adjacent(width, height, p, b) {
      assert Adjacent(width, height, origin, b);
    }
  }

  /** Examining a queued cell of another colour closes it and keeps the
      invariant. */
  lemma {:induction false} SkipStep(board: seq<int>, width: nat, height: nat, origin: nat,
                                    open: seq<nat>, closed: seq<nat>, popped: seq<nat>)
    requires width > 0 && |board| == width * height
    requires SearchInv(board, width, height, origin, open, closed, popped)
    requires |open| > 0 && board[open[0]] != board[origin]
    ensures |closed| < width * height
    ensures SearchInv(board, width, height, origin, open[1..], closed + [open[0]], popped)
  {
    var curr := open[0];
    var closed' := closed + [curr];
    ClosedGrows(width, height, open, closed);
    MembersTail(open);
    assert Members(closed') == Members(closed) + {curr};
    var P := Members(popped);
    assert Supported(width, height, P, Members(open[1..]));
    assert Frontier(width, height, P, Members(open[1..]), Members(closed'));
  }

  /** Closing the head of the queue keeps the closed list distinct and on the
      board, so it has room for it. */
  lemma ClosedGrows(width: nat, height: nat, open: seq<nat>, closed: seq<nat>)
    requires |open| > 0 && open[0] !in Members(closed) && open[0] < width * height
    requires Distinct(open) && Distinct(closed)
    requires forall i :: 0 <= i < |closed| ==> closed[i] < width * height
    ensures Distinct(closed + [open[0]]) && Distinct(open[1..])
    ensures |closed| < width * height
  {
    var c := closed + [open[0]];
    assert forall i :: 0 <= i < |closed| ==> closed[i] in Members(closed);
    DistinctBounded(c, width * height);
  }

  /** The queue after popping its head and appending the head's unseen
      neighbours: on the board, distinct, disjoint from the closed cells,
      and made of the old tail plus neighbours of the head. */
  lemma {:induction false} NextQueue(width: nat, height: nat, open: seq<nat>, closed: seq<nat>, next: seq<nat>)
    requires width > 0 && |open| > 0
    requires forall i :: 0 <= i < |open| ==> open[i] < width * height && open[i] !in Members(closed)
    requires Distinct(open)
    requires |open| - 1 <= |next| && next[..|open| - 1] == open[1..]
    requires forall i :: |open| - 1 <= i < |next| ==>
      && Adjacent(width, height, open[0], next[i])
      && next[i] !in closed + [open[0]] && next[i] !in next[..i]
    ensures forall i :: 0 <= i < |next| ==> next[i] < width * height && next[i] !in Members(closed + [open[0]])
    ensures Distinct(next)
    ensures Members(open[1..]) <= Members(next)
    ensures forall b :: b in Members(next) ==> b in Members(open[1..]) || Adjacent(width, height, open[0], b)
  {
    var curr := open[0];
    forall i | 0 <= i < |next|
      ensures next[i] < width * height && next[i] !in Members(closed + [curr])
    {
      if i < |open| - 1 {
        assert next[i] == open[i + 1];
      }
    }
    forall i, j | 0 <= i < j < |next| ensures next[i] != next[j] {
      if j < |open| - 1 {
        assert next[i] == open[i + 1] && next[j] == open[j + 1];
      } else {
        assert next[i] in next[..j];
      }
    }
    forall b | b in Members(open[1..]) ensures b in Members(next) {
      var k :| 0 <= k < |open| - 1 && open[1..][k] == b;
      assert next[k] == b;
    }
    forall b | b in Members(next) && !Adjacent(width, height, curr, b) ensures b in Members(open[1..]) {
      var i :| 0 <= i < |next| && next[i] == b;
      assert next[i] == next[..|open| - 1][i];
    }
  }

  /** Examining a queued cell of the origin's colour pops it; queueing its
      unseen neighbours keeps the invariant. */
  lemma {:induction false} PopStep(board: seq<int>, width: nat, height: nat, origin: nat,
                                   open: seq<nat>, closed: seq<nat>, popped: seq<nat>, next: seq<nat>)
    requires width > 0 && |board| == width * height
    requires SearchInv(board, width, height, origin, open, closed, popped)
    requires |open| > 0 && board[open[0]] == board[origin]
    requires |open| - 1 <= |next| && next[..|open| - 1] == open[1..]
    requires forall i :: |open| - 1 <= i < |next| ==>
      && Adjacent(width, height, open[0], next[i])
      && next[i] !in closed + [open[0]] && next[i] !in next[..i]
    requires forall b: nat :: Adjacent(width, height, open[0], b) ==> b in next || b in closed + [open[0]]
    ensures |closed| < width * height
    ensures SearchInv(board, width, height, origin, next, closed + [open[0]], popped + [open[0]])
  {
    var curr := open[0];
    var closed', popped' := closed + [curr], popped + [curr];
    var O, C, P := Members(open), Members(closed), Members(popped);
    var O', C', P' := Members(next), Members(closed'), Members(popped');
    ClosedGrows(width, height, open, closed);
    MembersTail(open);
    NextQueue(width, height, open, closed, next);
    assert C' == C + {curr};
    assert P' == P + {curr};
    // curr joins the group through the popped cell it neighbours
    var p :| p in P && Adjacent(width, height, p, curr);
    RegionMaximal(board, width, height, origin, p, curr);
    assert Distinct(popped') by {
      assert curr !in P;
      forall i, j | 0 <= i < j < |popped'| ensures popped'[i] != popped'[j] {
        if j == |popped| {
          assert popped'[i] in P;
        }
      }
    }
    assert Supported(width, height, P', O') by {
      forall b | b in O' ensures exists q :: q in P' && Adjacent(width, height, q, b) {
        if !Adjacent(width, height, curr, b) {
          assert b in O;
        }
      }
    }
    assert Frontier(width, height, P', O', C') by {
      forall q: nat, b: nat | q in P' && Adjacent(width, height, q, b) ensures b in O' || b in C' {
        if q != curr && b !in C' {
          assert b in O;
        }
      }
    }
  }

  /** When the queue is empty the popped cells are exactly the origin's
      colour group. */
  lemma {:induction false} SearchDone(board: seq<int>, width: nat, height: nat, origin: nat,
                                      closed: seq<nat>, popped: seq<nat>)
    requires width > 0 && |board| == width * height
    requires SearchInv(board, width, height, origin, [], closed, popped)
    ensures Members(popped) == Region(board, width, height, origin)
    ensures forall j :: 0 <= j < |popped| ==> popped[j] < width * height
  {
    forall j | 0 <= j < |popped| ensures popped[j] < width * height {
      assert popped[j] in Members(closed);
    }
    var P := Members(popped);
    forall a: nat, b: nat | a in P && Adjacent(width, height, a, b) && board[b] == board[a]
      ensures b in P
    {
      assert b in Members(closed);
    }
    RegionIsLeastClosedSet(board, width, height, origin, P);
  }
}
