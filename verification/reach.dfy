/**
 * Reachability in the maze graph whose edges are the Steps of the grid:
 * a move from x to y is allowed exactly when y is one of x's neighbours
 * (GetNeighbors' contract).
 * This is the independent reference the search algorithms are checked against.
 */
module Reach {
  import opened Grid

  /** z can be reached from s in exactly k steps. */
  ghost predicate ReachIn(m: Maze, s: Pos, z: Pos, k: nat)
    requires WellFormed(m)
    decreases k
  {
    if k == 0 then z == s
    else exists y :: Step(m, y, z) && ReachIn(m, s, y, k - 1)
  }

  ghost predicate Reachable(m: Maze, s: Pos, z: Pos)
    requires WellFormed(m)
  {
    exists k: nat :: ReachIn(m, s, z, k)
  }

  /** d is the length of a shortest route from s to z. */
  ghost predicate ShortestDistance(m: Maze, s: Pos, z: Pos, d: nat)
    requires WellFormed(m)
  {
    ReachIn(m, s, z, d) && forall k: nat :: k < d ==> !ReachIn(m, s, z, k)
  }

  lemma ReachStep(m: Maze, s: Pos, y: Pos, z: Pos, k: nat)
    requires WellFormed(m) && ReachIn(m, s, y, k) && Step(m, y, z)
    ensures ReachIn(m, s, z, k + 1)
  {
  }

  /** A walk: a non-empty sequence in which each cell is a neighbour of the one before. */
  predicate IsWalk(m: Maze, p: seq<Pos>)
    requires WellFormed(m)
  {
    |p| > 0 && forall i, j :: 0 <= i < |p| && 0 <= j < |p| && j == i + 1 ==> Step(m, p[i], p[j])
  }

  /**
   * A chain of unit moves: each cell is one row or one column away from the
   * one before, whether or not it is open.
   */
  predicate UnitChain(p: seq<Pos>)
  {
    forall i, j :: 0 <= i < |p| && 0 <= j < |p| && j == i + 1 ==> UnitStep(p[i], p[j])
  }

  /** A walk of n cells reaches its last cell from its first in n - 1 steps. */
  lemma {:induction false} WalkReaches(m: Maze, p: seq<Pos>)
    requires WellFormed(m) && IsWalk(m, p)
    ensures ReachIn(m, p[0], p[|p| - 1], |p| - 1)
  {
    if |p| > 1 {
      var q := p[..|p| - 1];
      assert IsWalk(m, q) by {
        forall i | 0 <= i < |q| - 1 ensures Step(m, q[i], q[i + 1]) {
          assert q[i] == p[i] && q[i + 1] == p[i + 1];
        }
      }
      WalkReaches(m, q);
      assert Step(m, q[|q| - 1], p[|p| - 1]);
      ReachStep(m, p[0], q[|q| - 1], p[|p| - 1], |q| - 1);
    }
  }

  /** Conversely, reaching z in k steps means there is a walk of k + 1 cells. */
  lemma {:induction false} ReachHasWalk(m: Maze, s: Pos, z: Pos, k: nat)
    requires WellFormed(m) && ReachIn(m, s, z, k)
    ensures exists p :: IsWalk(m, p) && |p| == k + 1 && p[0] == s && p[k] == z
    decreases k
  {
    if k == 0 {
      assert IsWalk(m, [s]);
    } else {
      var y :| Step(m, y, z) && ReachIn(m, s, y, k - 1);
      ReachHasWalk(m, s, y, k - 1);
      var q :| IsWalk(m, q) && |q| == k && q[0] == s && q[k - 1] == y;
      var p := q + [z];
      assert IsWalk(m, p) by {
        forall i | 0 <= i < |p| - 1 ensures Step(m, p[i], p[i + 1]) {
          if i < |q| - 1 {
            assert p[i] == q[i] && p[i + 1] == q[i + 1];
          }
        }
      }
    }
  }

  /** A move in front of a route: from z to w, then on from w to y. */
  lemma {:induction false} ReachPrepend(m: Maze, z: Pos, w: Pos, y: Pos, j: nat)
    requires WellFormed(m) && Step(m, z, w) && ReachIn(m, w, y, j)
    ensures ReachIn(m, z, y, j + 1)
    decreases j
  {
    if j == 0 {
      assert ReachIn(m, z, z, 0);
    } else {
      var x :| Step(m, x, y) && ReachIn(m, w, x, j - 1);
      ReachPrepend(m, z, w, x, j - 1);
      ReachStep(m, z, x, y, j);
    }
  }

  /**
   * Routes run backwards except for their first cell: every cell after the
   * first is open (it was moved into), so a route from s to z of k > 0 moves
   * gives a route of k - 1 moves from z back to the cell after s.  The first
   * cell itself may be a wall, which is why it is left out.
   */
  lemma {:induction false} ReachBack(m: Maze, s: Pos, z: Pos, k: nat)
    requires WellFormed(m) && ReachIn(m, s, z, k) && k > 0
    ensures exists y :: Step(m, s, y) && ReachIn(m, z, y, k - 1)
    decreases k
  {
    var w :| Step(m, w, z) && ReachIn(m, s, w, k - 1);
    if k == 1 {
      assert Step(m, s, z) && ReachIn(m, z, z, 0);
    } else {
      ReachBack(m, s, w, k - 1);
      var y :| Step(m, s, y) && ReachIn(m, w, y, k - 2);
      var v :| Step(m, v, w) && ReachIn(m, s, v, k - 2);
      assert Step(m, z, w);
      ReachPrepend(m, z, w, y, k - 2);
    }
  }

  /** Every cell of the maze plus the two endpoints, which may lie outside it. */
  function Universe(m: Maze): set<Pos>
  {
    AllCells(m) + {m.start, m.end}
  }

  lemma StepInUniverse(m: Maze, x: Pos, n: Pos)
    requires WellFormed(m) && Step(m, x, n)
    ensures n in AllCells(m) && n in Universe(m)
  {
    AllCellsAreInBounds(m, n);
  }

  lemma ReachInUniverse(m: Maze, z: Pos, k: nat)
    requires WellFormed(m) && ReachIn(m, m.start, z, k)
    ensures z in Universe(m)
  {
    if k > 0 {
      var y :| Step(m, y, z) && ReachIn(m, m.start, y, k - 1);
      StepInUniverse(m, y, z);
    }
  }

  /** The cells reachable from the start (a finite set). */
  ghost function ReachableCells(m: Maze): set<Pos>
    requires WellFormed(m)
  {
    set z | z in Universe(m) && Reachable(m, m.start, z)
  }

  lemma InReachableCells(m: Maze, z: Pos, k: nat)
    requires WellFormed(m) && ReachIn(m, m.start, z, k)
    ensures z in ReachableCells(m)
  {
    ReachInUniverse(m, z, k);
  }

  /**
   * A set that contains s and every neighbour of each of its members
   * contains every cell reachable from s.
   */
  lemma {:induction false} ClosedSetHoldsReachable(m: Maze, s: Pos, E: set<Pos>, z: Pos, k: nat)
    requires WellFormed(m) && s in E
    requires forall x, n :: x in E && Step(m, x, n) ==> n in E
    requires ReachIn(m, s, z, k)
    ensures z in E
    decreases k
  {
    if k > 0 {
      var y :| Step(m, y, z) && ReachIn(m, s, y, k - 1);
      ClosedSetHoldsReachable(m, s, E, y, k - 1);
    }
  }

  lemma {:induction false} SubsetCard<T>(a: set<T>, b: set<T>)
    requires a <= b
    ensures |a| <= |b|
    decreases |a|
  {
    if a != {} {
      var x :| x in a;
      SubsetCard(a - {x}, b - {x});
    }
  }

  lemma {:induction false} DistinctCard(s: seq<Pos>)
    requires Distinct(s)
    ensures |set x | x in s| == |s|
  {
    if |s| > 0 {
      var t := s[1..];
      assert Distinct(t);
      DistinctCard(t);
      assert (set x | x in s) == (set x | x in t) + {s[0]};
      assert s[0] !in (set x | x in t);
    }
  }

  /** Removing a fresh subset S of U from U's complement of V shrinks it by |S|. */
  lemma GrowCard(U: set<Pos>, V: set<Pos>, S: set<Pos>)
    requires S <= U && S !! V
    ensures |U - (V + S)| == |U - V| - |S|
  {
    assert U - V == (U - (V + S)) + S;
    assert (U - (V + S)) !! S;
  }
}
