/**
 * The integer heuristics of src/algorithms.py (Manhattan and Chebyshev),
 * the name-based selection A* and Greedy use, and the facts that make A*
 * optimal with either of them on 4-directional unit-cost moves.
 */
module Heuristics {
  import opened Grid
  import opened Reach

  function Abs(x: int): nat
  {
    if x < 0 then -x else x
  }

  /**
   * `manhattan_distance`: the L1 norm of the difference.  It is zero only on
   * equal cells and lies between the Chebyshev distance and twice it.
   */
  function ManhattanDistance(a: Pos, b: Pos): (d: nat)
    ensures d == 0 <==> a == b
    ensures ChebyshevDistance(a, b) <= d <= 2 * ChebyshevDistance(a, b)
  {
    Abs(a.row - b.row) + Abs(a.col - b.col)
  }

  /** `chebyshev_distance`: the larger of the two coordinate differences. */
  function ChebyshevDistance(a: Pos, b: Pos): (d: nat)
    ensures d == 0 <==> a == b
    ensures Abs(a.row - b.row) <= d && Abs(a.col - b.col) <= d
    ensures d == Abs(a.row - b.row) || d == Abs(a.col - b.col)
  {
    var dr := Abs(a.row - b.row);
    var dc := Abs(a.col - b.col);
    if dr >= dc then dr else dc
  }

  /** Both heuristics are symmetric and vanish exactly on equal cells; Chebyshev never exceeds Manhattan. */
  lemma DistanceProperties(a: Pos, b: Pos)
    ensures ManhattanDistance(a, b) == ManhattanDistance(b, a)
    ensures ChebyshevDistance(a, b) == ChebyshevDistance(b, a)
    ensures ManhattanDistance(a, b) == 0 <==> a == b
    ensures ChebyshevDistance(a, b) == 0 <==> a == b
    ensures ChebyshevDistance(a, b) <= ManhattanDistance(a, b)
  {
  }

  /** The unit test's value: from (0,0) to (3,4) is 7 steps. */
  lemma ManhattanExample()
    ensures ManhattanDistance(Pos(0, 0), Pos(3, 4)) == 7
    ensures ChebyshevDistance(Pos(0, 0), Pos(3, 4)) == 4
  {
  }

  /**
   * Manhattan distance never exceeds the number of moves actually needed:
   * each move changes it by exactly one.
   */
  lemma {:induction false} ManhattanAdmissible(m: Maze, s: Pos, z: Pos, k: nat)
    requires WellFormed(m) && ReachIn(m, s, z, k)
    ensures ChebyshevDistance(s, z) <= ManhattanDistance(s, z) <= k
    decreases k
  {
    if k > 0 {
      var y :| Step(m, y, z) && ReachIn(m, s, y, k - 1);
      ManhattanAdmissible(m, s, y, k - 1);
    }
  }

  /**
   * A heuristic is consistent when one move lowers it by at most one; this
   * is what the A* relaxation proof needs.
   */
  ghost predicate Consistent(m: Maze, h: Pos -> nat)
    requires WellFormed(m)
  {
    forall x, y :: Step(m, x, y) ==> h(x) <= h(y) + 1
  }

  /** The names A* and Greedy accept; Euclidean works on floating point. */
  datatype HeuristicKind = Manhattan | Euclidean | Chebyshev

  /** The dictionary lookup with Manhattan as the fallback for unknown names. */
  function SelectHeuristic(name: string): (k: HeuristicKind)
    ensures k == Euclidean <==> name == "euclidean"
    ensures k == Chebyshev <==> name == "chebyshev"
    ensures k == Manhattan <==> name != "euclidean" && name != "chebyshev"
  {
    if name == "manhattan" then Manhattan
    else if name == "euclidean" then Euclidean
    else if name == "chebyshev" then Chebyshev
    else Manhattan
  }

  /** The heuristic function that A* and Greedy apply as `heuristic_func(p, target)`. */
  function HeuristicFn(kind: HeuristicKind, target: Pos): Pos -> nat
    requires kind != Euclidean
  {
    if kind == Manhattan then p => ManhattanDistance(p, target)
    else p => ChebyshevDistance(p, target)
  }

  /** Both integer heuristics are consistent, so A* stays optimal with either. */
  lemma HeuristicConsistent(m: Maze, kind: HeuristicKind, target: Pos)
    requires WellFormed(m) && kind != Euclidean
    ensures Consistent(m, HeuristicFn(kind, target))
  {
    var h := HeuristicFn(kind, target);
    forall x, y | Step(m, x, y) ensures h(x) <= h(y) + 1 {
      if kind == Manhattan {
        assert h(x) == ManhattanDistance(x, target);
      } else {
        assert h(x) == ChebyshevDistance(x, target);
      }
    }
  }

  /** Both integer heuristics underestimate the true distance to the target. */
  lemma HeuristicAdmissible(m: Maze, kind: HeuristicKind, p: Pos, target: Pos, k: nat)
    requires WellFormed(m) && kind != Euclidean && ReachIn(m, p, target, k)
    ensures HeuristicFn(kind, target)(p) <= k
  {
    ManhattanAdmissible(m, p, target, k);
    DistanceProperties(p, target);
  }

  // ----- The heuristic's display name -----

  /** ASCII upper case; other characters are left alone. */
  function ToUpper(c: char): char
  {
    if 'a' <= c <= 'z' then (c as int - 32) as char else c
  }

  /** ASCII lower case; other characters are left alone. */
  function ToLower(c: char): char
  {
    if 'A' <= c <= 'Z' then (c as int + 32) as char else c
  }

  predicate IsLower(c: char)
  {
    !('A' <= c <= 'Z')
  }

  /** `str.capitalize` on ASCII text: the first character upper case, the rest lower case. */
  function Capitalize(s: string): (r: string)
    ensures |r| == |s|
    ensures |s| > 0 ==> r[0] == ToUpper(s[0]) && !('a' <= r[0] <= 'z')
    ensures forall i :: 0 < i < |s| ==> r[i] == ToLower(s[i]) && IsLower(r[i])
  {
    if |s| == 0 then s
    else [ToUpper(s[0])] + seq(|s| - 1, i requires 0 <= i < |s| - 1 => ToLower(s[i + 1]))
  }

  /** Capitalizing twice is capitalizing once. */
  lemma CapitalizeIdempotent(s: string)
    ensures Capitalize(Capitalize(s)) == Capitalize(s)
  {
    var r := Capitalize(s);
    var rr := Capitalize(r);
    if |s| > 0 {
      assert rr[0] == r[0];
      forall i | 0 < i < |s| ensures rr[i] == r[i] {
        assert IsLower(r[i]);
      }
    }
  }

  /** Capitalizing a word agrees with the word t at every position. */
  lemma CapitalizeTo(s: string, t: string)
    requires |s| == |t| > 0 && t[0] == ToUpper(s[0])
    requires forall i :: 0 < i < |s| ==> t[i] == ToLower(s[i])
    ensures Capitalize(s) == t
  {
  }

  /** The names the reports show for the two integer heuristics. */
  lemma CapitalizeNames()
    ensures Capitalize("manhattan") == "Manhattan"
    ensures Capitalize("chebyshev") == "Chebyshev"
  {
    CapitalizeTo("manhattan", "Manhattan");
    CapitalizeTo("chebyshev", "Chebyshev");
  }
}
