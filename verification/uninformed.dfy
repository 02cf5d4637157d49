/**
 * Depth-first and breadth-first search of src/algorithms.py.  Both mark a
 * cell visited when it is pushed, both record the parent on discovery, and
 * they differ only in which end of the frontier they take the next cell from.
 * The visualisation callback is a no-op and is not modelled.
 */
module Uninformed {
  import opened Options
  import opened Grid
  import opened Reach
  import opened Parents
  import opened Metrics

  /** The neighbours that have not been visited yet, in neighbour order. */
  function Unvisited(nbrs: seq<Pos>, visited: set<Pos>): (r: seq<Pos>)
    ensures forall x :: x in r <==> x in nbrs && x !in visited
    ensures Distinct(nbrs) ==> Distinct(r)
    ensures |r| <= |nbrs|
  {
    if nbrs == [] then []
    else (if nbrs[0] in visited then [] else [nbrs[0]]) + Unvisited(nbrs[1..], visited)
  }

  lemma UnvisitedIgnores(nbrs: seq<Pos>, visited: set<Pos>, x: Pos)
    requires x !in nbrs
    ensures Unvisited(nbrs, visited + {x}) == Unvisited(nbrs, visited)
  {
    if nbrs != [] {
      UnvisitedIgnores(nbrs[1..], visited, x);
    }
  }

  /** The cells of a sequence, as a set. */
  function CellSet(cells: seq<Pos>): (r: set<Pos>)
    ensures forall x :: x in r <==> x in cells
  {
    set n | n in cells
  }

  /** Visited set, frontier and parent map, as the inner loop updates them. */
  datatype Discovery = Discovery(visited: set<Pos>, frontier: seq<Pos>, cameFrom: map<Pos, Pos>)

  /**
   * The inner `for neighbor in get_neighbors(current)` loop shared by DFS and
   * BFS: each neighbour not yet visited is marked visited, pushed on the
   * frontier and given `current` as its parent.  Because the neighbour list
   * has no repeats, the loop's effect is that of adding all unvisited
   * neighbours at once, in neighbour order.
   */
  function Discover(current: Pos, nbrs: seq<Pos>, d: Discovery): (r: Discovery)
    requires Distinct(nbrs)
    ensures forall n :: n in nbrs ==> n in r.visited
    ensures forall x :: x in r.cameFrom && x !in d.cameFrom ==> x in nbrs && r.cameFrom[x] == current
    ensures var newCells := Unvisited(nbrs, d.visited);
            && r.visited == d.visited + CellSet(newCells)
            && r.frontier == d.frontier + newCells
            && r.cameFrom == d.cameFrom + ConstMap(newCells, current)
  {
    if nbrs == [] then d
    else if nbrs[0] in d.visited then
      assert Unvisited(nbrs, d.visited) == Unvisited(nbrs[1..], d.visited);
      Discover(current, nbrs[1..], d)
    else
      var n := nbrs[0];
      var r := Discover(current, nbrs[1..], Discovery(d.visited + {n}, d.frontier + [n], d.cameFrom[n := current]));
      UnvisitedIgnores(nbrs[1..], d.visited, n);
      DiscoverFirst(current, n, Unvisited(nbrs[1..], d.visited), d);
      r
  }

  /** Discovering n and then the rest adds the same cells and parents as discovering n::rest at once. */
  lemma DiscoverFirst(current: Pos, n: Pos, rest: seq<Pos>, d: Discovery)
    ensures d.visited + {n} + CellSet(rest) == d.visited + CellSet([n] + rest)
    ensures d.cameFrom[n := current] + ConstMap(rest, current) == d.cameFrom + ConstMap([n] + rest, current)
    ensures d.frontier + [n] + rest == d.frontier + ([n] + rest)
  {
  }

  /**
   * What holds of a DFS or BFS run at the top of its loop: `expanded` (ghost)
   * holds the cells popped so far and `depth` (ghost) each visited cell's
   * level in the parent tree.  Every parent is an expanded cell one move
   * before its child; every visited cell is expanded or waiting on the
   * frontier; the neighbours of expanded cells are visited.
   */
  ghost predicate SearchInv(m: Maze, visited: set<Pos>, frontier: seq<Pos>, cameFrom: map<Pos, Pos>,
                            expanded: set<Pos>, depth: map<Pos, nat>)
    requires WellFormed(m)
  {
    && ParentsExpanded(m, visited, cameFrom, expanded, depth)
    && FrontierCovers(visited, frontier, expanded)
    && ExpandedClosed(m, visited, expanded)
    && DepthsReached(m, visited, depth)
    && m.end !in expanded
  }

  /** The parent map is a tree rooted at the start whose inner nodes are all expanded. */
  ghost predicate ParentsExpanded(m: Maze, visited: set<Pos>, cameFrom: map<Pos, Pos>,
                                  expanded: set<Pos>, depth: map<Pos, nat>)
    requires WellFormed(m)
  {
    && Tree(m, cameFrom, depth, m.start)
    && depth.Keys == visited
    && (forall x {:trigger cameFrom[x]} :: x in cameFrom ==> cameFrom[x] in expanded)
    && expanded <= visited
  }

  /** Every visited cell is expanded or waits, once, on the frontier. */
  ghost predicate FrontierCovers(visited: set<Pos>, frontier: seq<Pos>, expanded: set<Pos>)
  {
    && (forall x :: x in visited ==> x in expanded || x in frontier)
    && (forall i :: 0 <= i < |frontier| ==> frontier[i] in visited && frontier[i] !in expanded)
    && Distinct(frontier)
  }

  /** Every neighbour of an expanded cell has been visited. */
  ghost predicate ExpandedClosed(m: Maze, visited: set<Pos>, expanded: set<Pos>)
    requires WellFormed(m)
  {
    forall x, n :: x in expanded && Step(m, x, n) ==> n in visited
  }

  /** Every visited cell is reachable in exactly its depth in moves. */
  ghost predicate DepthsReached(m: Maze, visited: set<Pos>, depth: map<Pos, nat>)
    requires WellFormed(m)
    requires depth.Keys == visited
  {
    && (forall x :: x in visited ==> ReachIn(m, m.start, x, depth[x]))
    && visited <= Universe(m)
  }

  lemma SearchInit(m: Maze)
    requires WellFormed(m)
    ensures SearchInv(m, {m.start}, [m.start], map[], {}, map[m.start := 0])
  {
  }

  /**
   * One expansion: the cell at position i of the frontier (the top of the
   * stack for DFS, the head of the queue for BFS) is popped and is not the
   * end; its unvisited neighbours are discovered.  The invariant survives
   * and the termination measure drops.
   */
  lemma ExpandStep(m: Maze, visited: set<Pos>, frontier: seq<Pos>, cameFrom: map<Pos, Pos>,
                   expanded: set<Pos>, depth: map<Pos, nat>, i: nat, c: Pos, newCells: seq<Pos>,
                   visited': set<Pos>, frontier': seq<Pos>, cameFrom': map<Pos, Pos>,
                   expanded': set<Pos>, depth': map<Pos, nat>)
    requires WellFormed(m) && SearchInv(m, visited, frontier, cameFrom, expanded, depth)
    requires i < |frontier| && c == frontier[i] && c != m.end
    requires Distinct(newCells) && forall n :: n in newCells <==> Step(m, c, n) && n !in visited
    requires visited' == visited + CellSet(newCells) && frontier' == frontier[..i] + frontier[i + 1..] + newCells
    requires cameFrom' == cameFrom + ConstMap(newCells, c) && expanded' == expanded + {c}
    requires depth' == depth + ConstMap(newCells, depth[c] + 1)
    ensures SearchInv(m, visited', frontier', cameFrom', expanded', depth')
    ensures |Universe(m) - visited'| + |frontier'| < |Universe(m) - visited| + |frontier|
  {
    ExpandTree(m, visited, cameFrom, expanded, depth, c, newCells);
    ExpandReach(m, visited, depth, c, newCells);
    ExpandFrontier(visited, frontier, expanded, i, c, newCells);
    ExpandClosed(m, visited, expanded, c, newCells);
    ExpandMeasure(m, visited, frontier, i, newCells);
  }

  /** The unvisited neighbours of c are exactly the open cells one move from c that are not yet visited. */
  lemma UnvisitedNeighbors(m: Maze, c: Pos, visited: set<Pos>)
    requires WellFormed(m)
    ensures var newCells := Unvisited(Neighbors(m, c), visited);
            Distinct(newCells) && forall n :: n in newCells <==> Step(m, c, n) && n !in visited
  {
    NeighborsDistinct(m, c);
  }

  /** The newly discovered cells hang off c one level deeper. */
  lemma ExpandTree(m: Maze, visited: set<Pos>, cameFrom: map<Pos, Pos>, expanded: set<Pos>,
                   depth: map<Pos, nat>, c: Pos, newCells: seq<Pos>)
    requires WellFormed(m) && ParentsExpanded(m, visited, cameFrom, expanded, depth)
    requires c in visited
    requires forall n :: n in newCells ==> Step(m, c, n) && n !in visited
    ensures ParentsExpanded(m, visited + CellSet(newCells), cameFrom + ConstMap(newCells, c),
                            expanded + {c}, depth + ConstMap(newCells, depth[c] + 1))
  {
    var cameFrom' := cameFrom + ConstMap(newCells, c);
    var depth' := depth + ConstMap(newCells, depth[c] + 1);
    var visited' := visited + CellSet(newCells);
    assert depth'.Keys == visited';
    forall x | x in cameFrom'
      ensures x in depth' && cameFrom'[x] in depth' && depth'[x] == depth'[cameFrom'[x]] + 1
      ensures Step(m, cameFrom'[x], x) && cameFrom'[x] in expanded + {c}
    {
      if x in newCells {
        assert cameFrom'[x] == c && depth'[x] == depth[c] + 1;
      } else {
        assert cameFrom'[x] == cameFrom[x] && depth'[x] == depth[x];
        assert cameFrom[x] in visited;
      }
    }
    forall x | x in depth' ensures Parented(cameFrom', m.start, x) {
      if x in depth {
        assert Parented(cameFrom, m.start, x);
      }
    }
  }

  /** ... and are reachable in that many moves. */
  lemma ExpandReach(m: Maze, visited: set<Pos>, depth: map<Pos, nat>, c: Pos, newCells: seq<Pos>)
    requires WellFormed(m) && depth.Keys == visited
    requires forall x :: x in visited ==> ReachIn(m, m.start, x, depth[x])
    requires visited <= Universe(m) && c in visited
    requires forall n :: n in newCells ==> Step(m, c, n) && n !in visited
    ensures DepthsReached(m, visited + CellSet(newCells), depth + ConstMap(newCells, depth[c] + 1))
  {
    forall n | n in newCells ensures n in Universe(m) && ReachIn(m, m.start, n, depth[c] + 1) {
      StepInUniverse(m, c, n);
      ReachStep(m, m.start, c, n, depth[c]);
    }
  }

  /** Popping position i and appending the new cells keeps the frontier duplicate-free and covering. */
  lemma ExpandFrontier(visited: set<Pos>, frontier: seq<Pos>, expanded: set<Pos>,
                       i: nat, c: Pos, newCells: seq<Pos>)
    requires i < |frontier| && c == frontier[i] && expanded <= visited
    requires forall x :: x in visited ==> x in expanded || x in frontier
    requires forall j :: 0 <= j < |frontier| ==> frontier[j] in visited && frontier[j] !in expanded
    requires Distinct(frontier) && Distinct(newCells)
    requires forall x :: x in newCells ==> x !in visited
    ensures FrontierCovers(visited + CellSet(newCells), frontier[..i] + frontier[i + 1..] + newCells, expanded + {c})
  {
    RemoveAtIndex(frontier, i);
    FrontierStillCovers(visited, frontier, expanded, i, c, newCells);
    FrontierStillPending(visited, frontier, expanded, i, c, newCells);
    FrontierStillDistinct(visited, frontier, i, newCells);
  }

  /** Where each element of a sequence with position i removed came from. */
  lemma RemoveAtIndex(s: seq<Pos>, i: nat)
    requires i < |s|
    ensures var rest := s[..i] + s[i + 1..];
            |rest| == |s| - 1 && forall j :: 0 <= j < |rest| ==> rest[j] == s[if j < i then j else j + 1]
  {
  }

  lemma FrontierStillCovers(visited: set<Pos>, frontier: seq<Pos>, expanded: set<Pos>,
                            i: nat, c: Pos, newCells: seq<Pos>)
    requires i < |frontier| && c == frontier[i]
    requires forall x :: x in visited ==> x in expanded || x in frontier
    requires var rest := frontier[..i] + frontier[i + 1..];
             |rest| == |frontier| - 1 && forall j :: 0 <= j < |rest| ==> rest[j] == frontier[if j < i then j else j + 1]
    ensures forall x :: x in visited + CellSet(newCells) ==>
              x in expanded + {c} || x in frontier[..i] + frontier[i + 1..] + newCells
  {
    var rest := frontier[..i] + frontier[i + 1..];
    forall x | x in visited + CellSet(newCells) ensures x in expanded + {c} || x in rest + newCells {
      if x in visited && x !in expanded && x != c {
        var j :| 0 <= j < |frontier| && frontier[j] == x;
        assert rest[if j < i then j else j - 1] == x;
      } else if x !in visited {
        assert x in newCells;
      }
    }
  }

  lemma FrontierStillPending(visited: set<Pos>, frontier: seq<Pos>, expanded: set<Pos>,
                             i: nat, c: Pos, newCells: seq<Pos>)
    requires i < |frontier| && c == frontier[i] && expanded <= visited
    requires forall j :: 0 <= j < |frontier| ==> frontier[j] in visited && frontier[j] !in expanded
    requires Distinct(frontier)
    requires forall x :: x in newCells ==> x !in visited
    requires var rest := frontier[..i] + frontier[i + 1..];
             |rest| == |frontier| - 1 && forall j :: 0 <= j < |rest| ==> rest[j] == frontier[if j < i then j else j + 1]
    ensures var frontier' := frontier[..i] + frontier[i + 1..] + newCells;
            forall j :: 0 <= j < |frontier'| ==> frontier'[j] in visited + CellSet(newCells) && frontier'[j] !in expanded + {c}
  {
    var rest := frontier[..i] + frontier[i + 1..];
    var frontier' := rest + newCells;
    forall j | 0 <= j < |frontier'| ensures frontier'[j] in visited + CellSet(newCells) && frontier'[j] !in expanded + {c} {
      if j < |rest| {
        var j0 := if j < i then j else j + 1;
        assert frontier'[j] == frontier[j0];
        if j0 < i {
          assert frontier[j0] != frontier[i];
        } else {
          assert frontier[i] != frontier[j0];
        }
      } else {
        assert frontier'[j] == newCells[j - |rest|];
      }
    }
  }

  lemma FrontierStillDistinct(visited: set<Pos>, frontier: seq<Pos>, i: nat, newCells: seq<Pos>)
    requires i < |frontier| && Distinct(frontier) && Distinct(newCells)
    requires forall j :: 0 <= j < |frontier| ==> frontier[j] in visited
    requires forall x :: x in newCells ==> x !in visited
    requires var rest := frontier[..i] + frontier[i + 1..];
             |rest| == |frontier| - 1 && forall j :: 0 <= j < |rest| ==> rest[j] == frontier[if j < i then j else j + 1]
    ensures Distinct(frontier[..i] + frontier[i + 1..] + newCells)
  {
    var rest := frontier[..i] + frontier[i + 1..];
    var frontier' := rest + newCells;
    forall a, b | 0 <= a < b < |frontier'| ensures frontier'[a] != frontier'[b] {
      if b < |rest| {
        assert frontier'[a] == frontier[if a < i then a else a + 1];
        assert frontier'[b] == frontier[if b < i then b else b + 1];
      } else if a < |rest| {
        assert frontier'[a] in visited;
        assert frontier'[b] == newCells[b - |rest|];
      } else {
        assert frontier'[a] == newCells[a - |rest|] && frontier'[b] == newCells[b - |rest|];
      }
    }
  }

  /** After expanding c, all its neighbours are visited. */
  lemma ExpandClosed(m: Maze, visited: set<Pos>, expanded: set<Pos>, c: Pos, newCells: seq<Pos>)
    requires WellFormed(m)
    requires forall x, n :: x in expanded && Step(m, x, n) ==> n in visited
    requires forall n :: Step(m, c, n) ==> n in visited || n in newCells
    ensures ExpandedClosed(m, visited + CellSet(newCells), expanded + {c})
  {
  }

  /** The termination measure: cells leave the unvisited pool faster than the frontier grows. */
  lemma ExpandMeasure(m: Maze, visited: set<Pos>, frontier: seq<Pos>, i: nat, newCells: seq<Pos>)
    requires i < |frontier| && Distinct(newCells) && visited <= Universe(m)
    requires forall x :: x in newCells ==> x !in visited && x in Universe(m)
    ensures var visited' := visited + CellSet(newCells);
            var frontier' := frontier[..i] + frontier[i + 1..] + newCells;
            |Universe(m) - visited'| + |frontier'| < |Universe(m) - visited| + |frontier|
  {
    var S := CellSet(newCells);
    DistinctCard(newCells);
    GrowCard(Universe(m), visited, S);
  }

  /** Popping the end: it joins the expanded cells and the parent tree is unaffected. */
  lemma FoundEnd(m: Maze, visited: set<Pos>, frontier: seq<Pos>, cameFrom: map<Pos, Pos>,
                 expanded: set<Pos>, depth: map<Pos, nat>, i: nat, c: Pos)
    requires WellFormed(m) && SearchInv(m, visited, frontier, cameFrom, expanded, depth)
    requires i < |frontier| && c == frontier[i]
    ensures ParentsExpanded(m, visited, cameFrom, expanded + {c}, depth) && DepthsReached(m, visited, depth)
    ensures c in expanded + {c}
  {
  }

  /** Once the frontier is empty the expanded cells are closed under moves, so they hold everything reachable. */
  lemma ExhaustedMeansUnreachable(m: Maze, visited: set<Pos>, cameFrom: map<Pos, Pos>,
                                  expanded: set<Pos>, depth: map<Pos, nat>)
    requires WellFormed(m) && SearchInv(m, visited, [], cameFrom, expanded, depth)
    ensures !Reachable(m, m.start, m.end)
  {
    if Reachable(m, m.start, m.end) {
      var k: nat :| ReachIn(m, m.start, m.end, k);
      ClosedSetHoldsReachable(m, m.start, expanded, m.end, k);
    }
  }

  /** Expanded cells are reachable, so there are at most as many as reachable cells. */
  lemma ExpandedBound(m: Maze, visited: set<Pos>, expanded: set<Pos>, depth: map<Pos, nat>)
    requires WellFormed(m) && expanded <= visited && depth.Keys == visited
    requires forall x :: x in visited ==> ReachIn(m, m.start, x, depth[x])
    ensures |expanded| <= |ReachableCells(m)|
  {
    forall x | x in expanded ensures x in ReachableCells(m) {
      InReachableCells(m, x, depth[x]);
    }
    SubsetCard(expanded, ReachableCells(m));
  }

  /**
   * The report a DFS or BFS run returns once its loop stops: either the end
   * was expanded (`found`) and the path is read back through the parent map,
   * or the frontier ran dry and the path is empty.
   */
  method Conclude(m: Maze, t: Tracker, name: string, isOptimal: bool, found: bool, visited: set<Pos>,
                  cameFrom: map<Pos, Pos>, ghost expanded: set<Pos>, ghost depth: map<Pos, nat>)
    returns (r: AlgorithmMetrics)
    requires WellFormed(m)
    requires ParentsExpanded(m, visited, cameFrom, expanded, depth) && DepthsReached(m, visited, depth)
    requires found ==> m.end in expanded
    requires !found ==> SearchInv(m, visited, [], cameFrom, expanded, depth)
    ensures r.pathFound <==> Reachable(m, m.start, m.end)
    ensures r.pathFound <==> |r.path| > 0
    ensures r.pathFound == found
    ensures r.pathFound ==> r.path[0] == m.start && r.path[|r.path| - 1] == m.end
    ensures found ==> |r.path| == depth[m.end] + 1
    ensures r.pathFound ==> IsWalk(m, r.path) && ReachIn(m, m.start, m.end, |r.path| - 1)
    ensures found && m.start == m.end && cameFrom == map[] ==> r.path == [m.start]
    ensures r.nodesExplored == t.nodesExplored && |expanded| <= |ReachableCells(m)|
    ensures r.algorithmName == name && r.isOptimal == isOptimal && r.heuristicUsed == None
    ensures r.timeComplexity == "O(V + E)" && r.spaceComplexity == "O(V)"
    ensures r.pathLength == |r.path|
  {
    var path := [];
    if found {
      TreeRanked(m, cameFrom, depth, m.start);
      path := ReconstructPath(cameFrom, m.end, depth);
      TreePath(m, cameFrom, depth, m.start, path);
      WalkReaches(m, path);
    } else {
      ExhaustedMeansUnreachable(m, visited, cameFrom, expanded, depth);
    }
    ExpandedBound(m, visited, expanded, depth);
    r := CreateMetrics(t, name, path, "O(V + E)", "O(V)", isOptimal, None);
  }

  /**
   * The body of one DFS or BFS iteration once the popped cell c (at
   * position i of the frontier) is known not to be the end: its unvisited
   * neighbours are discovered.  The search invariant survives, one more
   * cell is expanded, and the termination measure drops.
   */
  method Expand(m: Maze, visited: set<Pos>, frontier: seq<Pos>, cameFrom: map<Pos, Pos>,
                ghost expanded: set<Pos>, ghost depth: map<Pos, nat>, i: nat, c: Pos,
                ghost layered: bool, ghost level: nat, ghost split: nat)
    returns (visited': set<Pos>, frontier': seq<Pos>, cameFrom': map<Pos, Pos>,
             ghost expanded': set<Pos>, ghost depth': map<Pos, nat>)
    requires WellFormed(m) && SearchInv(m, visited, frontier, cameFrom, expanded, depth)
    requires i < |frontier| && c == frontier[i] && c != m.end
    requires layered ==> i == 0 && Layered(m, frontier, expanded, depth, level, split)
    ensures SearchInv(m, visited', frontier', cameFrom', expanded', depth')
    ensures layered ==> Layered(m, frontier', expanded', depth', NextLevel(level, split), NextSplit(split, frontier'))
    ensures |expanded'| == |expanded| + 1
    ensures |Universe(m) - visited'| + |frontier'| < |Universe(m) - visited| + |frontier|
    ensures expanded' == expanded + {c}
  {
    var newCells := Unvisited(Neighbors(m, c), visited);
    UnvisitedNeighbors(m, c, visited);
    NeighborsDistinct(m, c);
    var d := Discover(c, Neighbors(m, c), Discovery(visited, frontier[..i] + frontier[i + 1..], cameFrom));
    depth' := depth + ConstMap(newCells, depth[c] + 1);
    expanded' := expanded + {c};
    ExpandStep(m, visited, frontier, cameFrom, expanded, depth, i, c, newCells,
               d.visited, d.frontier, d.cameFrom, expanded', depth');
    visited', frontier', cameFrom' := d.visited, d.frontier, d.cameFrom;
    if layered {
      LayeredStep(m, visited, frontier, expanded, depth, level, split, i, c, newCells, frontier', expanded', depth');
    }
  }

  /**
   * The stack loop of `dfs`, one call per iteration: record the frontier
   * size, pop the top cell, stop if it is the end, otherwise push its
   * unvisited neighbours and go round again.  It finds a path exactly when
   * the end is reachable, the path is a walk from start to end, and no cell
   * is expanded twice.
   */
  method DfsRun(m: Maze, t: Tracker, visited: set<Pos>, stack: seq<Pos>, cameFrom: map<Pos, Pos>,
                ghost expanded: set<Pos>, ghost depth: map<Pos, nat>) returns (r: AlgorithmMetrics)
    requires WellFormed(m) && SearchInv(m, visited, stack, cameFrom, expanded, depth)
    requires t.nodesExplored == |expanded|
    requires m.start == m.end ==> stack == [m.start] && expanded == {} && cameFrom == map[]
    ensures r.pathFound <==> Reachable(m, m.start, m.end)
    ensures r.pathFound <==> |r.path| > 0
    ensures r.pathFound ==> r.path[0] == m.start && r.path[|r.path| - 1] == m.end && IsWalk(m, r.path)
    ensures r.nodesExplored <= |ReachableCells(m)|
    ensures m.start == m.end ==> r.path == [m.start] && r.nodesExplored == 1
    ensures !r.isOptimal && r.heuristicUsed == None && r.pathLength == |r.path|
    ensures r.algorithmName == "DFS (Stack)" && r.timeComplexity == "O(V + E)" && r.spaceComplexity == "O(V)"
    decreases |Universe(m) - visited| + |stack|
  {
    if |stack| == 0 {
      r := Conclude(m, t, "DFS (Stack)", false, false, visited, cameFrom, expanded, depth);
      return;
    }
    var t' := IncrementNodes(UpdateFrontierSize(t, |stack|));
    var i := |stack| - 1;
    var current := stack[i];
    if current == m.end {
      FoundEnd(m, visited, stack, cameFrom, expanded, depth, i, current);
      r := Conclude(m, t', "DFS (Stack)", false, true, visited, cameFrom, expanded + {current}, depth);
      return;
    }
    var visited', stack', cameFrom', expanded', depth' :=
      Expand(m, visited, stack, cameFrom, expanded, depth, i, current, false, 0, 0);
    r := DfsRun(m, t', visited', stack', cameFrom', expanded', depth');
  }

  /** `dfs`: the stack starts with the start cell, which is marked visited. */
  method Dfs(m: Maze) returns (r: AlgorithmMetrics)
    requires WellFormed(m)
    ensures r.pathFound <==> Reachable(m, m.start, m.end)
    ensures r.pathFound <==> |r.path| > 0
    ensures r.pathFound ==> r.path[0] == m.start && r.path[|r.path| - 1] == m.end && IsWalk(m, r.path)
    ensures r.nodesExplored <= |ReachableCells(m)|
    ensures m.start == m.end ==> r.path == [m.start] && r.nodesExplored == 1
    ensures !r.isOptimal && r.heuristicUsed == None && r.pathLength == |r.path|
    ensures r.algorithmName == "DFS (Stack)" && r.timeComplexity == "O(V + E)" && r.spaceComplexity == "O(V)"
  {
    SearchInit(m);
    r := DfsRun(m, StartTracking(), {m.start}, [m.start], map[], {}, map[m.start := 0]);
  }

  /**
   * The extra invariant of breadth-first order, with the queue's levels made
   * explicit: the first `split` queued cells sit at depth `level` and the
   * rest one deeper, expanded cells are no deeper than `level`, and a
   * neighbour of an expanded cell is at most one level deeper than it.
   */
  ghost predicate Layered(m: Maze, frontier: seq<Pos>, expanded: set<Pos>, depth: map<Pos, nat>,
                          level: nat, split: nat)
    requires WellFormed(m)
  {
    && (0 < |frontier| ==> 0 < split) && split <= |frontier|
    && (forall j :: 0 <= j < |frontier| ==>
          frontier[j] in depth && depth[frontier[j]] == if j < split then level else level + 1)
    && (forall x :: x in expanded ==> x in depth && depth[x] <= level)
    && (forall x, n :: x in expanded && Step(m, x, n) ==> n in depth && depth[n] <= depth[x] + 1)
  }

  /** The level and split after dequeuing the head: the head's level empties once its last cell leaves. */
  function NextLevel(level: nat, split: nat): nat
  {
    if split > 1 then level else level + 1
  }

  function NextSplit(split: nat, queue': seq<Pos>): nat
  {
    if split > 1 then split - 1 else |queue'|
  }

  /**
   * Dequeuing the head c and enqueuing its unvisited neighbours, one level
   * deeper, keeps the queue layered.
   */
  lemma LayeredStep(m: Maze, visited: set<Pos>, frontier: seq<Pos>, expanded: set<Pos>, depth: map<Pos, nat>,
                    level: nat, split: nat, i: nat, c: Pos, newCells: seq<Pos>,
                    queue': seq<Pos>, expanded': set<Pos>, depth': map<Pos, nat>)
    requires WellFormed(m) && Layered(m, frontier, expanded, depth, level, split)
    requires depth.Keys == visited && forall x :: x in visited ==> x in expanded || x in frontier
    requires i == 0 < |frontier| && c == frontier[i]
    requires forall n :: n in newCells <==> Step(m, c, n) && n !in visited
    requires queue' == frontier[..i] + frontier[i + 1..] + newCells && expanded' == expanded + {c}
    requires depth' == depth + ConstMap(newCells, depth[c] + 1)
    ensures Layered(m, queue', expanded', depth', NextLevel(level, split), NextSplit(split, queue'))
  {
    var level', split' := NextLevel(level, split), NextSplit(split, queue');
    assert frontier[..i] + frontier[i + 1..] == frontier[1..];
    assert depth[c] == level;
    assert ConstMap(newCells, depth[c] + 1) == ConstMap(newCells, level + 1);
    LayeredQueueStep(frontier, depth, level, split, newCells, queue', depth');
    LayeredClosedStep(m, visited, frontier, expanded, depth, level, split, c, newCells, expanded', depth');
  }

  /** The queue part of `LayeredStep`: after the head leaves, the levels still split the queue in two. */
  lemma LayeredQueueStep(frontier: seq<Pos>, depth: map<Pos, nat>, level: nat, split: nat,
                         newCells: seq<Pos>, queue': seq<Pos>, depth': map<Pos, nat>)
    requires 0 < split <= |frontier|
    requires forall j :: 0 <= j < |frontier| ==>
               frontier[j] in depth && depth[frontier[j]] == if j < split then level else level + 1
    requires forall n :: n in newCells ==> n !in depth
    requires queue' == frontier[1..] + newCells && depth' == depth + ConstMap(newCells, level + 1)
    ensures (0 < |queue'| ==> 0 < NextSplit(split, queue')) && NextSplit(split, queue') <= |queue'|
    ensures forall j :: 0 <= j < |queue'| ==>
              queue'[j] in depth'
              && depth'[queue'[j]] == if j < NextSplit(split, queue') then NextLevel(level, split) else NextLevel(level, split) + 1
  {
    var level', split' := NextLevel(level, split), NextSplit(split, queue');
    var rest := frontier[1..];
    forall j | 0 <= j < |queue'|
      ensures queue'[j] in depth' && depth'[queue'[j]] == if j < split' then level' else level' + 1
    {
      if j < |rest| {
        assert queue'[j] == frontier[j + 1];
      } else {
        assert queue'[j] in newCells;
      }
    }
  }

  /** The expanded part of `LayeredStep`: closing the head keeps every move at most one level down. */
  lemma LayeredClosedStep(m: Maze, visited: set<Pos>, frontier: seq<Pos>, expanded: set<Pos>, depth: map<Pos, nat>,
                          level: nat, split: nat, c: Pos, newCells: seq<Pos>,
                          expanded': set<Pos>, depth': map<Pos, nat>)
    requires WellFormed(m) && Layered(m, frontier, expanded, depth, level, split)
    requires depth.Keys == visited && forall x :: x in visited ==> x in expanded || x in frontier
    requires c in depth && depth[c] == level
    requires forall n :: n in newCells <==> Step(m, c, n) && n !in visited
    requires expanded' == expanded + {c} && depth' == depth + ConstMap(newCells, level + 1)
    ensures forall x :: x in expanded' ==> x in depth' && depth'[x] <= NextLevel(level, split)
    ensures forall x, n :: x in expanded' && Step(m, x, n) ==> n in depth' && depth'[n] <= depth'[x] + 1
  {
    forall x, n | x in expanded' && Step(m, x, n) ensures n in depth' && depth'[n] <= depth'[x] + 1 {
      if x == c && n in visited && n !in expanded {
        var j :| 0 <= j < |frontier| && frontier[j] == n;
      }
    }
  }

  /**
   * While the queue's head sits at `level`, every cell reachable in fewer
   * moves has already been expanded, at a depth no greater than that number
   * of moves.
   */
  lemma {:induction false} LayeredClosure(m: Maze, frontier: seq<Pos>, expanded: set<Pos>, depth: map<Pos, nat>,
                                          level: nat, split: nat, z: Pos, k: nat)
    requires WellFormed(m) && m.start in depth && depth[m.start] == 0
    requires FrontierCovers(depth.Keys, frontier, expanded) && expanded <= depth.Keys
    requires Layered(m, frontier, expanded, depth, level, split)
    requires ReachIn(m, m.start, z, k) && k < level
    ensures z in expanded && depth[z] <= k
    decreases k
  {
    if k == 0 {
      assert z == m.start;
    } else {
      var y :| Step(m, y, z) && ReachIn(m, m.start, y, k - 1);
      LayeredClosure(m, frontier, expanded, depth, level, split, y, k - 1);
    }
  }

  /** When the end reaches the head of the queue, its depth is its shortest distance from the start. */
  lemma LayeredHeadIsShortest(m: Maze, visited: set<Pos>, frontier: seq<Pos>, cameFrom: map<Pos, Pos>,
                              expanded: set<Pos>, depth: map<Pos, nat>, level: nat, split: nat)
    requires WellFormed(m) && SearchInv(m, visited, frontier, cameFrom, expanded, depth)
    requires Layered(m, frontier, expanded, depth, level, split)
    requires 0 < |frontier| && frontier[0] == m.end
    ensures ShortestDistance(m, m.start, m.end, depth[m.end])
  {
    forall k: nat | k < depth[m.end] ensures !ReachIn(m, m.start, m.end, k) {
      if ReachIn(m, m.start, m.end, k) {
        LayeredClosure(m, frontier, expanded, depth, level, split, m.end, k);
      }
    }
  }

  /**
   * The queue loop of `bfs`, one call per iteration.  Besides what DFS
   * guarantees, the path it returns is a shortest one: its number of moves
   * is the end's distance from the start.
   */
  method BfsRun(m: Maze, t: Tracker, visited: set<Pos>, queue: seq<Pos>, cameFrom: map<Pos, Pos>,
                ghost expanded: set<Pos>, ghost depth: map<Pos, nat>, ghost level: nat, ghost split: nat)
    returns (r: AlgorithmMetrics)
    requires WellFormed(m) && SearchInv(m, visited, queue, cameFrom, expanded, depth)
    requires Layered(m, queue, expanded, depth, level, split)
    requires t.nodesExplored == |expanded|
    requires m.start == m.end ==> queue == [m.start] && expanded == {} && cameFrom == map[]
    ensures r.pathFound <==> Reachable(m, m.start, m.end)
    ensures r.pathFound <==> |r.path| > 0
    ensures r.pathFound ==> r.path[0] == m.start && r.path[|r.path| - 1] == m.end && IsWalk(m, r.path)
    ensures r.pathFound ==> ShortestDistance(m, m.start, m.end, |r.path| - 1)
    ensures r.nodesExplored <= |ReachableCells(m)|
    ensures m.start == m.end ==> r.path == [m.start] && r.nodesExplored == 1
    ensures r.isOptimal && r.heuristicUsed == None && r.pathLength == |r.path|
    ensures r.algorithmName == "BFS (Queue)" && r.timeComplexity == "O(V + E)" && r.spaceComplexity == "O(V)"
    decreases |Universe(m) - visited| + |queue|
  {
    if |queue| == 0 {
      r := Conclude(m, t, "BFS (Queue)", true, false, visited, cameFrom, expanded, depth);
      return;
    }
    var t' := IncrementNodes(UpdateFrontierSize(t, |queue|));
    var current := queue[0];
    if current == m.end {
      LayeredHeadIsShortest(m, visited, queue, cameFrom, expanded, depth, level, split);
      FoundEnd(m, visited, queue, cameFrom, expanded, depth, 0, current);
      r := Conclude(m, t', "BFS (Queue)", true, true, visited, cameFrom, expanded + {current}, depth);
      return;
    }
    var visited', queue', cameFrom', expanded', depth' :=
      Expand(m, visited, queue, cameFrom, expanded, depth, 0, current, true, level, split);
    r := BfsRun(m, t', visited', queue', cameFrom', expanded', depth', NextLevel(level, split), NextSplit(split, queue'));
  }

  /** `bfs`: the queue starts with the start cell, which is marked visited. */
  method Bfs(m: Maze) returns (r: AlgorithmMetrics)
    requires WellFormed(m)
    ensures r.pathFound <==> Reachable(m, m.start, m.end)
    ensures r.pathFound <==> |r.path| > 0
    ensures r.pathFound ==> r.path[0] == m.start && r.path[|r.path| - 1] == m.end && IsWalk(m, r.path)
    ensures r.pathFound ==> ShortestDistance(m, m.start, m.end, |r.path| - 1)
    ensures r.nodesExplored <= |ReachableCells(m)|
    ensures m.start == m.end ==> r.path == [m.start] && r.nodesExplored == 1
    ensures r.isOptimal && r.heuristicUsed == None && r.pathLength == |r.path|
    ensures r.algorithmName == "BFS (Queue)" && r.timeComplexity == "O(V + E)" && r.spaceComplexity == "O(V)"
  {
    SearchInit(m);
    r := BfsRun(m, StartTracking(), {m.start}, [m.start], map[], {}, map[m.start := 0], 0, 1);
  }
}
