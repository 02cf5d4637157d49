/**
 * `greedy_best_first` of src/algorithms.py: a heap ordered by the heuristic
 * alone.  Cells are marked visited when popped, not when pushed, so a cell
 * may be queued several times; every neighbour not yet visited is pushed,
 * and its parent is the first expanded cell that saw it (`came_from` is
 * written only once per cell).  The heap's `(h, node)` tuples are the
 * entries `(h, 0, node)` (see `PQueue.GreedyOrder`).  The search finds a
 * path exactly when the end is reachable, but not necessarily a shortest one.
 */
module Greedy {
  import opened Options
  import opened Grid
  import opened Reach
  import opened Parents
  import opened Metrics
  import opened Heuristics
  import opened PQueue

  /** The entry greedy search pushes for a cell. */
  function GreedyEntry(h: Pos -> nat, n: Pos): (e: Entry)
    ensures e.node == n && e.f == h(n) && e.g == 0
  {
    Entry(h(n), 0, n)
  }

  /** A neighbour that is neither visited nor already given a parent gets c as its parent. */
  predicate Unclaimed(closed: set<Pos>, cameFrom: map<Pos, Pos>, n: Pos)
  {
    n !in closed && n !in cameFrom
  }

  /**
   * What the neighbour loop of the expansion of c does, with `closed` already
   * holding c: every unvisited neighbour is pushed, every unclaimed one gets
   * parent c (and, in the ghost depth map, depth dc), and nothing else
   * changes.
   */
  ghost predicate Discovered(c: Pos, dc: nat, nbrs: seq<Pos>, h: Pos -> nat, closed: set<Pos>,
                             pq: multiset<Entry>, cameFrom: map<Pos, Pos>, depth: map<Pos, nat>,
                             pq': multiset<Entry>, cameFrom': map<Pos, Pos>, depth': map<Pos, nat>)
  {
    && DiscoveredEntries(nbrs, h, closed, pq, pq')
    && DiscoveredParents(c, nbrs, closed, cameFrom, cameFrom')
    && DiscoveredDepths(dc, nbrs, closed, cameFrom, depth, depth')
  }

  ghost predicate DiscoveredEntries(nbrs: seq<Pos>, h: Pos -> nat, closed: set<Pos>,
                                    pq: multiset<Entry>, pq': multiset<Entry>)
  {
    && EntriesKept(pq, pq')
    && (forall n {:trigger GreedyEntry(h, n)} :: n in nbrs && n !in closed ==> GreedyEntry(h, n) in pq')
    && (forall e {:trigger pq'[e]} :: e in pq' ==>
          e in pq || (e.node in nbrs && e.node !in closed && e == GreedyEntry(h, e.node)))
  }

  ghost predicate DiscoveredParents(c: Pos, nbrs: seq<Pos>, closed: set<Pos>,
                                    cameFrom: map<Pos, Pos>, cameFrom': map<Pos, Pos>)
  {
    && (forall x :: x in cameFrom' <==> x in cameFrom || (x in nbrs && Unclaimed(closed, cameFrom, x)))
    && (forall x :: x in cameFrom' ==> cameFrom'[x] == if x in cameFrom then cameFrom[x] else c)
  }

  ghost predicate DiscoveredDepths(dc: nat, nbrs: seq<Pos>, closed: set<Pos>, cameFrom: map<Pos, Pos>,
                                   depth: map<Pos, nat>, depth': map<Pos, nat>)
  {
    && (forall x :: x in depth' <==> x in depth || (x in nbrs && Unclaimed(closed, cameFrom, x)))
    && (forall x :: x in depth' ==>
          depth'[x] == if x in nbrs && Unclaimed(closed, cameFrom, x) then dc else depth[x])
  }

  /**
   * The neighbour loop of `greedy_best_first`: for each neighbour in order,
   * if it is not visited push `(h, neighbour)`, and if it has no parent yet
   * make c its parent.  The list has no repeats, so the loop's effect is the
   * same as treating all neighbours at once.
   */
  method Discover(c: Pos, ghost dc: nat, nbrs: seq<Pos>, h: Pos -> nat, closed: set<Pos>,
                  pq: multiset<Entry>, cameFrom: map<Pos, Pos>, ghost depth: map<Pos, nat>)
    returns (pq': multiset<Entry>, cameFrom': map<Pos, Pos>, ghost depth': map<Pos, nat>)
    requires Distinct(nbrs)
    ensures DiscoveredEntries(nbrs, h, closed, pq, pq')
    ensures DiscoveredParents(c, nbrs, closed, cameFrom, cameFrom')
    ensures DiscoveredDepths(dc, nbrs, closed, cameFrom, depth, depth')
    decreases |nbrs|
  {
    if nbrs == [] {
      pq', cameFrom', depth' := pq, cameFrom, depth;
    } else {
      var n := nbrs[0];
      var pq1, cameFrom1, depth1 := pq, cameFrom, depth;
      if n !in closed {
        pq1 := Push(pq, GreedyEntry(h, n));
        if n !in cameFrom {
          cameFrom1 := cameFrom[n := c];
          depth1 := depth[n := dc];
        }
      }
      DistinctTail(nbrs);
      pq', cameFrom', depth' := Discover(c, dc, nbrs[1..], h, closed, pq1, cameFrom1, depth1);
      DiscoverEntriesStep(nbrs, h, closed, pq, pq1, pq');
      DiscoverParentsStep(c, nbrs, closed, cameFrom, cameFrom1, cameFrom');
      DiscoverDepthsStep(c, dc, nbrs, closed, cameFrom, cameFrom1, depth, depth1, depth');
    }
  }

  /** The three step lemmas: treating the head neighbour, then the rest, treats them all. */
  lemma DiscoverEntriesStep(nbrs: seq<Pos>, h: Pos -> nat, closed: set<Pos>,
                            pq: multiset<Entry>, pq1: multiset<Entry>, pq': multiset<Entry>)
    requires |nbrs| > 0
    requires pq1 == if nbrs[0] !in closed then Push(pq, GreedyEntry(h, nbrs[0])) else pq
    requires DiscoveredEntries(nbrs[1..], h, closed, pq1, pq')
    ensures DiscoveredEntries(nbrs, h, closed, pq, pq')
  {
    assert forall x :: x in nbrs <==> x == nbrs[0] || x in nbrs[1..];
    forall n | n in nbrs && n !in closed ensures GreedyEntry(h, n) in pq' {
      if n == nbrs[0] {
        assert GreedyEntry(h, n) in pq1;
      }
    }
  }

  lemma DiscoverParentsStep(c: Pos, nbrs: seq<Pos>, closed: set<Pos>,
                            cameFrom: map<Pos, Pos>, cameFrom1: map<Pos, Pos>, cameFrom': map<Pos, Pos>)
    requires |nbrs| > 0 && nbrs[0] !in nbrs[1..]
    requires cameFrom1 == if Unclaimed(closed, cameFrom, nbrs[0]) then cameFrom[nbrs[0] := c] else cameFrom
    requires DiscoveredParents(c, nbrs[1..], closed, cameFrom1, cameFrom')
    ensures DiscoveredParents(c, nbrs, closed, cameFrom, cameFrom')
  {
    assert forall x :: x in nbrs <==> x == nbrs[0] || x in nbrs[1..];
  }

  lemma DiscoverDepthsStep(c: Pos, dc: nat, nbrs: seq<Pos>, closed: set<Pos>, cameFrom: map<Pos, Pos>,
                           cameFrom1: map<Pos, Pos>, depth: map<Pos, nat>, depth1: map<Pos, nat>,
                           depth': map<Pos, nat>)
    requires |nbrs| > 0 && nbrs[0] !in nbrs[1..]
    requires cameFrom1 == if Unclaimed(closed, cameFrom, nbrs[0]) then cameFrom[nbrs[0] := c] else cameFrom
    requires depth1 == if Unclaimed(closed, cameFrom, nbrs[0]) then depth[nbrs[0] := dc] else depth
    requires DiscoveredDepths(dc, nbrs[1..], closed, cameFrom1, depth1, depth')
    ensures DiscoveredDepths(dc, nbrs, closed, cameFrom, depth, depth')
  {
    assert forall x :: x in nbrs <==> x == nbrs[0] || x in nbrs[1..];
    forall x | x in nbrs[1..] ensures Unclaimed(closed, cameFrom1, x) == Unclaimed(closed, cameFrom, x) {
    }
  }

  // ----- The search invariant -----

  /** The parent map is a tree of discovered cells whose parents are all expanded. */
  ghost predicate GreedyTree(m: Maze, closed: set<Pos>, cameFrom: map<Pos, Pos>, depth: map<Pos, nat>)
    requires WellFormed(m)
  {
    Tree(m, cameFrom, depth, m.start) && ParentsClosed(cameFrom, closed) && closed <= depth.Keys
  }

  /**
   * Every queued entry is the greedy entry of a discovered cell, and every
   * neighbour of an expanded cell is expanded or queued.
   */
  ghost predicate GreedyQueue(m: Maze, h: Pos -> nat, closed: set<Pos>, pq: multiset<Entry>, depth: map<Pos, nat>)
    requires WellFormed(m)
  {
    && (forall e {:trigger pq[e]} :: e in pq ==> e == GreedyEntry(h, e.node) && e.node in depth)
    && (forall x, n {:trigger Step(m, x, n)} :: x in closed && Step(m, x, n) ==> n in closed || GreedyEntry(h, n) in pq)
  }

  /** Before the first pop only the start is queued; after it the start is expanded; the end never is. */
  ghost predicate GreedyStarted(m: Maze, h: Pos -> nat, closed: set<Pos>, pq: multiset<Entry>)
  {
    && m.end !in closed
    && (closed == {} ==> pq == multiset{GreedyEntry(h, m.start)})
    && (closed != {} ==> m.start in closed)
  }

  /** The loop invariant of `greedy_best_first`. */
  ghost predicate GreedyInv(m: Maze, h: Pos -> nat, closed: set<Pos>, pq: multiset<Entry>,
                            cameFrom: map<Pos, Pos>, depth: map<Pos, nat>)
    requires WellFormed(m)
  {
    GreedyTree(m, closed, cameFrom, depth) && GreedyQueue(m, h, closed, pq, depth) && GreedyStarted(m, h, closed, pq)
  }

  /** The state before the loop. */
  lemma GreedyInit(m: Maze, h: Pos -> nat)
    requires WellFormed(m)
    ensures GreedyInv(m, h, {}, multiset{GreedyEntry(h, m.start)}, map[], map[m.start := 0])
  {
  }

  /** Dropping an entry of an expanded cell keeps the invariant. */
  lemma GreedySkip(m: Maze, h: Pos -> nat, closed: set<Pos>, pq: multiset<Entry>,
                   cameFrom: map<Pos, Pos>, depth: map<Pos, nat>, e: Entry, rest: multiset<Entry>)
    requires WellFormed(m) && GreedyInv(m, h, closed, pq, cameFrom, depth)
    requires e in pq && rest == pq - multiset{e} && e.node in closed
    ensures GreedyInv(m, h, closed, rest, cameFrom, depth)
  {
    forall x, n | x in closed && Step(m, x, n) ensures n in closed || GreedyEntry(h, n) in rest {
      if n !in closed {
        assert GreedyEntry(h, n) in pq && GreedyEntry(h, n) != e;
      }
    }
  }

  // ----- Expanding -----

  /** The tree part survives expanding c: new parents are c, and nothing already recorded moves. */
  lemma ExpandTree(m: Maze, closed: set<Pos>, cameFrom: map<Pos, Pos>, depth: map<Pos, nat>, c: Pos,
                   nbrs: seq<Pos>, cameFrom': map<Pos, Pos>, depth': map<Pos, nat>)
    requires WellFormed(m) && GreedyTree(m, closed, cameFrom, depth) && c in depth && m.start in closed + {c}
    requires NeighborList(m, c, nbrs)
    requires DiscoveredParents(c, nbrs, closed + {c}, cameFrom, cameFrom')
    requires DiscoveredDepths(depth[c] + 1, nbrs, closed + {c}, cameFrom, depth, depth')
    ensures GreedyTree(m, closed + {c}, cameFrom', depth')
  {
    forall x | x in depth' ensures Parented(cameFrom', m.start, x) {
      if x in depth {
        assert Parented(cameFrom, m.start, x);
      }
    }
    forall x | x in cameFrom'
      ensures x in depth' && cameFrom'[x] in depth' && depth'[x] == depth'[cameFrom'[x]] + 1
      ensures Step(m, cameFrom'[x], x)
    {
      if x in cameFrom {
        assert cameFrom[x] in closed;
      }
    }
  }

  /** The queue part survives expanding c: c's unvisited neighbours are now queued. */
  lemma ExpandQueue(m: Maze, h: Pos -> nat, closed: set<Pos>, pq: multiset<Entry>, cameFrom: map<Pos, Pos>,
                    depth: map<Pos, nat>, e: Entry, rest: multiset<Entry>, nbrs: seq<Pos>,
                    pq': multiset<Entry>, depth': map<Pos, nat>)
    requires WellFormed(m) && GreedyQueue(m, h, closed, pq, depth) && Tree(m, cameFrom, depth, m.start)
    requires e in pq && rest == pq - multiset{e} && NeighborList(m, e.node, nbrs)
    requires DiscoveredEntries(nbrs, h, closed + {e.node}, rest, pq')
    requires forall x :: x in depth' <==> x in depth || (x in nbrs && Unclaimed(closed + {e.node}, cameFrom, x))
    ensures GreedyQueue(m, h, closed + {e.node}, pq', depth')
  {
    forall x | x in pq' ensures x == GreedyEntry(h, x.node) && x.node in depth' {
      if x in rest {
        assert x in pq;
      } else if x.node in cameFrom {
        assert Parented(cameFrom, m.start, x.node);
      }
    }
    forall x, n | x in closed + {e.node} && Step(m, x, n) ensures n in closed + {e.node} || GreedyEntry(h, n) in pq' {
      if x in closed && n !in closed + {e.node} {
        assert GreedyEntry(h, n) in pq && GreedyEntry(h, n) != e;
        assert GreedyEntry(h, n) in rest;
      }
    }
  }

  /** Expanding the popped entry e through its neighbours keeps the invariant. */
  lemma GreedyExpandKeeps(m: Maze, h: Pos -> nat, closed: set<Pos>, pq: multiset<Entry>,
                          cameFrom: map<Pos, Pos>, depth: map<Pos, nat>, e: Entry, rest: multiset<Entry>,
                          nbrs: seq<Pos>, pq': multiset<Entry>, cameFrom': map<Pos, Pos>, depth': map<Pos, nat>)
    requires WellFormed(m) && GreedyInv(m, h, closed, pq, cameFrom, depth)
    requires Least(e, pq) && rest == pq - multiset{e} && e.node !in closed && e.node != m.end
    requires e.node in depth && NeighborList(m, e.node, nbrs)
    requires Discovered(e.node, depth[e.node] + 1, nbrs, h, closed + {e.node}, rest, cameFrom, depth,
                        pq', cameFrom', depth')
    ensures GreedyInv(m, h, closed + {e.node}, pq', cameFrom', depth')
  {
    if closed == {} {
      assert e == GreedyEntry(h, m.start);
    }
    ExpandTree(m, closed, cameFrom, depth, e.node, nbrs, cameFrom', depth');
    ExpandQueue(m, h, closed, pq, cameFrom, depth, e, rest, nbrs, pq', depth');
  }

  /**
   * The body of one `greedy_best_first` iteration once the popped cell c is
   * new and not the end: c is marked visited and its neighbours discovered.
   */
  method GreedyExpand(m: Maze, h: Pos -> nat, closed: set<Pos>, pq: multiset<Entry>,
                      cameFrom: map<Pos, Pos>, ghost depth: map<Pos, nat>, e: Entry, rest: multiset<Entry>)
    returns (pq': multiset<Entry>, cameFrom': map<Pos, Pos>, ghost depth': map<Pos, nat>)
    requires WellFormed(m) && GreedyInv(m, h, closed, pq, cameFrom, depth)
    requires Least(e, pq) && rest == pq - multiset{e} && e.node !in closed && e.node != m.end
    ensures forall x :: x in cameFrom ==> x in cameFrom' && cameFrom'[x] == cameFrom[x]
    ensures EntriesKept(rest, pq')
    ensures GreedyInv(m, h, closed + {e.node}, pq', cameFrom', depth')
  {
    var c := e.node;
    assert c in depth;
    var nbrs := NeighborsOf(m, c);
    pq', cameFrom', depth' := Discover(c, depth[c] + 1, nbrs, h, closed + {c}, rest, cameFrom, depth);
    GreedyExpandKeeps(m, h, closed, pq, cameFrom, depth, e, rest, nbrs, pq', cameFrom', depth');
  }

  // ----- Stopping -----

  /** When the heap runs dry the expanded cells contain every neighbour of each other, so the end is unreachable. */
  lemma GreedyExhausted(m: Maze, h: Pos -> nat, closed: set<Pos>, pq: multiset<Entry>,
                        cameFrom: map<Pos, Pos>, depth: map<Pos, nat>)
    requires WellFormed(m) && GreedyInv(m, h, closed, pq, cameFrom, depth) && |pq| == 0
    ensures !Reachable(m, m.start, m.end)
  {
    assert m.start in closed;
    forall k: nat | ReachIn(m, m.start, m.end, k) ensures false {
      ClosedSetHoldsReachable(m, m.start, closed, m.end, k);
    }
  }

  /** Discovered cells are reachable, so there are no more expanded cells than reachable ones. */
  lemma DiscoveredBound(m: Maze, cameFrom: map<Pos, Pos>, depth: map<Pos, nat>, expanded: set<Pos>)
    requires WellFormed(m) && Tree(m, cameFrom, depth, m.start) && expanded <= depth.Keys
    ensures |expanded| <= |ReachableCells(m)|
  {
    forall x | x in expanded ensures x in ReachableCells(m) {
      TreeReach(m, cameFrom, depth, m.start, x);
      InReachableCells(m, x, depth[x]);
    }
    SubsetCard(expanded, ReachableCells(m));
  }

  /**
   * The report once the loop stops: either the end was popped (`found`) and
   * the path is read back through `came_from`, or the heap ran dry and the
   * path is empty.  A path found is a walk, so it is no shorter than the
   * shortest distance, though it may be longer.
   */
  method GreedyReport(m: Maze, t: Tracker, name: string, found: bool, cameFrom: map<Pos, Pos>,
                      ghost depth: map<Pos, nat>, ghost expanded: set<Pos>)
    returns (r: AlgorithmMetrics)
    requires WellFormed(m) && Tree(m, cameFrom, depth, m.start) && expanded <= depth.Keys
    requires found ==> m.end in depth
    requires !found ==> !Reachable(m, m.start, m.end)
    ensures r.pathFound <==> Reachable(m, m.start, m.end)
    ensures r.pathFound <==> |r.path| > 0
    ensures r.pathFound ==> r.path[0] == m.start && r.path[|r.path| - 1] == m.end && IsWalk(m, r.path)
    ensures r.pathFound ==> forall d: nat :: ShortestDistance(m, m.start, m.end, d) ==> d <= |r.path| - 1
    ensures found && m.start == m.end ==> r.path == [m.start]
    ensures r.nodesExplored == t.nodesExplored && |expanded| <= |ReachableCells(m)|
    ensures r.algorithmName == "Greedy Best-First (" + name + ")" && r.timeComplexity == "O(b^m)"
    ensures r.spaceComplexity == "O(V)" && !r.isOptimal && r.heuristicUsed == Some(name)
    ensures r.pathLength == |r.path|
  {
    var path := [];
    if found {
      TreeRanked(m, cameFrom, depth, m.start);
      path := ReconstructPath(cameFrom, m.end, depth);
      TreePath(m, cameFrom, depth, m.start, path);
      TreeReach(m, cameFrom, depth, m.start, m.end);
      forall d: nat | ShortestDistance(m, m.start, m.end, d) ensures d <= |path| - 1 {
        assert ReachIn(m, m.start, m.end, depth[m.end]);
      }
    }
    DiscoveredBound(m, cameFrom, depth, expanded);
    r := CreateMetrics(t, "Greedy Best-First (" + name + ")", path, "O(b^m)", "O(V)", false, Some(name));
  }

  // ----- The loop -----

  /**
   * The heap loop of `greedy_best_first`, one call per iteration: record the
   * heap size and pop a least entry, or stop when the heap is empty.  The
   * loop ends with the final tracker, whether the end was popped, and the
   * parent map: a tree holding every expanded cell (ghost `closed'`), which
   * holds the end if it was popped; if it was not, the end is unreachable.
   */
  method GreedyRun(m: Maze, h: Pos -> nat, t: Tracker, closed: set<Pos>, pq: multiset<Entry>,
                   cameFrom: map<Pos, Pos>, ghost depth: map<Pos, nat>)
    returns (t': Tracker, found: bool, cameFrom': map<Pos, Pos>, ghost depth': map<Pos, nat>, ghost closed': set<Pos>)
    requires WellFormed(m) && GreedyInv(m, h, closed, pq, cameFrom, depth) && t.nodesExplored == |closed|
    ensures Tree(m, cameFrom', depth', m.start) && closed' <= depth'.Keys
    ensures found ==> m.end in depth'
    ensures !found ==> !Reachable(m, m.start, m.end)
    ensures t'.nodesExplored == |closed'|
    ensures m.start == m.end && closed == {} ==> found && t'.nodesExplored == 1
    decreases |Universe(m) - closed|, |pq|, 2
  {
    if |pq| == 0 {
      GreedyExhausted(m, h, closed, pq, cameFrom, depth);
      return t, false, cameFrom, depth, closed;
    } else {
      var t1 := UpdateFrontierSize(t, |pq|);
      var e, rest := PopMin(pq);
      t', found, cameFrom', depth', closed' := GreedyStep(m, h, t1, closed, pq, cameFrom, depth, e, rest);
    }
  }

  /** The popped entry e is skipped when its cell is already visited. */
  method GreedyStep(m: Maze, h: Pos -> nat, t: Tracker, closed: set<Pos>, pq: multiset<Entry>,
                    cameFrom: map<Pos, Pos>, ghost depth: map<Pos, nat>, e: Entry, rest: multiset<Entry>)
    returns (t': Tracker, found: bool, cameFrom': map<Pos, Pos>, ghost depth': map<Pos, nat>, ghost closed': set<Pos>)
    requires WellFormed(m) && GreedyInv(m, h, closed, pq, cameFrom, depth) && t.nodesExplored == |closed|
    requires Least(e, pq) && rest == pq - multiset{e}
    ensures Tree(m, cameFrom', depth', m.start) && closed' <= depth'.Keys
    ensures found ==> m.end in depth'
    ensures !found ==> !Reachable(m, m.start, m.end)
    ensures t'.nodesExplored == |closed'|
    ensures m.start == m.end && closed == {} ==> found && t'.nodesExplored == 1
    decreases |Universe(m) - closed|, |pq|, 1
  {
    if e.node in closed {
      GreedySkip(m, h, closed, pq, cameFrom, depth, e, rest);
      t', found, cameFrom', depth', closed' := GreedyRun(m, h, t, closed, rest, cameFrom, depth);
    } else {
      t', found, cameFrom', depth', closed' := GreedyVisit(m, h, t, closed, pq, cameFrom, depth, e, rest);
    }
  }

  /**
   * The popped cell is new: it is counted, and the search stops if it is the
   * end; otherwise it is expanded.
   */
  method GreedyVisit(m: Maze, h: Pos -> nat, t: Tracker, closed: set<Pos>, pq: multiset<Entry>,
                     cameFrom: map<Pos, Pos>, ghost depth: map<Pos, nat>, e: Entry, rest: multiset<Entry>)
    returns (t': Tracker, found: bool, cameFrom': map<Pos, Pos>, ghost depth': map<Pos, nat>, ghost closed': set<Pos>)
    requires WellFormed(m) && GreedyInv(m, h, closed, pq, cameFrom, depth) && t.nodesExplored == |closed|
    requires Least(e, pq) && rest == pq - multiset{e} && e.node !in closed
    ensures Tree(m, cameFrom', depth', m.start) && closed' <= depth'.Keys
    ensures found ==> m.end in depth'
    ensures !found ==> !Reachable(m, m.start, m.end)
    ensures t'.nodesExplored == |closed'|
    ensures m.start == m.end && closed == {} ==> found && t'.nodesExplored == 1
    decreases |Universe(m) - closed|, |pq|, 0
  {
    var c := e.node;
    var t1 := IncrementNodes(t);
    assert c in depth;
    if c == m.end {
      return t1, true, cameFrom, depth, closed + {c};
    } else {
      var pq', cameFrom1, depth1 := GreedyExpand(m, h, closed, pq, cameFrom, depth, e, rest);
      TreeReach(m, cameFrom, depth, m.start, c);
      ReachInUniverse(m, c, depth[c]);
      GrowCard(Universe(m), closed, {c});
      t', found, cameFrom', depth', closed' := GreedyRun(m, h, t1, closed + {c}, pq', cameFrom1, depth1);
    }
  }

  /**
   * `greedy_best_first(heuristic)`: an unknown name means Manhattan.  A path
   * is found exactly when the end is reachable; it is a walk from the start
   * to the end, not necessarily a shortest one.
   */
  method GreedyBestFirst(m: Maze, heuristic: string) returns (r: AlgorithmMetrics)
    requires WellFormed(m) && SelectHeuristic(heuristic) != Euclidean
    ensures r.pathFound <==> Reachable(m, m.start, m.end)
    ensures r.pathFound <==> |r.path| > 0
    ensures r.pathFound ==> r.path[0] == m.start && r.path[|r.path| - 1] == m.end && IsWalk(m, r.path)
    ensures r.pathFound ==> forall d: nat :: ShortestDistance(m, m.start, m.end, d) ==> d <= |r.path| - 1
    ensures r.nodesExplored <= |ReachableCells(m)|
    ensures m.start == m.end ==> r.path == [m.start] && r.nodesExplored == 1
    ensures r.algorithmName == "Greedy Best-First (" + Capitalize(heuristic) + ")" && r.timeComplexity == "O(b^m)"
    ensures r.spaceComplexity == "O(V)" && !r.isOptimal && r.heuristicUsed == Some(Capitalize(heuristic))
    ensures r.pathLength == |r.path|
  {
    var h := HeuristicFn(SelectHeuristic(heuristic), m.end);
    GreedyInit(m, h);
    var t, found, cameFrom, depth, closed := GreedyRun(m, h, StartTracking(), {}, multiset{GreedyEntry(h, m.start)},
                                                       map[], map[m.start := 0]);
    r := GreedyReport(m, t, Capitalize(heuristic), found, cameFrom, depth, closed);
  }
}
