/**
 * The bidirectional breadth-first search of src/algorithms.py.  One queue
 * grows from the start and one from the end; the two sides take turns
 * dequeuing one cell each until a dequeued cell has already been seen by
 * the other side (the meeting point).  The path is the forward chain from
 * the start to the meeting point followed by the backward chain from the
 * meeting point's successor to the end.
 *
 * Both sides expand a cell through the same `get_neighbors`, so a backward
 * link `n -> current` records a move from `current` INTO `n`, and reading
 * it back walks from `n` to `current`.  Every such move lands on an open
 * cell except, possibly, the last one into the end: the end may have been
 * walled after it was placed.  The path is therefore a walk of the maze
 * graph whenever the end is open, and otherwise a chain of unit moves whose
 * last move enters the walled end.
 */
module Bidirectional {
  import opened Options
  import opened Grid
  import opened Reach
  import opened Parents
  import opened Metrics
  import Uninformed

  /** One side of the search: its FIFO queue and its visited map, in which the root maps to `None`. */
  datatype Side = Side(queue: seq<Pos>, links: map<Pos, Option<Pos>>)

  /**
   * The inner neighbour loop of either side: each neighbour not yet in the
   * visited map is linked to `current` and appended to the queue.  Because
   * the neighbour list has no repeats, the loop's effect is that of adding
   * all unvisited neighbours at once, in neighbour order.
   */
  function Link(current: Pos, nbrs: seq<Pos>, s: Side): (r: Side)
    requires Distinct(nbrs)
    ensures forall x :: x in s.links ==> x in r.links && r.links[x] == s.links[x]
    ensures forall n :: n in nbrs ==> n in r.links
    ensures var newCells := Uninformed.Unvisited(nbrs, s.links.Keys);
            r.queue == s.queue + newCells && r.links == s.links + ConstMap(newCells, Some(current))
  {
    if nbrs == [] then s
    else if nbrs[0] in s.links then
      assert Uninformed.Unvisited(nbrs, s.links.Keys) == Uninformed.Unvisited(nbrs[1..], s.links.Keys);
      Link(current, nbrs[1..], s)
    else
      var n := nbrs[0];
      var s1 := Side(s.queue + [n], s.links[n := Some(current)]);
      assert s1.links.Keys == s.links.Keys + {n};
      Uninformed.UnvisitedIgnores(nbrs[1..], s.links.Keys, n);
      var r := Link(current, nbrs[1..], s1);
      LinkFirst(current, n, Uninformed.Unvisited(nbrs[1..], s.links.Keys), s);
      r
  }

  /** Linking n and then the rest adds the same links and queue cells as linking n::rest at once. */
  lemma LinkFirst(current: Pos, n: Pos, rest: seq<Pos>, s: Side)
    ensures s.links[n := Some(current)] + ConstMap(rest, Some(current)) == s.links + ConstMap([n] + rest, Some(current))
    ensures s.queue + [n] + rest == s.queue + ([n] + rest)
  {
  }

  // ---------------------------------------------------------------------
  // The invariant of one side
  // ---------------------------------------------------------------------

  /**
   * The visited map is a link tree rooted at `root` (ghost `depth` gives each
   * cell's level), it stays inside the maze's universe, and the dequeued
   * cells (ghost `expanded`) are among the visited ones.
   */
  ghost predicate SideTree(m: Maze, root: Pos, links: map<Pos, Option<Pos>>, depth: map<Pos, nat>, expanded: set<Pos>)
    requires WellFormed(m)
  {
    && LinkTree(m, links, depth, root)
    && links.Keys <= Universe(m)
    && expanded <= links.Keys
  }

  /** Every visited cell is dequeued or waits, once, in the queue. */
  ghost predicate SideQueue(queue: seq<Pos>, links: map<Pos, Option<Pos>>, expanded: set<Pos>)
  {
    && (forall x {:trigger Pending(queue, expanded, x)} :: x in links ==> Pending(queue, expanded, x))
    && (forall i :: 0 <= i < |queue| ==> queue[i] in links && queue[i] !in expanded)
    && Distinct(queue)
  }

  /**
   * x has been dequeued or waits in the queue.  Inside `SideQueue` this fact
   * is only used where a proof names it: used freely, queue membership and
   * visited membership would feed each other without end.
   */
  ghost predicate Pending(queue: seq<Pos>, expanded: set<Pos>, x: Pos)
  {
    x in expanded || x in queue
  }

  /** Every neighbour of a dequeued cell has been visited. */
  ghost predicate SideClosed(m: Maze, links: map<Pos, Option<Pos>>, expanded: set<Pos>)
    requires WellFormed(m)
  {
    forall x, n :: x in expanded && Step(m, x, n) ==> n in links
  }

  ghost predicate SideInv(m: Maze, root: Pos, s: Side, depth: map<Pos, nat>, expanded: set<Pos>)
    requires WellFormed(m)
  {
    && SideTree(m, root, s.links, depth, expanded)
    && SideQueue(s.queue, s.links, expanded)
    && SideClosed(m, s.links, expanded)
  }

  /** A side starts with its root queued and visited. */
  lemma SideInit(m: Maze, root: Pos)
    requires WellFormed(m) && root in Universe(m)
    ensures SideInv(m, root, Side([root], map[root := None]), map[root := 0], {})
  {
  }

  /** The new cells hang off c one level deeper, one move away. */
  lemma SideTreeStep(m: Maze, root: Pos, links: map<Pos, Option<Pos>>, depth: map<Pos, nat>,
                     expanded: set<Pos>, c: Pos, newCells: seq<Pos>)
    requires WellFormed(m) && SideTree(m, root, links, depth, expanded) && c in links
    requires forall n :: n in newCells ==> Step(m, c, n) && n !in links
    ensures SideTree(m, root, links + ConstMap(newCells, Some(c)),
                     depth + ConstMap(newCells, depth[c] + 1), expanded + {c})
  {
    var links' := links + ConstMap(newCells, Some(c));
    var depth' := depth + ConstMap(newCells, depth[c] + 1);
    assert depth'.Keys == links'.Keys;
    forall x | x in links' && links'[x].Some?
      ensures links'[x].value in links' && depth'[x] == depth'[links'[x].value] + 1
      ensures Step(m, links'[x].value, x)
    {
      if x in newCells {
        assert links'[x] == Some(c) && depth'[x] == depth[c] + 1 && depth'[c] == depth[c];
      } else {
        assert links'[x] == links[x] && depth'[x] == depth[x];
        assert links[x].value in links && depth'[links[x].value] == depth[links[x].value];
      }
    }
    forall x | x in links' && links'[x] == None ensures x == root {
      assert x !in newCells && links'[x] == links[x];
    }
    forall n | n in newCells ensures n in Universe(m) {
      StepInUniverse(m, c, n);
    }
  }

  /** Dequeuing the head c and appending the new cells keeps the queue covering and duplicate-free. */
  lemma SideQueueStep(queue: seq<Pos>, links: map<Pos, Option<Pos>>, expanded: set<Pos>, c: Pos, newCells: seq<Pos>)
    requires SideQueue(queue, links, expanded) && expanded <= links.Keys
    requires |queue| > 0 && c == queue[0] && Distinct(newCells)
    requires forall n :: n in newCells ==> n !in links
    ensures SideQueue(queue[1..] + newCells, links + ConstMap(newCells, Some(c)), expanded + {c})
  {
    var q := queue[1..] + newCells;
    forall i | 0 <= i < |q| ensures q[i] in links + ConstMap(newCells, Some(c)) && q[i] !in expanded + {c} {
      if i < |queue| - 1 {
        assert q[i] == queue[i + 1];
      } else {
        assert q[i] in newCells;
      }
    }
    forall x | x in links + ConstMap(newCells, Some(c)) ensures Pending(q, expanded + {c}, x) {
      if x in links && x !in expanded && x != c {
        assert Pending(queue, expanded, x);
        var j :| 0 <= j < |queue| && queue[j] == x;
        assert q[j - 1] == x;
      }
    }
    forall i, j | 0 <= i < j < |q| ensures q[i] != q[j] {
      if j < |queue| - 1 {
        assert q[i] == queue[i + 1] && q[j] == queue[j + 1];
      } else if i < |queue| - 1 {
        assert q[i] == queue[i + 1] && q[i] in links && q[j] in newCells;
      } else {
        assert q[i] == newCells[i - (|queue| - 1)] && q[j] == newCells[j - (|queue| - 1)];
      }
    }
  }

  /** After c's neighbours are linked, every neighbour of a dequeued cell is visited. */
  lemma SideClosedStep(m: Maze, links: map<Pos, Option<Pos>>, expanded: set<Pos>, c: Pos, newCells: seq<Pos>)
    requires WellFormed(m) && SideClosed(m, links, expanded)
    requires forall n :: Step(m, c, n) ==> n in links || n in newCells
    ensures SideClosed(m, links + ConstMap(newCells, Some(c)), expanded + {c})
  {
  }

  /**
   * One expansion of a side: the head c of the queue is dequeued and its
   * unvisited neighbours are linked to it and queued.  The side's
   * invariant survives and one more cell counts as dequeued.
   */
  lemma AdvanceKeeps(m: Maze, root: Pos, s: Side, depth: map<Pos, nat>, expanded: set<Pos>, c: Pos,
                     nbrs: seq<Pos>, newCells: seq<Pos>, s': Side, depth': map<Pos, nat>, expanded': set<Pos>)
    requires WellFormed(m) && SideInv(m, root, s, depth, expanded)
    requires |s.queue| > 0 && c == s.queue[0]
    requires NeighborList(m, c, nbrs) && Distinct(nbrs)
    requires newCells == Uninformed.Unvisited(nbrs, s.links.Keys)
    requires s' == Side(s.queue[1..] + newCells, s.links + ConstMap(newCells, Some(c)))
    requires depth' == depth + ConstMap(newCells, depth[c] + 1) && expanded' == expanded + {c}
    ensures SideInv(m, root, s', depth', expanded')
    ensures c !in expanded && |Universe(m) - expanded'| < |Universe(m) - expanded|
  {
    assert c in s.links && c !in expanded;
    assert forall n :: n in newCells <==> Step(m, c, n) && n !in s.links;
    SideTreeStep(m, root, s.links, depth, expanded, c, newCells);
    SideQueueStep(s.queue, s.links, expanded, c, newCells);
    SideClosedStep(m, s.links, expanded, c, newCells);
    GrowCard(Universe(m), expanded, {c});
  }

  /** Dequeue the head of one side's queue and expand it. */
  method Advance(m: Maze, root: Pos, s: Side, ghost depth: map<Pos, nat>, ghost expanded: set<Pos>, c: Pos)
    returns (s': Side, ghost depth': map<Pos, nat>, ghost expanded': set<Pos>)
    requires WellFormed(m) && SideInv(m, root, s, depth, expanded)
    requires |s.queue| > 0 && c == s.queue[0]
    ensures forall x :: x in s.links ==> x in s'.links && s'.links[x] == s.links[x]
    ensures forall n :: Step(m, c, n) ==> n in s'.links
    ensures SideInv(m, root, s', depth', expanded')
    ensures expanded' == expanded + {c} && c !in expanded
    ensures |Universe(m) - expanded'| < |Universe(m) - expanded|
  {
    var nbrs := NeighborsOf(m, c);
    var newCells := Uninformed.Unvisited(nbrs, s.links.Keys);
    s' := Link(c, nbrs, Side(s.queue[1..], s.links));
    depth' := depth + ConstMap(newCells, depth[c] + 1);
    expanded' := expanded + {c};
    AdvanceKeeps(m, root, s, depth, expanded, c, nbrs, newCells, s', depth', expanded');
  }

  /** The dequeued cells of a side are reachable from its root. */
  lemma ExpandedReached(m: Maze, root: Pos, links: map<Pos, Option<Pos>>, depth: map<Pos, nat>, expanded: set<Pos>)
    requires WellFormed(m) && SideTree(m, root, links, depth, expanded)
    ensures forall x :: x in expanded ==> Reachable(m, root, x)
  {
    forall x | x in expanded ensures Reachable(m, root, x) {
      LinkReach(m, links, depth, root, x);
    }
  }

  /** The cells the forward side dequeued are reachable cells of the maze. */
  lemma ForwardReached(m: Maze, links: map<Pos, Option<Pos>>, depth: map<Pos, nat>, expanded: set<Pos>)
    requires WellFormed(m) && SideTree(m, m.start, links, depth, expanded)
    ensures expanded <= ReachableCells(m)
  {
    forall x | x in expanded ensures x in ReachableCells(m) {
      LinkReach(m, links, depth, m.start, x);
      InReachableCells(m, x, depth[x]);
    }
  }

  // ---------------------------------------------------------------------
  // Reading the path back
  // ---------------------------------------------------------------------

  /** The reversed forward chain runs from the start to the meeting point, the i-th cell at depth i. */
  lemma ForwardPart(m: Maze, links: map<Pos, Option<Pos>>, depth: map<Pos, nat>, meet: Pos,
                    chain: seq<Pos>, fpath: seq<Pos>)
    requires WellFormed(m) && LinkTree(m, links, depth, m.start)
    requires |chain| > 0 && chain[0] == meet && meet in links && chain[|chain| - 1] in links && links[chain[|chain| - 1]] == None
    requires Linked(links, chain)
    requires fpath == Reverse(chain)
    ensures |fpath| == depth[meet] + 1 && fpath[0] == m.start && fpath[|fpath| - 1] == meet
    ensures forall i :: 0 <= i < |fpath| ==> fpath[i] in links && depth[fpath[i]] == i
    ensures forall i, j :: 0 <= i < j < |fpath| && j == i + 1 ==> LinkOf(links, fpath[j], fpath[i])
    ensures forall i, j :: 0 <= i < j < |fpath| && j == i + 1 ==> Step(m, fpath[i], fpath[j])
  {
    LinkChain(m, links, depth, m.start, chain);
    ReversedChain(m, links, chain, fpath);
  }

  /** Reversing a chain of links turns each link into one from a cell to the cell before it. */
  lemma ReversedChain(m: Maze, links: map<Pos, Option<Pos>>, chain: seq<Pos>, fpath: seq<Pos>)
    requires WellFormed(m) && |chain| > 0 && fpath == Reverse(chain)
    requires Linked(links, chain)
    requires forall i, j :: 0 <= i < j < |chain| && j == i + 1 ==> Step(m, chain[j], chain[i])
    ensures forall i, j :: 0 <= i < j < |fpath| && j == i + 1 ==> LinkOf(links, fpath[j], fpath[i])
    ensures forall i, j :: 0 <= i < j < |fpath| && j == i + 1 ==> Step(m, fpath[i], fpath[j])
  {
    var k := |chain| - 1;
    forall i | 0 <= i < |fpath| - 1 ensures LinkOf(links, fpath[i + 1], fpath[i]) && Step(m, fpath[i], fpath[i + 1]) {
      var c := k - i - 1;
      assert fpath[i] == chain[k - i] && k - i == c + 1;
      assert fpath[i + 1] == chain[k - (i + 1)] && k - (i + 1) == c;
      assert LinkOf(links, chain[c], chain[c + 1]) && Step(m, chain[c + 1], chain[c]);
    }
  }

  /**
   * The backward chain starts at the meeting point's successor and ends at
   * the end; it is empty exactly when the meeting point is the end itself.
   */
  lemma BackwardPart(m: Maze, links: map<Pos, Option<Pos>>, depth: map<Pos, nat>, meet: Pos, bpath: seq<Pos>)
    requires WellFormed(m) && LinkTree(m, links, depth, m.end) && meet in links
    requires links[meet] == None ==> bpath == []
    requires links[meet].Some? ==> |bpath| > 0 && bpath[0] == links[meet].value
    requires |bpath| > 0 ==> bpath[|bpath| - 1] in links && links[bpath[|bpath| - 1]] == None
    requires Linked(links, bpath)
    ensures |bpath| == depth[meet]
    ensures bpath == [] ==> meet == m.end
    ensures bpath != [] ==> links[meet] == Some(bpath[0]) && bpath[|bpath| - 1] == m.end
    ensures forall i :: 0 <= i < |bpath| ==> bpath[i] in links && depth[bpath[i]] == |bpath| - 1 - i
  {
    if bpath != [] {
      LinkChain(m, links, depth, m.end, bpath);
    }
  }

  /** A visited cell of the backward side is open, unless it is the (possibly walled) end. */
  lemma BackwardOpen(m: Maze, links: map<Pos, Option<Pos>>, depth: map<Pos, nat>, x: Pos)
    requires WellFormed(m) && LinkTree(m, links, depth, m.end) && x in links && x != m.end
    ensures Open(m, x)
  {
    assert links[x].Some?;
  }

  /** The joined path starts at the start, ends at the end, and the meeting point sits at its forward depth. */
  lemma JoinEnds(m: Maze, fl: map<Pos, Option<Pos>>, fd: map<Pos, nat>, bl: map<Pos, Option<Pos>>,
                 bd: map<Pos, nat>, meet: Pos, fpath: seq<Pos>, bpath: seq<Pos>, path: seq<Pos>)
    requires WellFormed(m) && meet in fd && meet in bd
    requires |fpath| == fd[meet] + 1 && fpath[0] == m.start && fpath[|fpath| - 1] == meet
    requires |bpath| == bd[meet] && (bpath == [] ==> meet == m.end)
    requires bpath != [] ==> bpath[|bpath| - 1] == m.end
    requires path == fpath + bpath
    ensures |path| == fd[meet] + 1 + bd[meet] && path[fd[meet]] == meet
    ensures path[0] == m.start && path[|path| - 1] == m.end
  {
  }

  /** Forward links and moves up to the meeting point, backward links after it. */
  lemma JoinLinks(m: Maze, fl: map<Pos, Option<Pos>>, bl: map<Pos, Option<Pos>>, meet: Pos,
                  fpath: seq<Pos>, bpath: seq<Pos>, path: seq<Pos>)
    requires WellFormed(m)
    requires |fpath| > 0 && fpath[|fpath| - 1] == meet && meet in bl
    requires forall i, j :: 0 <= i < j < |fpath| && j == i + 1 ==> LinkOf(fl, fpath[j], fpath[i])
    requires forall i, j :: 0 <= i < j < |fpath| && j == i + 1 ==> Step(m, fpath[i], fpath[j])
    requires bpath != [] ==> LinkOf(bl, meet, bpath[0])
    requires Linked(bl, bpath)
    requires path == fpath + bpath
    ensures forall i, j :: 0 <= i < j < |fpath| && j == i + 1 ==> LinkOf(fl, path[j], path[i])
    ensures forall i, j :: |fpath| - 1 <= i < j < |path| && j == i + 1 ==> LinkOf(bl, path[i], path[j])
    ensures forall i, j :: 0 <= i < j < |fpath| && j == i + 1 ==> Step(m, path[i], path[j])
  {
    var k := |fpath| - 1;
    forall i | 0 <= i < |fpath| - 1 ensures LinkOf(fl, path[i + 1], path[i]) && Step(m, path[i], path[i + 1]) {
      assert path[i + 1] == fpath[i + 1] && path[i] == fpath[i];
    }
    forall i | k <= i < |path| - 1 ensures LinkOf(bl, path[i], path[i + 1]) {
      if i > k {
        assert path[i] == bpath[i - k - 1] && path[i + 1] == bpath[i - k];
      }
    }
  }

  /** The meeting point occurs once: forward cells lie above it, backward cells below it in their trees. */
  lemma JoinOnce(fd: map<Pos, nat>, bd: map<Pos, nat>, meet: Pos, fpath: seq<Pos>, bpath: seq<Pos>, path: seq<Pos>)
    requires meet in fd && meet in bd && |fpath| == fd[meet] + 1 && |bpath| == bd[meet]
    requires forall i :: 0 <= i < |fpath| ==> fpath[i] in fd && fd[fpath[i]] == i
    requires forall i :: 0 <= i < |bpath| ==> bpath[i] in bd && bd[bpath[i]] == |bpath| - 1 - i
    requires path == fpath + bpath
    ensures forall i :: 0 <= i < |path| && path[i] == meet ==> i == fd[meet]
  {
    forall i | 0 <= i < |fpath| - 1 ensures path[i] != meet {
      assert path[i] == fpath[i] && fd[fpath[i]] == i;
    }
    forall i | |fpath| <= i < |path| ensures path[i] != meet {
      var j := i - |fpath|;
      assert path[i] == bpath[j] && bd[bpath[j]] < bd[meet];
    }
  }

  /** A move along a backward link, read forwards: one unit apart, into an open cell unless it is the end. */
  lemma BackwardMove(m: Maze, bl: map<Pos, Option<Pos>>, bd: map<Pos, nat>, x: Pos, y: Pos)
    requires WellFormed(m) && LinkTree(m, bl, bd, m.end) && x in bl && bl[x] == Some(y)
    ensures UnitStep(x, y) && (y != m.end ==> Open(m, y))
  {
    assert Step(m, y, x) && y in bl;
    if y != m.end {
      assert bl[y].Some?;
    }
  }

  /**
   * Consecutive cells are one move apart; and if the end is open, every
   * move enters an open cell, so the path is a walk.
   */
  lemma JoinSteps(m: Maze, bl: map<Pos, Option<Pos>>, bd: map<Pos, nat>, k: nat, path: seq<Pos>)
    requires WellFormed(m) && LinkTree(m, bl, bd, m.end)
    requires k < |path|
    requires forall i, j :: 0 <= i < j <= k && j == i + 1 ==> Step(m, path[i], path[j])
    requires forall i, j :: k <= i < j < |path| && j == i + 1 ==> LinkOf(bl, path[i], path[j])
    ensures UnitChain(path)
    ensures Open(m, m.end) ==> IsWalk(m, path)
  {
    forall i | 0 <= i < |path| - 1 ensures UnitStep(path[i], path[i + 1]) {
      if i < k {
        assert Step(m, path[i], path[i + 1]);
      } else {
        BackwardMove(m, bl, bd, path[i], path[i + 1]);
      }
    }
    if Open(m, m.end) {
      forall i | 0 <= i < |path| - 1 ensures Step(m, path[i], path[i + 1]) {
        if k <= i {
          BackwardMove(m, bl, bd, path[i], path[i + 1]);
        }
      }
    }
  }

  /**
   * `forward_path + backward_path`: the forward chain from the meeting point
   * back to the start, reversed, then the backward chain from the meeting
   * point's successor to the end.
   */
  method BuildPath(m: Maze, fl: map<Pos, Option<Pos>>, ghost fd: map<Pos, nat>,
                   bl: map<Pos, Option<Pos>>, ghost bd: map<Pos, nat>, meet: Pos)
    returns (path: seq<Pos>)
    requires WellFormed(m) && LinkTree(m, fl, fd, m.start) && LinkTree(m, bl, bd, m.end)
    requires meet in fl && meet in bl
    ensures |path| == fd[meet] + 1 + bd[meet] && path[fd[meet]] == meet
    ensures path[0] == m.start && path[|path| - 1] == m.end
    ensures forall i, j :: 0 <= i < j <= fd[meet] && j == i + 1 ==> LinkOf(fl, path[j], path[i])
    ensures forall i, j :: fd[meet] <= i < j < |path| && j == i + 1 ==> LinkOf(bl, path[i], path[j])
    ensures forall i :: 0 <= i < |path| && path[i] == meet ==> i == fd[meet]
    ensures UnitChain(path)
    ensures Open(m, m.end) ==> IsWalk(m, path)
  {
    LinkTreeRanked(m, fl, fd, m.start);
    var fchain := TraceToRoot(fl, meet, fd);
    var fpath := Reverse(fchain);
    ForwardPart(m, fl, fd, meet, fchain, fpath);
    var bpath: seq<Pos> := [];
    if bl[meet].Some? {
      LinkTreeRanked(m, bl, bd, m.end);
      bpath := TraceToRoot(bl, bl[meet].value, bd);
    }
    BackwardPart(m, bl, bd, meet, bpath);
    path := fpath + bpath;
    JoinEnds(m, fl, fd, bl, bd, meet, fpath, bpath, path);
    JoinLinks(m, fl, bl, meet, fpath, bpath, path);
    JoinOnce(fd, bd, meet, fpath, bpath, path);
    JoinSteps(m, bl, bd, fd[meet], path);
  }

  /**
   * A path from start to end that is a walk whenever the end is open is
   * never shorter than a shortest route: if the end is a wall, no route of
   * one move or more reaches it at all.
   */
  lemma ShortestBound(m: Maze, path: seq<Pos>)
    requires WellFormed(m) && |path| > 0 && path[0] == m.start && path[|path| - 1] == m.end
    requires Open(m, m.end) ==> IsWalk(m, path)
    ensures forall d: nat :: ShortestDistance(m, m.start, m.end, d) ==> d <= |path| - 1
  {
    forall d: nat | ShortestDistance(m, m.start, m.end, d) ensures d <= |path| - 1 {
      if d > 0 {
        assert Open(m, m.end);
        WalkReaches(m, path);
      }
    }
  }

  // ---------------------------------------------------------------------
  // The alternating loop
  // ---------------------------------------------------------------------

  /**
   * What the turn order guarantees across the two sides (ghost `fe` and `be`
   * are the cells each side has dequeued): the forward side never dequeues
   * the end (the backward root) without stopping; before the first forward
   * turn nothing is dequeued; the start is the first forward cell; and the
   * backward side never dequeues the start or one of its neighbours, which
   * the forward side has seen from its first turn on.  If start and end
   * coincide the very first turn stops the search.
   */
  ghost predicate Turns(m: Maze, f: Side, fe: set<Pos>, be: set<Pos>)
    requires WellFormed(m)
  {
    && m.end !in fe
    && (fe == {} ==> f.queue == [m.start] && be == {})
    && (fe != {} ==> m.start in fe)
    && (forall x :: x in be ==> x != m.start && !Step(m, m.start, x))
    && (m.start == m.end ==> fe == {})
  }

  ghost predicate BiInv(m: Maze, f: Side, fd: map<Pos, nat>, fe: set<Pos>, b: Side, bd: map<Pos, nat>, be: set<Pos>)
    requires WellFormed(m)
  {
    && SideInv(m, m.start, f, fd, fe)
    && SideInv(m, m.end, b, bd, be)
    && Turns(m, f, fe, be)
  }

  /** A side whose queue ran dry has dequeued every visited cell, its root among them, and is closed under moves. */
  lemma Drained(m: Maze, root: Pos, s: Side, depth: map<Pos, nat>, expanded: set<Pos>)
    requires WellFormed(m) && SideInv(m, root, s, depth, expanded) && s.queue == []
    ensures root in expanded
    ensures forall x, n :: x in expanded && Step(m, x, n) ==> n in expanded
  {
    assert root in s.links && Pending(s.queue, expanded, root);
    forall x, n | x in expanded && Step(m, x, n) ensures n in expanded {
      assert Pending(s.queue, expanded, n);
    }
  }

  /**
   * The forward queue ran dry: the forward side has dequeued every cell
   * reachable from the start, but never the end, so the end is unreachable.
   */
  lemma ForwardExhausted(m: Maze, fe: set<Pos>)
    requires WellFormed(m) && m.start in fe && m.end !in fe
    requires forall x, n :: x in fe && Step(m, x, n) ==> n in fe
    ensures !Reachable(m, m.start, m.end)
  {
    if Reachable(m, m.start, m.end) {
      var k: nat :| ReachIn(m, m.start, m.end, k);
      ClosedSetHoldsReachable(m, m.start, fe, m.end, k);
    }
  }

  /**
   * The backward queue ran dry: the backward side has dequeued every cell
   * reachable from the end, and with it the second cell of any route from
   * the start to the end, which it never does.
   */
  lemma BackwardExhausted(m: Maze, be: set<Pos>)
    requires WellFormed(m) && m.end in be && m.start != m.end
    requires forall x, n :: x in be && Step(m, x, n) ==> n in be
    requires forall x :: x in be ==> !Step(m, m.start, x)
    ensures !Reachable(m, m.start, m.end)
  {
    if Reachable(m, m.start, m.end) {
      var k: nat :| ReachIn(m, m.start, m.end, k);
      ReachBack(m, m.start, m.end, k);
      var y :| Step(m, m.start, y) && ReachIn(m, m.end, y, k - 1);
      ClosedSetHoldsReachable(m, m.end, be, y, k - 1);
    }
  }

  /** A queue ran dry before the sides met: then start and end differ and the end is not reachable. */
  lemma Exhausted(m: Maze, f: Side, fd: map<Pos, nat>, fe: set<Pos>, b: Side, bd: map<Pos, nat>, be: set<Pos>)
    requires WellFormed(m) && BiInv(m, f, fd, fe, b, bd, be)
    requires |f.queue| == 0 || |b.queue| == 0
    ensures !Reachable(m, m.start, m.end) && m.start != m.end
  {
    if |f.queue| == 0 {
      Drained(m, m.start, f, fd, fe);
      ForwardExhausted(m, fe);
    } else {
      Drained(m, m.end, b, bd, be);
      BackwardExhausted(m, be);
    }
  }

  /** The forward turn met the backward side at c: c was queued, not yet dequeued, forward. */
  lemma ForwardMeets(m: Maze, f: Side, fd: map<Pos, nat>, fe: set<Pos>, b: Side, bd: map<Pos, nat>, be: set<Pos>, c: Pos)
    requires WellFormed(m) && BiInv(m, f, fd, fe, b, bd, be)
    requires |f.queue| > 0 && c == f.queue[0] && c in b.links
    ensures c in f.links && c !in fe && |fe + {c}| == |fe| + 1
    ensures SideTree(m, m.start, f.links, fd, fe + {c}) && SideTree(m, m.end, b.links, bd, be)
    ensures m.start == m.end ==> c == m.start
  {
    assert f.queue[0] in f.links && f.queue[0] !in fe;
  }

  /** The forward turn expanded c: the turn order still holds, and start and end differ. */
  lemma ForwardKeeps(m: Maze, f: Side, fd: map<Pos, nat>, fe: set<Pos>, b: Side, bd: map<Pos, nat>, be: set<Pos>,
                     c: Pos, f': Side, fd': map<Pos, nat>, fe': set<Pos>)
    requires WellFormed(m) && BiInv(m, f, fd, fe, b, bd, be)
    requires |f.queue| > 0 && c == f.queue[0] && c !in b.links
    requires SideInv(m, m.start, f', fd', fe') && fe' == fe + {c} && c !in fe
    ensures BiInv(m, f', fd', fe', b, bd, be) && fe' != {} && m.start != m.end && |fe'| == |fe| + 1
  {
    assert m.end in b.links;
  }

  /** The backward turn met the forward side at c: c was queued, not yet dequeued, backward. */
  lemma BackwardMeets(m: Maze, f: Side, fd: map<Pos, nat>, fe: set<Pos>, b: Side, bd: map<Pos, nat>, be: set<Pos>, c: Pos)
    requires WellFormed(m) && BiInv(m, f, fd, fe, b, bd, be)
    requires |b.queue| > 0 && c == b.queue[0] && c in f.links
    ensures c in b.links && c !in be && |be + {c}| == |be| + 1
    ensures SideTree(m, m.start, f.links, fd, fe) && SideTree(m, m.end, b.links, bd, be + {c})
  {
    assert b.queue[0] in b.links && b.queue[0] !in be;
  }

  /**
   * The backward turn expanded c, which the forward side had not seen: c is
   * neither the start nor one of its neighbours (those were seen on the
   * first forward turn), so the turn order still holds.
   */
  lemma BackwardKeeps(m: Maze, f: Side, fd: map<Pos, nat>, fe: set<Pos>, b: Side, bd: map<Pos, nat>, be: set<Pos>,
                      c: Pos, b': Side, bd': map<Pos, nat>, be': set<Pos>)
    requires WellFormed(m) && BiInv(m, f, fd, fe, b, bd, be) && fe != {}
    requires |b.queue| > 0 && c == b.queue[0] && c !in f.links
    requires SideInv(m, m.end, b', bd', be') && be' == be + {c} && c !in be
    ensures BiInv(m, f, fd, fe, b', bd', be') && |be'| == |be| + 1
  {
    assert m.start in fe && m.start in f.links;
  }

  /**
   * The path through a meeting point, stated on its own: it runs from start
   * to end in unit moves, is a walk whenever the end is open, is never
   * shorter than a shortest route, and is the single cell when start and
   * end coincide.
   */
  method Join(m: Maze, fl: map<Pos, Option<Pos>>, ghost fd: map<Pos, nat>,
              bl: map<Pos, Option<Pos>>, ghost bd: map<Pos, nat>, meet: Pos)
    returns (path: seq<Pos>)
    requires WellFormed(m) && LinkTree(m, fl, fd, m.start) && LinkTree(m, bl, bd, m.end)
    requires meet in fl && meet in bl
    ensures |path| > 0 && path[0] == m.start && path[|path| - 1] == m.end && UnitChain(path)
    ensures Open(m, m.end) ==> IsWalk(m, path)
    ensures forall d: nat :: ShortestDistance(m, m.start, m.end, d) ==> d <= |path| - 1
    ensures meet == m.start && meet == m.end ==> path == [meet]
  {
    path := BuildPath(m, fl, fd, bl, bd, meet);
    ShortestBound(m, path);
  }

  /**
   * The reconstruction after the loop: with a meeting point the path is read
   * back through both visited maps, otherwise it is empty.  The path runs
   * from start to end in unit moves, is a walk whenever the end is open, is
   * never shorter than a shortest route, and is found whenever the end is
   * reachable.
   */
  method ReadBack(m: Maze, fl: map<Pos, Option<Pos>>, ghost fd: map<Pos, nat>,
                  bl: map<Pos, Option<Pos>>, ghost bd: map<Pos, nat>, meet: Option<Pos>)
    returns (path: seq<Pos>)
    requires WellFormed(m) && LinkTree(m, fl, fd, m.start) && LinkTree(m, bl, bd, m.end)
    requires meet.Some? ==> meet.value in fl && meet.value in bl
    requires meet.None? ==> !Reachable(m, m.start, m.end)
    requires m.start == m.end ==> meet == Some(m.start)
    ensures |path| > 0 <==> meet.Some?
    ensures Reachable(m, m.start, m.end) ==> |path| > 0
    ensures |path| > 0 ==> path[0] == m.start && path[|path| - 1] == m.end && UnitChain(path)
    ensures |path| > 0 && Open(m, m.end) ==> IsWalk(m, path)
    ensures forall d: nat :: |path| > 0 && ShortestDistance(m, m.start, m.end, d) ==> d <= |path| - 1
    ensures m.start == m.end ==> path == [m.start]
  {
    path := [];
    if meet.Some? {
      path := Join(m, fl, fd, bl, bd, meet.value);
    }
  }

  /** The result record: the path read back, and the number of cells the two sides dequeued. */
  method Finish(m: Maze, t: Tracker, f: Side, ghost fd: map<Pos, nat>, ghost fDone: set<Pos>,
                b: Side, ghost bd: map<Pos, nat>, ghost bDone: set<Pos>, meet: Option<Pos>)
    returns (r: AlgorithmMetrics)
    requires WellFormed(m)
    requires SideTree(m, m.start, f.links, fd, fDone) && SideTree(m, m.end, b.links, bd, bDone)
    requires meet.Some? ==> meet.value in f.links && meet.value in b.links
    requires meet.None? ==> !Reachable(m, m.start, m.end)
    requires m.start == m.end ==> meet == Some(m.start)
    requires t.nodesExplored == |fDone| + |bDone|
    ensures r.pathFound <==> |r.path| > 0
    ensures Reachable(m, m.start, m.end) ==> r.pathFound
    ensures r.pathFound ==> r.path[0] == m.start && r.path[|r.path| - 1] == m.end
    ensures r.pathFound ==> UnitChain(r.path)
    ensures r.pathFound && Open(m, m.end) ==> IsWalk(m, r.path)
    ensures r.pathFound ==> forall d: nat :: ShortestDistance(m, m.start, m.end, d) ==> d <= |r.path| - 1
    ensures r.nodesExplored == |fDone| + |bDone|
    ensures fDone <= ReachableCells(m) && forall x :: x in bDone ==> Reachable(m, m.end, x)
    ensures m.start == m.end ==> r.path == [m.start]
    ensures r.algorithmName == "Bidirectional BFS" && r.isOptimal && r.heuristicUsed == None
    ensures r.timeComplexity == "O(b^(d/2))" && r.spaceComplexity == "O(b^(d/2))"
    ensures r.pathLength == |r.path|
  {
    var path := ReadBack(m, f.links, fd, b.links, bd, meet);
    ForwardReached(m, f.links, fd, fDone);
    ExpandedReached(m, m.end, b.links, bd, bDone);
    r := CreateMetrics(t, "Bidirectional BFS", path, "O(b^(d/2))", "O(b^(d/2))", true, None);
  }

  /**
   * The `while forward_queue and backward_queue` loop, one call per round:
   * stop without a meeting point if either queue is empty, otherwise record
   * the combined queue length and take the forward turn.  When the loop
   * stops, a meeting point has been seen by both sides, and without one the
   * end is unreachable; the node count is the number of dequeued cells.
   */
  method BiRun(m: Maze, t: Tracker, f: Side, ghost fd: map<Pos, nat>, ghost fe: set<Pos>,
               b: Side, ghost bd: map<Pos, nat>, ghost be: set<Pos>)
    returns (t': Tracker, f': Side, b': Side, meet: Option<Pos>,
             ghost fd': map<Pos, nat>, ghost fe': set<Pos>, ghost bd': map<Pos, nat>, ghost be': set<Pos>)
    requires WellFormed(m) && BiInv(m, f, fd, fe, b, bd, be)
    requires t.nodesExplored == |fe| + |be|
    ensures SideTree(m, m.start, f'.links, fd', fe') && SideTree(m, m.end, b'.links, bd', be')
    ensures meet.Some? ==> meet.value in f'.links && meet.value in b'.links
    ensures meet.None? ==> !Reachable(m, m.start, m.end)
    ensures m.start == m.end ==> meet == Some(m.start) && t'.nodesExplored == 1
    ensures t'.nodesExplored == |fe'| + |be'|
    decreases |Universe(m) - fe| + |Universe(m) - be|, 2
  {
    if |f.queue| == 0 || |b.queue| == 0 {
      Exhausted(m, f, fd, fe, b, bd, be);
      return t, f, b, None, fd, fe, bd, be;
    }
    var t1 := UpdateFrontierSize(t, |f.queue| + |b.queue|);
    t', f', b', meet, fd', fe', bd', be' := ForwardTurn(m, t1, f, fd, fe, b, bd, be);
  }

  /**
   * The forward turn: dequeue the head of the forward queue and count it;
   * stop if the backward side has seen it, otherwise expand it and take the
   * backward turn.
   */
  method ForwardTurn(m: Maze, t: Tracker, f: Side, ghost fd: map<Pos, nat>, ghost fe: set<Pos>,
                     b: Side, ghost bd: map<Pos, nat>, ghost be: set<Pos>)
    returns (t': Tracker, f': Side, b': Side, meet: Option<Pos>,
             ghost fd': map<Pos, nat>, ghost fe': set<Pos>, ghost bd': map<Pos, nat>, ghost be': set<Pos>)
    requires WellFormed(m) && BiInv(m, f, fd, fe, b, bd, be)
    requires |f.queue| > 0 && |b.queue| > 0
    requires t.nodesExplored == |fe| + |be|
    ensures SideTree(m, m.start, f'.links, fd', fe') && SideTree(m, m.end, b'.links, bd', be')
    ensures meet.Some? ==> meet.value in f'.links && meet.value in b'.links
    ensures meet.None? ==> !Reachable(m, m.start, m.end)
    ensures m.start == m.end ==> meet == Some(m.start) && t'.nodesExplored == 1
    ensures t'.nodesExplored == |fe'| + |be'|
    decreases |Universe(m) - fe| + |Universe(m) - be|, 1
  {
    var c := f.queue[0];
    var t1 := IncrementNodes(t);
    if c in b.links {
      ForwardMeets(m, f, fd, fe, b, bd, be, c);
      return t1, f, b, Some(c), fd, fe + {c}, bd, be;
    }
    var f1, fd1, fe1 := Advance(m, m.start, f, fd, fe, c);
    ForwardKeeps(m, f, fd, fe, b, bd, be, c, f1, fd1, fe1);
    t', f', b', meet, fd', fe', bd', be' := BackwardTurn(m, t1, f1, fd1, fe1, b, bd, be);
  }

  /**
   * The backward turn: dequeue the head of the backward queue and count it;
   * stop if the forward side has seen it, otherwise expand it and start the
   * next round.
   */
  method BackwardTurn(m: Maze, t: Tracker, f: Side, ghost fd: map<Pos, nat>, ghost fe: set<Pos>,
                      b: Side, ghost bd: map<Pos, nat>, ghost be: set<Pos>)
    returns (t': Tracker, f': Side, b': Side, meet: Option<Pos>,
             ghost fd': map<Pos, nat>, ghost fe': set<Pos>, ghost bd': map<Pos, nat>, ghost be': set<Pos>)
    requires WellFormed(m) && BiInv(m, f, fd, fe, b, bd, be)
    requires |b.queue| > 0 && fe != {} && m.start != m.end
    requires t.nodesExplored == |fe| + |be|
    ensures SideTree(m, m.start, f'.links, fd', fe') && SideTree(m, m.end, b'.links, bd', be')
    ensures meet.Some? ==> meet.value in f'.links && meet.value in b'.links
    ensures meet.None? ==> !Reachable(m, m.start, m.end)
    ensures t'.nodesExplored == |fe'| + |be'|
    decreases |Universe(m) - fe| + |Universe(m) - be|, 0
  {
    var c := b.queue[0];
    var t1 := IncrementNodes(t);
    if c in f.links {
      BackwardMeets(m, f, fd, fe, b, bd, be, c);
      return t1, f, b, Some(c), fd, fe, bd, be + {c};
    }
    var b1, bd1, be1 := Advance(m, m.end, b, bd, be, c);
    BackwardKeeps(m, f, fd, fe, b, bd, be, c, b1, bd1, be1);
    t', f', b', meet, fd', fe', bd', be' := BiRun(m, t1, f, fd, fe, b1, bd1, be1);
  }

  /**
   * `bidirectional_search`: each queue starts with its root, which its
   * visited map links to `None`; after the loop the path is reconstructed
   * from the meeting point, if there is one (a meeting point is a
   * coordinate pair, so the source's truth test on it only asks whether one
   * was found).  The path runs from the start to the end in unit moves; it
   * is found whenever the end is reachable; if the end is open it is a walk
   * of the maze graph, so the search then reports a path exactly when the
   * end is reachable; and it is never shorter than a shortest route.  The
   * node count is the number of cells dequeued by the two sides together,
   * each side dequeuing a cell at most once.
   */
  method BidirectionalSearch(m: Maze) returns (r: AlgorithmMetrics, ghost fDone: set<Pos>, ghost bDone: set<Pos>)
    requires WellFormed(m)
    ensures r.pathFound <==> |r.path| > 0
    ensures Reachable(m, m.start, m.end) ==> r.pathFound
    ensures r.pathFound ==> r.path[0] == m.start && r.path[|r.path| - 1] == m.end
    ensures r.pathFound ==> UnitChain(r.path)
    ensures r.pathFound && Open(m, m.end) ==> IsWalk(m, r.path) && Reachable(m, m.start, m.end)
    ensures r.pathFound ==> forall d: nat :: ShortestDistance(m, m.start, m.end, d) ==> d <= |r.path| - 1
    ensures r.nodesExplored == |fDone| + |bDone|
    ensures fDone <= ReachableCells(m) && forall x :: x in bDone ==> Reachable(m, m.end, x)
    ensures m.start == m.end ==> r.path == [m.start] && r.nodesExplored == 1
    ensures r.algorithmName == "Bidirectional BFS" && r.isOptimal && r.heuristicUsed == None
    ensures r.timeComplexity == "O(b^(d/2))" && r.spaceComplexity == "O(b^(d/2))"
    ensures r.pathLength == |r.path|
  {
    SideInit(m, m.start);
    SideInit(m, m.end);
    var f0 := Side([m.start], map[m.start := None]);
    var b0 := Side([m.end], map[m.end := None]);
    var t, f, b, meet, fd, fe, bd, be := BiRun(m, StartTracking(), f0, map[m.start := 0], {}, b0, map[m.end := 0], {});
    r := Finish(m, t, f, fd, fe, b, bd, be, meet);
    fDone, bDone := fe, be;
    if r.pathFound && Open(m, m.end) {
      WalkReaches(m, r.path);
    }
  }
}
