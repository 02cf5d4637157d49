/**
 * The heap-based searches of src/algorithms.py that relax tentative costs:
 * `dijkstra` and `astar`.  Both pop a least entry, skip cells already
 * expanded (`visited`), stop when the end is popped and otherwise relax the
 * neighbours of the popped cell.  Dijkstra is A* with the zero heuristic:
 * its `(cost, node)` tuples are the entries `(cost, cost, node)` (see
 * `PQueue.DijkstraOrder`).  With a consistent heuristic every expanded cell
 * already carries its shortest distance, so the path read back through
 * `came_from` is a shortest one.
 */
module Informed {
  import opened Options
  import opened Grid
  import opened Reach
  import opened Parents
  import opened Metrics
  import opened Heuristics
  import opened PQueue

  /** The heap, the tentative costs (`cost_so_far` / `g_score`) and the parent map. */
  datatype Frontier = Frontier(pq: multiset<Entry>, g: map<Pos, nat>, cameFrom: map<Pos, Pos>)

  /** The relaxation test: no cost yet, or a strictly cheaper one. */
  predicate Improves(g: map<Pos, nat>, n: Pos, ng: nat)
  {
    n !in g || ng < g[n]
  }

  /**
   * What relaxing the neighbours `nbrs` of c at cost ng does: each improvable
   * neighbour gets cost ng, parent c and a pushed entry; every other cost,
   * parent and entry stays; nothing else is pushed.
   */
  ghost predicate Relaxed(c: Pos, ng: nat, nbrs: seq<Pos>, h: Pos -> nat, s: Frontier, r: Frontier)
  {
    RelaxedCosts(ng, nbrs, s, r) && RelaxedParents(c, ng, nbrs, s, r) && RelaxedEntries(ng, nbrs, h, s, r)
  }

  ghost predicate RelaxedCosts(ng: nat, nbrs: seq<Pos>, s: Frontier, r: Frontier)
  {
    && (forall x :: x in r.g <==> x in s.g || x in nbrs)
    && (forall x :: x in r.g ==> r.g[x] == if x in nbrs && Improves(s.g, x, ng) then ng else s.g[x])
  }

  ghost predicate RelaxedParents(c: Pos, ng: nat, nbrs: seq<Pos>, s: Frontier, r: Frontier)
  {
    && (forall x :: x in r.cameFrom <==> x in s.cameFrom || (x in nbrs && Improves(s.g, x, ng)))
    && (forall x :: x in r.cameFrom ==>
          r.cameFrom[x] == if x in nbrs && Improves(s.g, x, ng) then c else s.cameFrom[x])
  }

  ghost predicate RelaxedEntries(ng: nat, nbrs: seq<Pos>, h: Pos -> nat, s: Frontier, r: Frontier)
  {
    EntriesKept(s.pq, r.pq) && EntriesPushed(ng, nbrs, h, s.g, r.pq) && EntriesOnlyPushed(ng, nbrs, h, s, r.pq)
  }

  ghost predicate EntriesPushed(ng: nat, nbrs: seq<Pos>, h: Pos -> nat, g: map<Pos, nat>, pq': multiset<Entry>)
  {
    forall x {:trigger Improves(g, x, ng)} :: x in nbrs && Improves(g, x, ng) ==> Entry(ng + h(x), ng, x) in pq'
  }

  ghost predicate EntriesOnlyPushed(ng: nat, nbrs: seq<Pos>, h: Pos -> nat, s: Frontier, pq': multiset<Entry>)
  {
    forall e {:trigger pq'[e]} :: e in pq' ==>
      e in s.pq || (e.node in nbrs && Improves(s.g, e.node, ng) && e == Entry(ng + h(e.node), ng, e.node))
  }

  /** The state after treating the single neighbour n. */
  function RelaxOne(c: Pos, ng: nat, n: Pos, h: Pos -> nat, s: Frontier): Frontier
  {
    if Improves(s.g, n, ng)
    then Frontier(Push(s.pq, Entry(ng + h(n), ng, n)), s.g[n := ng], s.cameFrom[n := c])
    else s
  }

  /**
   * The neighbour loop of `dijkstra` and `astar`: for each neighbour, in
   * order, compute the new cost through c and, when it improves, record the
   * cost, push the entry `(new cost + h, new cost, neighbour)` and set the
   * parent to c.  The neighbour list has no repeats, so the loop's effect is
   * the same as treating all neighbours at once.
   */
  method Relax(m: Maze, c: Pos, gc: nat, nbrs: seq<Pos>, h: Pos -> nat, s: Frontier) returns (r: Frontier)
    requires Distinct(nbrs)
    ensures Relaxed(c, gc + 1, nbrs, h, s, r)
    decreases |nbrs|
  {
    if nbrs == [] {
      r := s;
    } else {
      var ng := gc + GetEdgeWeight(m, c, nbrs[0]);
      var s' := RelaxOne(c, ng, nbrs[0], h, s);
      DistinctTail(nbrs);
      r := Relax(m, c, gc, nbrs[1..], h, s');
      RelaxStep(c, gc + 1, nbrs, h, s, s', r);
    }
  }

  lemma RelaxStep(c: Pos, ng: nat, nbrs: seq<Pos>, h: Pos -> nat, s: Frontier, s': Frontier, r: Frontier)
    requires |nbrs| > 0 && nbrs[0] !in nbrs[1..] && s' == RelaxOne(c, ng, nbrs[0], h, s)
    requires Relaxed(c, ng, nbrs[1..], h, s', r)
    ensures Relaxed(c, ng, nbrs, h, s, r)
  {
    RelaxCostsStep(c, ng, nbrs, h, s, s', r);
    RelaxParentsStep(c, ng, nbrs, h, s, s', r);
    RelaxEntriesStep(c, ng, nbrs, h, s, s', r);
  }

  /** The three step lemmas: treating the head neighbour, then the rest, treats them all. */
  lemma RelaxCostsStep(c: Pos, ng: nat, nbrs: seq<Pos>, h: Pos -> nat, s: Frontier, s': Frontier, r: Frontier)
    requires |nbrs| > 0 && nbrs[0] !in nbrs[1..] && s' == RelaxOne(c, ng, nbrs[0], h, s)
    requires RelaxedCosts(ng, nbrs[1..], s', r)
    ensures RelaxedCosts(ng, nbrs, s, r)
  {
    assert forall x :: x in nbrs <==> x == nbrs[0] || x in nbrs[1..];
  }

  lemma RelaxParentsStep(c: Pos, ng: nat, nbrs: seq<Pos>, h: Pos -> nat, s: Frontier, s': Frontier, r: Frontier)
    requires |nbrs| > 0 && nbrs[0] !in nbrs[1..] && s' == RelaxOne(c, ng, nbrs[0], h, s)
    requires RelaxedParents(c, ng, nbrs[1..], s', r)
    ensures RelaxedParents(c, ng, nbrs, s, r)
  {
    assert forall x :: x in nbrs <==> x == nbrs[0] || x in nbrs[1..];
  }

  lemma RelaxEntriesStep(c: Pos, ng: nat, nbrs: seq<Pos>, h: Pos -> nat, s: Frontier, s': Frontier, r: Frontier)
    requires |nbrs| > 0 && nbrs[0] !in nbrs[1..] && s' == RelaxOne(c, ng, nbrs[0], h, s)
    requires RelaxedEntries(ng, nbrs[1..], h, s', r)
    ensures RelaxedEntries(ng, nbrs, h, s, r)
  {
    assert forall x :: x in nbrs <==> x == nbrs[0] || x in nbrs[1..];
    forall x | x in nbrs && Improves(s.g, x, ng) ensures Entry(ng + h(x), ng, x) in r.pq {
      if x != nbrs[0] {
        assert Improves(s'.g, x, ng);
      }
    }
  }

  // ----- The search invariant -----


  /** Every expanded cell's cost is its shortest distance from the start. */
  ghost predicate ClosedOptimal(m: Maze, s: Frontier, closed: set<Pos>)
    requires WellFormed(m)
  {
    && closed <= s.g.Keys
    && forall x {:trigger ShortestDistance(m, m.start, x, s.g[x])} :: x in closed && x in s.g ==>
         ShortestDistance(m, m.start, x, s.g[x])
  }

  /** Every tentative cost is the length of some route from the start. */
  ghost predicate ScoresReached(m: Maze, s: Frontier)
    requires WellFormed(m)
  {
    && s.g.Keys <= Universe(m)
    && forall x {:trigger ReachIn(m, m.start, x, s.g[x])} :: x in s.g ==> ReachIn(m, m.start, x, s.g[x])
  }

  /** Each entry's node has a cost no greater than the entry's, and its f is g plus the heuristic. */
  ghost predicate EntriesSound(s: Frontier, h: Pos -> nat)
  {
    forall e {:trigger s.pq[e]} :: e in s.pq ==> e.node in s.g && s.g[e.node] <= e.g && e.f == e.g + h(e.node)
  }

  /** A cell with a cost that is not yet expanded has an entry carrying that cost. */
  ghost predicate OpenLive(s: Frontier, closed: set<Pos>, h: Pos -> nat)
  {
    forall x {:trigger s.g[x]} :: x in s.g && x !in closed ==> Entry(s.g[x] + h(x), s.g[x], x) in s.pq
  }

  /** The neighbours of an expanded cell have costs at most one more than it. */
  ghost predicate ClosedRelaxed(m: Maze, s: Frontier, closed: set<Pos>)
    requires WellFormed(m)
  {
    forall x, n :: x in closed && x in s.g && Step(m, x, n) ==> n in s.g && s.g[n] <= s.g[x] + 1
  }

  /** The invariant on costs and parents. */
  ghost predicate CostsInv(m: Maze, s: Frontier, closed: set<Pos>)
    requires WellFormed(m)
  {
    && Tree(m, s.cameFrom, s.g, m.start)
    && ParentsClosed(s.cameFrom, closed)
    && ClosedOptimal(m, s, closed)
    && ScoresReached(m, s)
    && ClosedRelaxed(m, s, closed)
  }

  /** The invariant on the heap's entries. */
  ghost predicate QueueInv(s: Frontier, closed: set<Pos>, h: Pos -> nat)
  {
    EntriesSound(s, h) && OpenLive(s, closed, h)
  }

  /** The loop invariant of `dijkstra` and `astar`; the end is never expanded, since popping it stops the loop. */
  ghost predicate HeapInv(m: Maze, h: Pos -> nat, s: Frontier, closed: set<Pos>)
    requires WellFormed(m)
  {
    CostsInv(m, s, closed) && QueueInv(s, closed, h) && m.end !in closed
  }

  /** The state before the loop: only the start, at cost 0, is queued. */
  lemma HeapInit(m: Maze, h: Pos -> nat)
    requires WellFormed(m)
    ensures HeapInv(m, h, Frontier(multiset{Entry(h(m.start), 0, m.start)}, map[m.start := 0], map[]), {})
  {
  }

  // ----- Popping -----

  /** A shortest distance is at most the length of any route. */
  lemma ShortestIsLeast(m: Maze, z: Pos, d: nat, k: nat)
    requires WellFormed(m) && ShortestDistance(m, m.start, z, d) && ReachIn(m, m.start, z, k)
    ensures d <= k
  {
  }

  /**
   * On every route of k moves to a cell z that is not expanded there is a
   * cell y with a cost, not expanded, whose cost plus heuristic is at most
   * k plus z's heuristic.
   */
  lemma {:induction false} OpenOnRoute(m: Maze, h: Pos -> nat, s: Frontier, closed: set<Pos>, z: Pos, k: nat)
    returns (y: Pos)
    requires WellFormed(m) && Consistent(m, h) && m.start in s.g && s.g[m.start] == 0
    requires ClosedOptimal(m, s, closed) && ClosedRelaxed(m, s, closed)
    requires ReachIn(m, m.start, z, k) && z !in closed
    ensures y in s.g && y !in closed && s.g[y] + h(y) <= k + h(z)
    decreases k
  {
    if k == 0 {
      assert z == m.start;
      y := m.start;
    } else {
      var p :| Step(m, p, z) && ReachIn(m, m.start, p, k - 1);
      if p in closed {
        ShortestIsLeast(m, p, s.g[p], k - 1);
        assert z in s.g && s.g[z] <= s.g[p] + 1;
        y := z;
      } else {
        y := OpenOnRoute(m, h, s, closed, p, k - 1);
        assert h(p) <= h(z) + 1;
      }
    }
  }

  /**
   * The least entry, when its cell is not yet expanded, carries the cell's
   * current cost: a staler, dearer entry would have a cheaper live one below it.
   */
  lemma PoppedIsCurrent(h: Pos -> nat, s: Frontier, closed: set<Pos>, e: Entry)
    requires EntriesSound(s, h) && OpenLive(s, closed, h)
    requires Least(e, s.pq) && e.node !in closed
    ensures e.node in s.g && e.g == s.g[e.node]
  {
    var live := Entry(s.g[e.node] + h(e.node), s.g[e.node], e.node);
    assert EntryLe(e, live);
  }

  /** No route to the least entry's cell is shorter than the entry's f less the cell's heuristic. */
  lemma LeastBound(m: Maze, h: Pos -> nat, s: Frontier, closed: set<Pos>, e: Entry, k: nat)
    requires WellFormed(m) && Consistent(m, h) && m.start in s.g && s.g[m.start] == 0
    requires ClosedOptimal(m, s, closed) && ClosedRelaxed(m, s, closed) && OpenLive(s, closed, h)
    requires Least(e, s.pq) && e.node !in closed && ReachIn(m, m.start, e.node, k)
    ensures e.f <= k + h(e.node)
  {
    var y := OpenOnRoute(m, h, s, closed, e.node, k);
    var live := Entry(s.g[y] + h(y), s.g[y], y);
    assert EntryLe(e, live);
  }

  /**
   * With a consistent heuristic, the cell of the least entry (when not yet
   * expanded) is at its shortest distance: a shorter route would pass an
   * open cell whose entry is smaller than the least one.
   */
  lemma PoppedIsShortest(m: Maze, h: Pos -> nat, s: Frontier, closed: set<Pos>, e: Entry)
    requires WellFormed(m) && Consistent(m, h) && HeapInv(m, h, s, closed)
    requires Least(e, s.pq) && e.node !in closed
    ensures e.node in s.g && e.g == s.g[e.node]
    ensures ShortestDistance(m, m.start, e.node, s.g[e.node])
  {
    PoppedIsCurrent(h, s, closed, e);
    forall k: nat | ReachIn(m, m.start, e.node, k) ensures s.g[e.node] <= k {
      LeastBound(m, h, s, closed, e, k);
    }
  }

  /** Dropping an entry of an expanded cell keeps the invariant. */
  lemma SkipKeeps(m: Maze, h: Pos -> nat, s: Frontier, closed: set<Pos>, e: Entry)
    requires WellFormed(m) && HeapInv(m, h, s, closed)
    requires e in s.pq && e.node in closed
    ensures HeapInv(m, h, s.(pq := s.pq - multiset{e}), closed)
  {
    SkipLive(s, closed, h, e);
  }

  lemma SkipLive(s: Frontier, closed: set<Pos>, h: Pos -> nat, e: Entry)
    requires OpenLive(s, closed, h) && e in s.pq && e.node in closed
    ensures OpenLive(s.(pq := s.pq - multiset{e}), closed, h)
  {
    forall x | x in s.g && x !in closed ensures Entry(s.g[x] + h(x), s.g[x], x) in s.pq - multiset{e} {
      assert Entry(s.g[x] + h(x), s.g[x], x) in s.pq;
    }
  }

  // ----- Expanding -----

  /**
   * One expansion of c: s0 is s with c's entry popped, and s' is s0 with the
   * costs and parents relaxed through c's neighbours at the cost ng, one
   * more than c's.
   */
  ghost predicate Expansion(m: Maze, h: Pos -> nat, s: Frontier, c: Pos, ng: nat, nbrs: seq<Pos>, s0: Frontier, s': Frontier)
    requires WellFormed(m)
  {
    && c in s.g && ng == s.g[c] + 1 && s0.g == s.g && s0.cameFrom == s.cameFrom && NeighborList(m, c, nbrs)
    && Relaxed(c, ng, nbrs, h, s0, s')
  }

  /** An expanded cell's cost is never improved again, since it is already shortest. */
  lemma NotImproved(m: Maze, g: map<Pos, nat>, c: Pos, x: Pos)
    requires WellFormed(m) && c in g && ShortestDistance(m, m.start, c, g[c])
    requires x in g && ShortestDistance(m, m.start, x, g[x]) && Step(m, c, x)
    ensures !Improves(g, x, g[c] + 1)
  {
    ReachStep(m, m.start, c, x, g[c]);
    ShortestIsLeast(m, x, g[x], g[c] + 1);
  }

  /** The cost of an expanded cell, or of c itself, survives the expansion. */
  lemma ClosedKept(m: Maze, s: Frontier, closed: set<Pos>, c: Pos, ng: nat, nbrs: seq<Pos>, s0: Frontier, s': Frontier, x: Pos)
    requires WellFormed(m) && ClosedOptimal(m, s, closed) && NeighborList(m, c, nbrs)
    requires c in s.g && ng == s.g[c] + 1 && ShortestDistance(m, m.start, c, s.g[c])
    requires s0.g == s.g && RelaxedCosts(ng, nbrs, s0, s')
    requires x in closed + {c}
    ensures x in s'.g && s'.g[x] == s.g[x]
  {
    if x in nbrs {
      assert ShortestDistance(m, m.start, x, s.g[x]);
      NotImproved(m, s.g, c, x);
    }
  }

  /** The costs of the cells in `keep` are the same in g and g'. */
  ghost predicate CostsKept(keep: set<Pos>, g: map<Pos, nat>, g': map<Pos, nat>)
  {
    forall x :: x in keep ==> x in g && x in g' && g'[x] == g[x]
  }

  lemma ExpandOptimal(m: Maze, s: Frontier, closed: set<Pos>, c: Pos, ng: nat, nbrs: seq<Pos>, s0: Frontier, s': Frontier)
    requires WellFormed(m) && ClosedOptimal(m, s, closed) && NeighborList(m, c, nbrs)
    requires c in s.g && ng == s.g[c] + 1 && ShortestDistance(m, m.start, c, s.g[c])
    requires s0.g == s.g && RelaxedCosts(ng, nbrs, s0, s')
    ensures CostsKept(closed + {c}, s.g, s'.g) && ClosedOptimal(m, s', closed + {c})
  {
    forall x | x in closed + {c} ensures x in s.g && x in s'.g && s'.g[x] == s.g[x] {
      ClosedKept(m, s, closed, c, ng, nbrs, s0, s', x);
    }
    forall x | x in closed + {c} && x in s'.g ensures ShortestDistance(m, m.start, x, s'.g[x]) {
      assert s'.g[x] == s.g[x] && ShortestDistance(m, m.start, x, s.g[x]);
    }
  }

  lemma ExpandTree(m: Maze, s: Frontier, closed: set<Pos>, c: Pos, ng: nat, nbrs: seq<Pos>, s0: Frontier, s': Frontier)
    requires WellFormed(m) && Tree(m, s.cameFrom, s.g, m.start) && ParentsClosed(s.cameFrom, closed)
    requires c in s.g && ng == s.g[c] + 1 && CostsKept(closed + {c}, s.g, s'.g)
    requires s0.g == s.g && s0.cameFrom == s.cameFrom && NeighborList(m, c, nbrs)
    requires RelaxedCosts(ng, nbrs, s0, s') && RelaxedParents(c, ng, nbrs, s0, s')
    ensures Tree(m, s'.cameFrom, s'.g, m.start) && ParentsClosed(s'.cameFrom, closed + {c})
  {
    assert !Improves(s.g, m.start, ng);
    forall x | x in s'.cameFrom
      ensures x in s'.g && s'.cameFrom[x] in s'.g && s'.g[x] == s'.g[s'.cameFrom[x]] + 1
      ensures Step(m, s'.cameFrom[x], x) && s'.cameFrom[x] in closed + {c}
    {
      ParentAt(m, s, closed, c, ng, nbrs, s0, s', x);
    }
    forall x | x in s'.g ensures Parented(s'.cameFrom, m.start, x) {
      if x in s.g {
        assert Parented(s.cameFrom, m.start, x);
      }
    }
  }

  /** One cell's parent after relaxing the neighbours nbrs of c at cost ng. */
  lemma ParentAt(m: Maze, s: Frontier, closed: set<Pos>, c: Pos, ng: nat, nbrs: seq<Pos>, s0: Frontier, s': Frontier, x: Pos)
    requires WellFormed(m) && Tree(m, s.cameFrom, s.g, m.start) && ParentsClosed(s.cameFrom, closed)
    requires c in s.g && ng == s.g[c] + 1 && NeighborList(m, c, nbrs) && CostsKept(closed + {c}, s.g, s'.g)
    requires s0.g == s.g && s0.cameFrom == s.cameFrom
    requires RelaxedCosts(ng, nbrs, s0, s') && RelaxedParents(c, ng, nbrs, s0, s')
    requires x in s'.cameFrom
    ensures x in s'.g && s'.cameFrom[x] in s'.g && s'.g[x] == s'.g[s'.cameFrom[x]] + 1
    ensures Step(m, s'.cameFrom[x], x) && s'.cameFrom[x] in closed + {c}
  {
    if x in nbrs && Improves(s.g, x, ng) {
      assert s'.cameFrom[x] == c && s'.g[x] == ng;
    } else {
      var p := s.cameFrom[x];
      assert s'.cameFrom[x] == p && p in closed && s'.g[x] == s.g[x];
    }
  }

  lemma ExpandReached(m: Maze, s: Frontier, c: Pos, ng: nat, nbrs: seq<Pos>, s0: Frontier, s': Frontier)
    requires WellFormed(m) && ScoresReached(m, s) && c in s.g && ng == s.g[c] + 1 && NeighborList(m, c, nbrs)
    requires s0.g == s.g && RelaxedCosts(ng, nbrs, s0, s')
    ensures ScoresReached(m, s')
  {
    forall x | x in s'.g ensures x in Universe(m) {
      if x !in s.g {
        StepInUniverse(m, c, x);
      }
    }
    forall x | x in s'.g ensures ReachIn(m, m.start, x, s'.g[x]) {
      if x in nbrs && Improves(s.g, x, ng) {
        assert ReachIn(m, m.start, c, s.g[c]);
        ReachStep(m, m.start, c, x, s.g[c]);
        assert s'.g[x] == s.g[c] + 1;
      } else {
        assert ReachIn(m, m.start, x, s.g[x]);
        KeptReach(m, s.g, s'.g, x);
      }
    }
  }

  lemma KeptReach(m: Maze, g: map<Pos, nat>, g': map<Pos, nat>, x: Pos)
    requires WellFormed(m) && x in g && ReachIn(m, m.start, x, g[x])
    requires x in g' && g'[x] == g[x]
    ensures ReachIn(m, m.start, x, g'[x])
  {
  }

  /** s0's queue is s's with c's entries (at least one of them) removed. */
  ghost predicate PoppedQueue(s: Frontier, c: Pos, s0: Frontier)
  {
    && (forall e :: e in s0.pq ==> e in s.pq)
    && (forall e :: e in s.pq && e.node != c ==> e in s0.pq)
  }

  lemma ExpandSound(h: Pos -> nat, s: Frontier, c: Pos, ng: nat, nbrs: seq<Pos>, s0: Frontier, s': Frontier)
    requires EntriesSound(s, h) && c in s.g && ng == s.g[c] + 1
    requires s0.g == s.g && PoppedQueue(s, c, s0)
    requires RelaxedCosts(ng, nbrs, s0, s')
    requires EntriesOnlyPushed(ng, nbrs, h, s0, s'.pq)
    ensures EntriesSound(s', h)
  {
    forall e | e in s'.pq ensures e.node in s'.g && s'.g[e.node] <= e.g && e.f == e.g + h(e.node) {
      if e !in s0.pq {
        assert e.node in nbrs && Improves(s.g, e.node, ng);
      }
    }
  }

  lemma ExpandLive(h: Pos -> nat, s: Frontier, closed: set<Pos>, c: Pos, ng: nat, nbrs: seq<Pos>, s0: Frontier, s': Frontier)
    requires OpenLive(s, closed, h) && c in s.g && ng == s.g[c] + 1
    requires s0.g == s.g && PoppedQueue(s, c, s0)
    requires RelaxedCosts(ng, nbrs, s0, s')
    requires EntriesKept(s0.pq, s'.pq) && EntriesPushed(ng, nbrs, h, s.g, s'.pq)
    ensures OpenLive(s', closed + {c}, h)
  {
    forall x | x in s'.g && x !in closed + {c} ensures Entry(s'.g[x] + h(x), s'.g[x], x) in s'.pq {
      LiveAt(h, s, closed, c, ng, nbrs, s0, s', x);
    }
  }

  /** One cell's live entry after relaxing at cost ng. */
  lemma LiveAt(h: Pos -> nat, s: Frontier, closed: set<Pos>, c: Pos, ng: nat, nbrs: seq<Pos>, s0: Frontier, s': Frontier, x: Pos)
    requires OpenLive(s, closed, h)
    requires s0.g == s.g && PoppedQueue(s, c, s0)
    requires RelaxedCosts(ng, nbrs, s0, s') && EntriesKept(s0.pq, s'.pq) && EntriesPushed(ng, nbrs, h, s.g, s'.pq)
    requires x in s'.g && x !in closed && x != c
    ensures Entry(s'.g[x] + h(x), s'.g[x], x) in s'.pq
  {
    if x in nbrs && Improves(s.g, x, ng) {
      assert s'.g[x] == ng;
    } else {
      var e := Entry(s.g[x] + h(x), s.g[x], x);
      assert s'.g[x] == s.g[x] && e in s.pq && e in s0.pq;
    }
  }

  lemma ExpandRelaxed(m: Maze, s: Frontier, closed: set<Pos>, c: Pos, ng: nat, nbrs: seq<Pos>, s0: Frontier, s': Frontier)
    requires WellFormed(m) && ClosedRelaxed(m, s, closed) && NeighborList(m, c, nbrs)
    requires c in s.g && ng == s.g[c] + 1 && CostsKept(closed + {c}, s.g, s'.g)
    requires s0.g == s.g && RelaxedCosts(ng, nbrs, s0, s')
    ensures ClosedRelaxed(m, s', closed + {c})
  {
  }

  /** After an expansion the cost invariant holds with c added to the expanded cells. */
  lemma ExpandCosts(m: Maze, h: Pos -> nat, s: Frontier, closed: set<Pos>, c: Pos, ng: nat, nbrs: seq<Pos>, s0: Frontier, s': Frontier)
    requires WellFormed(m) && CostsInv(m, s, closed) && Expansion(m, h, s, c, ng, nbrs, s0, s')
    requires ShortestDistance(m, m.start, c, s.g[c])
    ensures CostsInv(m, s', closed + {c})
  {
    ExpandOptimal(m, s, closed, c, ng, nbrs, s0, s');
    ExpandTree(m, s, closed, c, ng, nbrs, s0, s');
    ExpandReached(m, s, c, ng, nbrs, s0, s');
    ExpandRelaxed(m, s, closed, c, ng, nbrs, s0, s');
  }

  /** After an expansion the queue invariant holds with c added to the expanded cells. */
  lemma ExpandQueue(h: Pos -> nat, s: Frontier, closed: set<Pos>, c: Pos, ng: nat, nbrs: seq<Pos>, s0: Frontier, s': Frontier)
    requires QueueInv(s, closed, h) && c in s.g && ng == s.g[c] + 1 && s0.g == s.g && PoppedQueue(s, c, s0)
    requires RelaxedCosts(ng, nbrs, s0, s') && RelaxedEntries(ng, nbrs, h, s0, s')
    ensures QueueInv(s', closed + {c}, h)
  {
    ExpandSound(h, s, c, ng, nbrs, s0, s');
    ExpandLive(h, s, closed, c, ng, nbrs, s0, s');
  }

  /** Popping one entry of c removes nothing but that entry. */
  lemma PopQueue(s: Frontier, e: Entry, rest: multiset<Entry>)
    requires e in s.pq && rest == s.pq - multiset{e}
    ensures PoppedQueue(s, e.node, s.(pq := rest))
  {
    forall x | x in s.pq && x.node != e.node ensures x in rest {
      assert x != e;
    }
  }

  /**
   * Expanding the popped entry e, whose cell is at its shortest distance,
   * through the neighbours nbrs at cost ng keeps the invariant.
   */
  lemma ExpandKeeps(m: Maze, h: Pos -> nat, s: Frontier, closed: set<Pos>, e: Entry, rest: multiset<Entry>,
                    ng: nat, nbrs: seq<Pos>, s0: Frontier, s': Frontier)
    requires WellFormed(m) && HeapInv(m, h, s, closed)
    requires e in s.pq && rest == s.pq - multiset{e} && e.node !in closed && e.node != m.end
    requires e.node in s.g && ng == s.g[e.node] + 1 && ShortestDistance(m, m.start, e.node, s.g[e.node])
    requires s0 == s.(pq := rest) && NeighborList(m, e.node, nbrs) && Relaxed(e.node, ng, nbrs, h, s0, s')
    ensures HeapInv(m, h, s', closed + {e.node})
  {
    var c := e.node;
    PopQueue(s, e, rest);
    ExpandQueue(h, s, closed, c, ng, nbrs, s0, s');
    ExpandCosts(m, h, s, closed, c, ng, nbrs, s0, s');
  }

  /**
   * The body of one `dijkstra` / `astar` iteration once the popped cell c is
   * known to be new and not the end: c is marked visited and its neighbours
   * are relaxed.  The invariant survives with c expanded.
   */
  method HeapExpand(m: Maze, h: Pos -> nat, s: Frontier, closed: set<Pos>, e: Entry, rest: multiset<Entry>)
    returns (s': Frontier)
    requires WellFormed(m) && HeapInv(m, h, s, closed)
    requires e in s.pq && rest == s.pq - multiset{e} && e.node !in closed && e.node != m.end
    requires e.node in s.g && e.g == s.g[e.node] && ShortestDistance(m, m.start, e.node, s.g[e.node])
    ensures HeapInv(m, h, s', closed + {e.node})
  {
    var c := e.node;
    var nbrs := NeighborsOf(m, c);
    var s0 := s.(pq := rest);
    s' := Relax(m, c, e.g, nbrs, h, s0);
    ExpandKeeps(m, h, s, closed, e, rest, e.g + 1, nbrs, s0, s');
  }

  /**
   * When the heap runs dry the expanded cells are all the cells with a cost
   * and contain every neighbour of each other, so, not holding the end, they
   * show the end unreachable.
   */
  lemma HeapExhausted(m: Maze, h: Pos -> nat, s: Frontier, closed: set<Pos>)
    requires WellFormed(m) && HeapInv(m, h, s, closed) && |s.pq| == 0
    ensures !Reachable(m, m.start, m.end)
  {
    assert m.start in closed;
    forall x, n | x in closed && Step(m, x, n) ensures n in closed {
    }
    forall k: nat | ReachIn(m, m.start, m.end, k) ensures false {
      ClosedSetHoldsReachable(m, m.start, closed, m.end, k);
    }
  }

  /** Expanded cells all have costs, hence routes: there are no more of them than reachable cells. */
  lemma ExpandedBound(m: Maze, s: Frontier, expanded: set<Pos>)
    requires WellFormed(m) && ScoresReached(m, s) && expanded <= s.g.Keys
    ensures |expanded| <= |ReachableCells(m)|
  {
    forall x | x in expanded ensures x in ReachableCells(m) {
      InReachableCells(m, x, s.g[x]);
    }
    SubsetCard(expanded, ReachableCells(m));
  }

  /**
   * The report `dijkstra` or `astar` returns once its loop stops: either the
   * end was popped (`found`), at its shortest distance, and the path is read
   * back through `came_from`, or the heap ran dry and the path is empty.
   */
  method HeapReport(m: Maze, t: Tracker, name: string, timeComplexity: string, heuristic: Option<string>,
                    found: bool, s: Frontier, ghost expanded: set<Pos>)
    returns (r: AlgorithmMetrics)
    requires WellFormed(m) && Tree(m, s.cameFrom, s.g, m.start) && ScoresReached(m, s) && expanded <= s.g.Keys
    requires found ==> m.end in s.g && ShortestDistance(m, m.start, m.end, s.g[m.end])
    requires !found ==> !Reachable(m, m.start, m.end)
    ensures r.pathFound <==> Reachable(m, m.start, m.end)
    ensures r.pathFound <==> |r.path| > 0
    ensures r.pathFound ==> r.path[0] == m.start && r.path[|r.path| - 1] == m.end && IsWalk(m, r.path)
    ensures r.pathFound ==> ShortestDistance(m, m.start, m.end, |r.path| - 1)
    ensures found && m.start == m.end ==> r.path == [m.start]
    ensures r.nodesExplored == t.nodesExplored && |expanded| <= |ReachableCells(m)|
    ensures r.algorithmName == name && r.timeComplexity == timeComplexity && r.spaceComplexity == "O(V)"
    ensures r.isOptimal && r.heuristicUsed == heuristic && r.pathLength == |r.path|
  {
    var path := [];
    if found {
      TreeRanked(m, s.cameFrom, s.g, m.start);
      path := ReconstructPath(s.cameFrom, m.end, s.g);
      TreePath(m, s.cameFrom, s.g, m.start, path);
      assert ReachIn(m, m.start, m.end, s.g[m.end]);
    }
    ExpandedBound(m, s, expanded);
    r := CreateMetrics(t, name, path, timeComplexity, "O(V)", true, heuristic);
  }

  /**
   * The heap loop of `dijkstra` and `astar`, one call per iteration: record
   * the heap size and pop a least entry (or report failure when the heap is
   * empty).  With a consistent heuristic a path is found exactly when the
   * end is reachable, and it is a shortest one.
   */
  method HeapRun(m: Maze, h: Pos -> nat, name: string, timeComplexity: string, heuristic: Option<string>,
                 t: Tracker, s: Frontier, closed: set<Pos>)
    returns (r: AlgorithmMetrics)
    requires WellFormed(m) && Consistent(m, h) && HeapInv(m, h, s, closed)
    requires t.nodesExplored == |closed|
    requires m.start == m.end ==> closed == {} && s.pq == multiset{Entry(h(m.start), 0, m.start)}
    ensures r.pathFound <==> Reachable(m, m.start, m.end)
    ensures r.pathFound <==> |r.path| > 0
    ensures r.pathFound ==> r.path[0] == m.start && r.path[|r.path| - 1] == m.end && IsWalk(m, r.path)
    ensures r.pathFound ==> ShortestDistance(m, m.start, m.end, |r.path| - 1)
    ensures r.nodesExplored <= |ReachableCells(m)|
    ensures m.start == m.end ==> r.path == [m.start] && r.nodesExplored == 1
    ensures r.algorithmName == name && r.timeComplexity == timeComplexity && r.spaceComplexity == "O(V)"
    ensures r.isOptimal && r.heuristicUsed == heuristic && r.pathLength == |r.path|
    decreases |Universe(m) - closed|, |s.pq|, 2
  {
    if |s.pq| == 0 {
      HeapExhausted(m, h, s, closed);
      r := HeapReport(m, t, name, timeComplexity, heuristic, false, s, closed);
    } else {
      var t1 := UpdateFrontierSize(t, |s.pq|);
      var e, rest := PopMin(s.pq);
      r := HeapStep(m, h, name, timeComplexity, heuristic, t1, s, closed, e, rest);
    }
  }

  /** The popped entry e is skipped when its cell is already visited. */
  method HeapStep(m: Maze, h: Pos -> nat, name: string, timeComplexity: string, heuristic: Option<string>,
                  t: Tracker, s: Frontier, closed: set<Pos>, e: Entry, rest: multiset<Entry>)
    returns (r: AlgorithmMetrics)
    requires WellFormed(m) && Consistent(m, h) && HeapInv(m, h, s, closed)
    requires t.nodesExplored == |closed|
    requires Least(e, s.pq) && rest == s.pq - multiset{e}
    requires m.start == m.end ==> closed == {} && e.node == m.start
    ensures r.pathFound <==> Reachable(m, m.start, m.end)
    ensures r.pathFound <==> |r.path| > 0
    ensures r.pathFound ==> r.path[0] == m.start && r.path[|r.path| - 1] == m.end && IsWalk(m, r.path)
    ensures r.pathFound ==> ShortestDistance(m, m.start, m.end, |r.path| - 1)
    ensures r.nodesExplored <= |ReachableCells(m)|
    ensures m.start == m.end ==> r.path == [m.start] && r.nodesExplored == 1
    ensures r.algorithmName == name && r.timeComplexity == timeComplexity && r.spaceComplexity == "O(V)"
    ensures r.isOptimal && r.heuristicUsed == heuristic && r.pathLength == |r.path|
    decreases |Universe(m) - closed|, |s.pq|, 1
  {
    if e.node in closed {
      SkipKeeps(m, h, s, closed, e);
      r := HeapRun(m, h, name, timeComplexity, heuristic, t, s.(pq := rest), closed);
    } else {
      r := HeapVisit(m, h, name, timeComplexity, heuristic, t, s, closed, e, rest);
    }
  }

  /**
   * The popped cell is new: it is counted, and the search stops if it is the
   * end, since it is then at its shortest distance; otherwise it is expanded.
   */
  method HeapVisit(m: Maze, h: Pos -> nat, name: string, timeComplexity: string, heuristic: Option<string>,
                   t: Tracker, s: Frontier, closed: set<Pos>, e: Entry, rest: multiset<Entry>)
    returns (r: AlgorithmMetrics)
    requires WellFormed(m) && Consistent(m, h) && HeapInv(m, h, s, closed)
    requires t.nodesExplored == |closed|
    requires Least(e, s.pq) && rest == s.pq - multiset{e} && e.node !in closed
    requires m.start == m.end ==> closed == {} && e.node == m.start
    ensures r.pathFound <==> Reachable(m, m.start, m.end)
    ensures r.pathFound <==> |r.path| > 0
    ensures r.pathFound ==> r.path[0] == m.start && r.path[|r.path| - 1] == m.end && IsWalk(m, r.path)
    ensures r.pathFound ==> ShortestDistance(m, m.start, m.end, |r.path| - 1)
    ensures r.nodesExplored <= |ReachableCells(m)|
    ensures m.start == m.end ==> r.path == [m.start] && r.nodesExplored == 1
    ensures r.algorithmName == name && r.timeComplexity == timeComplexity && r.spaceComplexity == "O(V)"
    ensures r.isOptimal && r.heuristicUsed == heuristic && r.pathLength == |r.path|
    decreases |Universe(m) - closed|, |s.pq|, 0
  {
    var c := e.node;
    var t1 := IncrementNodes(t);
    PoppedIsShortest(m, h, s, closed, e);
    if c == m.end {
      r := HeapReport(m, t1, name, timeComplexity, heuristic, true, s, closed + {c});
    } else {
      var s' := HeapExpand(m, h, s, closed, e, rest);
      GrowCard(Universe(m), closed, {c});
      r := HeapRun(m, h, name, timeComplexity, heuristic, t1, s', closed + {c});
    }
  }

  /** The state before the loop: the start queued with cost 0, nothing visited. */
  function HeapStart(m: Maze, h: Pos -> nat): (s: Frontier)
    ensures s.pq == multiset{Entry(h(m.start), 0, m.start)} && s.g == map[m.start := 0] && s.cameFrom == map[]
  {
    Frontier(multiset{Entry(h(m.start), 0, m.start)}, map[m.start := 0], map[])
  }

  /**
   * `dijkstra`: the heap search with no heuristic.  A path is found exactly
   * when the end is reachable, and it is a shortest one.
   */
  method Dijkstra(m: Maze) returns (r: AlgorithmMetrics)
    requires WellFormed(m)
    ensures r.pathFound <==> Reachable(m, m.start, m.end)
    ensures r.pathFound <==> |r.path| > 0
    ensures r.pathFound ==> r.path[0] == m.start && r.path[|r.path| - 1] == m.end && IsWalk(m, r.path)
    ensures r.pathFound ==> ShortestDistance(m, m.start, m.end, |r.path| - 1)
    ensures r.nodesExplored <= |ReachableCells(m)|
    ensures m.start == m.end ==> r.path == [m.start] && r.nodesExplored == 1
    ensures r.algorithmName == "Dijkstra (Min-Heap)" && r.timeComplexity == "O((V + E) log V)"
    ensures r.spaceComplexity == "O(V)" && r.isOptimal && r.heuristicUsed == None && r.pathLength == |r.path|
  {
    var h: Pos -> nat := p => 0;
    assert Consistent(m, h);
    HeapInit(m, h);
    r := HeapRun(m, h, "Dijkstra (Min-Heap)", "O((V + E) log V)", None, StartTracking(), HeapStart(m, h), {});
  }

  /**
   * `astar(heuristic)`: the heap search guided by the named heuristic, an
   * unknown name meaning Manhattan.  Both integer heuristics are
   * consistent, so the path found is a shortest one.
   */
  method AStar(m: Maze, heuristic: string) returns (r: AlgorithmMetrics)
    requires WellFormed(m) && SelectHeuristic(heuristic) != Euclidean
    ensures r.pathFound <==> Reachable(m, m.start, m.end)
    ensures r.pathFound <==> |r.path| > 0
    ensures r.pathFound ==> r.path[0] == m.start && r.path[|r.path| - 1] == m.end && IsWalk(m, r.path)
    ensures r.pathFound ==> ShortestDistance(m, m.start, m.end, |r.path| - 1)
    ensures r.nodesExplored <= |ReachableCells(m)|
    ensures m.start == m.end ==> r.path == [m.start] && r.nodesExplored == 1
    ensures r.algorithmName == "A* (" + Capitalize(heuristic) + ")" && r.timeComplexity == "O(b^d)"
    ensures r.spaceComplexity == "O(V)" && r.isOptimal && r.heuristicUsed == Some(Capitalize(heuristic))
    ensures r.pathLength == |r.path|
  {
    var kind := SelectHeuristic(heuristic);
    var h := HeuristicFn(kind, m.end);
    HeuristicConsistent(m, kind, m.end);
    HeapInit(m, h);
    var name := Capitalize(heuristic);
    r := HeapRun(m, h, "A* (" + name + ")", "O(b^d)", Some(name), StartTracking(), HeapStart(m, h), {});
  }
}
