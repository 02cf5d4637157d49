/**
 * Parent maps and the walks read back from them: `_reconstruct_path`, which
 * every single-direction search uses, and the two chain walks of the
 * bidirectional search, whose visited maps store `None` for the root.
 */
module Parents {
  import opened Options
  import opened Grid
  import opened Reach

  function Reverse<T>(s: seq<T>): (r: seq<T>)
    ensures |r| == |s| && forall i :: 0 <= i < |s| ==> r[i] == s[|s| - 1 - i]
  {
    if s == [] then [] else Reverse(s[1..]) + [s[0]]
  }

  /** Every cell of `cells` mapped to the same value: a parent, a link or a depth. */
  function ConstMap<V>(cells: seq<Pos>, v: V): (r: map<Pos, V>)
    ensures forall x :: x in r <==> x in cells
    ensures forall x :: x in r ==> r[x] == v
  {
    map n | n in cells :: v
  }

  /** A rank that strictly drops from every cell to its parent: the map has no cycle through ranked cells. */
  ghost predicate Ranked(cameFrom: map<Pos, Pos>, rank: map<Pos, nat>)
  {
    forall x :: x in cameFrom && x in rank ==> cameFrom[x] in rank && rank[cameFrom[x]] < rank[x]
  }

  /** y is the recorded parent of x. */
  predicate ParentOf(cameFrom: map<Pos, Pos>, x: Pos, y: Pos)
  {
    x in cameFrom && cameFrom[x] == y
  }

  /** Each cell of the path after the first has the cell before it as its recorded parent. */
  ghost predicate FollowsParents(cameFrom: map<Pos, Pos>, path: seq<Pos>)
  {
    forall i, j :: 0 <= i < j < |path| && j == i + 1 ==> ParentOf(cameFrom, path[j], path[i])
  }

  /**
   * `_reconstruct_path`: follow parents from `current` until a cell without
   * a parent, then reverse.  The loop terminates because the parent map is
   * acyclic from `current` on (witnessed by the ghost rank).  The result
   * ends at `current`, starts at a cell with no parent, and each cell is
   * the recorded parent of the next.
   */
  method ReconstructPath(cameFrom: map<Pos, Pos>, current: Pos, ghost rank: map<Pos, nat>)
    returns (path: seq<Pos>)
    requires Ranked(cameFrom, rank) && (current in cameFrom ==> current in rank)
    ensures |path| > 0 && path[|path| - 1] == current && path[0] !in cameFrom
    ensures FollowsParents(cameFrom, path)
  {
    var backwards := [current];
    var cur := current;
    while cur in cameFrom
      invariant cur in cameFrom ==> cur in rank
      invariant |backwards| > 0 && backwards[0] == current && backwards[|backwards| - 1] == cur
      invariant forall i, j :: 0 <= i < j < |backwards| && j == i + 1 ==> ParentOf(cameFrom, backwards[i], backwards[j])
      decreases if cur in rank then rank[cur] else 0
    {
      var b := backwards + [cameFrom[cur]];
      forall i | 0 <= i < |b| - 1 ensures ParentOf(cameFrom, b[i], b[i + 1]) {
        if i + 1 < |backwards| {
          assert b[i] == backwards[i] && b[i + 1] == backwards[i + 1];
        }
      }
      cur := cameFrom[cur];
      backwards := b;
    }
    path := Reverse(backwards);
    var k := |backwards| - 1;
    forall i | 0 <= i < |path| - 1 ensures ParentOf(cameFrom, path[i + 1], path[i]) {
      assert path[i + 1] == backwards[k - i - 1] && path[i] == backwards[k - i];
    }
  }

  /**
   * The parent map and ghost depth map a search builds: the root has depth 0
   * and no parent, every other recorded cell has a parent one level up from
   * which it is one move away.
   */
  ghost predicate Tree(m: Maze, cameFrom: map<Pos, Pos>, depth: map<Pos, nat>, root: Pos)
    requires WellFormed(m)
  {
    && root in depth && depth[root] == 0 && root !in cameFrom
    && (forall x {:trigger Parented(cameFrom, root, x)} :: x in depth ==> Parented(cameFrom, root, x))
    && (forall x {:trigger cameFrom[x]} :: x in cameFrom ==>
          x in depth && cameFrom[x] in depth && depth[x] == depth[cameFrom[x]] + 1
          && Step(m, cameFrom[x], x))
  }

  /**
   * A recorded cell is the root or has a parent.  Inside `Tree` this fact is
   * only used where a proof names it: used freely, parent after parent would
   * be unfolded without end.
   */
  ghost predicate Parented(cameFrom: map<Pos, Pos>, root: Pos, x: Pos)
  {
    x == root || x in cameFrom
  }

  lemma TreeRanked(m: Maze, cameFrom: map<Pos, Pos>, depth: map<Pos, nat>, root: Pos)
    requires WellFormed(m) && Tree(m, cameFrom, depth, root)
    ensures Ranked(cameFrom, depth)
  {
  }

  /**
   * A path read back from a tree starts at the root, is a walk, and has one
   * more cell than the depth of its last cell; the i-th cell has depth i.
   */
  lemma {:induction false} TreePath(m: Maze, cameFrom: map<Pos, Pos>, depth: map<Pos, nat>, root: Pos, path: seq<Pos>)
    requires WellFormed(m) && Tree(m, cameFrom, depth, root)
    requires |path| > 0 && path[|path| - 1] in depth && path[0] !in cameFrom
    requires FollowsParents(cameFrom, path)
    ensures path[0] == root && |path| == depth[path[|path| - 1]] + 1 && IsWalk(m, path)
    ensures forall i :: 0 <= i < |path| ==> path[i] in depth && depth[path[i]] == i
  {
    var n := |path|;
    if n == 1 {
      assert Parented(cameFrom, root, path[0]);
    } else {
      var q := path[..n - 1];
      assert ParentOf(cameFrom, path[n - 1], path[n - 2]) && path[n - 2] == q[n - 2];
      forall i | 0 <= i < |q| - 1 ensures ParentOf(cameFrom, q[i + 1], q[i]) {
        assert q[i] == path[i] && q[i + 1] == path[i + 1];
      }
      TreePath(m, cameFrom, depth, root, q);
      assert Step(m, path[n - 2], path[n - 1]);
      forall i | 0 <= i < n - 1 ensures Step(m, path[i], path[i + 1]) {
        if i + 1 < n - 1 {
          assert path[i] == q[i] && path[i + 1] == q[i + 1];
        }
      }
      forall i | 0 <= i < n ensures path[i] in depth && depth[path[i]] == i {
        if i < n - 1 {
          assert path[i] == q[i];
        }
      }
    }
  }

  /** Every cell of a tree is reachable from the root in exactly its depth in moves. */
  lemma {:induction false} TreeReach(m: Maze, cameFrom: map<Pos, Pos>, depth: map<Pos, nat>, root: Pos, x: Pos)
    requires WellFormed(m) && Tree(m, cameFrom, depth, root) && x in depth
    ensures ReachIn(m, root, x, depth[x])
    decreases depth[x]
  {
    assert Parented(cameFrom, root, x);
    if x != root {
      var p := cameFrom[x];
      TreeReach(m, cameFrom, depth, root, p);
      ReachStep(m, root, p, x, depth[p]);
    }
  }

  /** Every recorded parent is an expanded cell: a cell's parent is set only while the parent is expanded. */
  ghost predicate ParentsClosed(cameFrom: map<Pos, Pos>, closed: set<Pos>)
  {
    forall x {:trigger cameFrom[x]} :: x in cameFrom ==> cameFrom[x] in closed
  }

  /** Visited maps of the bidirectional search: `None` marks the root. */
  ghost predicate LinksRanked(links: map<Pos, Option<Pos>>, rank: map<Pos, nat>)
  {
    && (forall x :: x in links ==> x in rank)
    && (forall x :: x in links && links[x].Some? ==>
          links[x].value in links && links[x].value in rank && rank[links[x].value] < rank[x])
  }

  /** x is visited and stores y as its predecessor. */
  predicate LinkOf(links: map<Pos, Option<Pos>>, x: Pos, y: Pos)
  {
    x in links && links[x] == Some(y)
  }

  /** Each cell of the chain but the last stores the next one as its predecessor. */
  ghost predicate Linked(links: map<Pos, Option<Pos>>, chain: seq<Pos>)
  {
    forall i, j :: 0 <= i < j < |chain| && j == i + 1 ==> LinkOf(links, chain[i], chain[j])
  }

  /**
   * The chain walk of the bidirectional reconstruction: starting at `from`,
   * collect cells while following stored predecessors until `None`.
   */
  method TraceToRoot(links: map<Pos, Option<Pos>>, from: Pos, ghost rank: map<Pos, nat>)
    returns (chain: seq<Pos>)
    requires LinksRanked(links, rank) && from in links
    ensures |chain| > 0 && chain[0] == from
    ensures chain[|chain| - 1] in links && links[chain[|chain| - 1]] == None
    ensures Linked(links, chain)
  {
    chain := [];
    var cur: Option<Pos> := Some(from);
    while cur.Some?
      invariant cur.Some? ==> cur.value in links
      invariant chain == [] ==> cur == Some(from)
      invariant chain != [] ==> chain[0] == from && chain[|chain| - 1] in links
                                && links[chain[|chain| - 1]] == cur
      invariant Linked(links, chain)
      decreases if cur.Some? then rank[cur.value] + 1 else 0
    {
      var c := chain + [cur.value];
      forall i | 0 <= i < |c| - 1 ensures LinkOf(links, c[i], c[i + 1]) {
        if i + 1 < |chain| {
          assert c[i] == chain[i] && c[i + 1] == chain[i + 1];
        }
      }
      chain := c;
      cur := links[cur.value];
    }
  }

  /**
   * A bidirectional visited map: the root maps to `None`, every other cell to
   * the cell that discovered it, one level up and one move away.
   */
  ghost predicate LinkTree(m: Maze, links: map<Pos, Option<Pos>>, depth: map<Pos, nat>, root: Pos)
    requires WellFormed(m)
  {
    && root in links && links[root] == None && depth.Keys == links.Keys && depth[root] == 0
    && (forall x {:trigger links[x]} :: x in links && links[x] == None ==> x == root)
    && (forall x {:trigger links[x]} :: x in links && links[x].Some? ==>
          links[x].value in links && depth[x] == depth[links[x].value] + 1
          && Step(m, links[x].value, x))
  }

  lemma LinkTreeRanked(m: Maze, links: map<Pos, Option<Pos>>, depth: map<Pos, nat>, root: Pos)
    requires WellFormed(m) && LinkTree(m, links, depth, root)
    ensures LinksRanked(links, depth)
  {
  }

  /** Every cell of a link tree is reachable from the root in exactly its depth in moves. */
  lemma {:induction false} LinkReach(m: Maze, links: map<Pos, Option<Pos>>, depth: map<Pos, nat>, root: Pos, x: Pos)
    requires WellFormed(m) && LinkTree(m, links, depth, root) && x in links
    ensures ReachIn(m, root, x, depth[x])
    decreases depth[x]
  {
    var p := LinkTreeEdge(m, links, depth, root, x);
    if p.Some? {
      LinkReach(m, links, depth, root, p.value);
      ReachDeeper(m, root, p.value, x, depth[p.value], depth[x]);
    } else {
      ReachDeeper(m, root, root, x, 0, depth[x]);
    }
  }

  /** Reaching y in k moves, and z in one more when z != y: z is reached in d moves. */
  lemma ReachDeeper(m: Maze, s: Pos, y: Pos, z: Pos, k: nat, d: nat)
    requires WellFormed(m) && ReachIn(m, s, y, k)
    requires (y == z && d == k) || (Step(m, y, z) && d == k + 1)
    ensures ReachIn(m, s, z, d)
  {
    if d == k + 1 && Step(m, y, z) {
      ReachStep(m, s, y, z, k);
    }
  }

  /** A cell of a link tree is the root, or one move below a tree cell one level up. */
  lemma LinkTreeEdge(m: Maze, links: map<Pos, Option<Pos>>, depth: map<Pos, nat>, root: Pos, x: Pos)
    returns (p: Option<Pos>)
    requires WellFormed(m) && LinkTree(m, links, depth, root) && x in links
    ensures p == links[x]
    ensures p == None ==> x == root && depth[x] == 0
    ensures p.Some? ==> p.value in links && depth[x] == depth[p.value] + 1 && Step(m, p.value, x)
  {
    p := links[x];
  }

  /** A chain traced in a link tree descends one level per cell and ends at the root. */
  lemma {:induction false} LinkChain(m: Maze, links: map<Pos, Option<Pos>>, depth: map<Pos, nat>, root: Pos, chain: seq<Pos>)
    requires WellFormed(m) && LinkTree(m, links, depth, root)
    requires |chain| > 0 && chain[0] in links && chain[|chain| - 1] in links && links[chain[|chain| - 1]] == None
    requires Linked(links, chain)
    ensures chain[|chain| - 1] == root && |chain| == depth[chain[0]] + 1
    ensures forall i :: 0 <= i < |chain| ==> chain[i] in depth && depth[chain[i]] == |chain| - 1 - i
    ensures forall i, j :: 0 <= i < j < |chain| && j == i + 1 ==> Step(m, chain[j], chain[i])
  {
    var n := |chain|;
    if n > 1 {
      var t := chain[1..];
      forall i | 0 <= i < |t| - 1 ensures LinkOf(links, t[i], t[i + 1]) {
        assert t[i] == chain[i + 1] && t[i + 1] == chain[i + 2];
      }
      LinkChain(m, links, depth, root, t);
      assert LinkOf(links, chain[0], chain[1]);
      forall i | 0 <= i < n ensures chain[i] in depth && depth[chain[i]] == n - 1 - i {
        if i > 0 {
          assert chain[i] == t[i - 1];
        }
      }
      forall i | 0 <= i < n - 1 ensures Step(m, chain[i + 1], chain[i]) {
        if i > 0 {
          assert chain[i] == t[i - 1] && chain[i + 1] == t[i];
        }
      }
    }
  }
}
