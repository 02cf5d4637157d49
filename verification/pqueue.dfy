/**
 * The `heapq` priority queues of the heap-based searches, modelled as a bag
 * of entries from which `heappop` removes the least one.  The list layout
 * of a binary heap is an implementation detail: what the searches rely on
 * is which entries are queued and that a pop returns a least one.  Python
 * compares the pushed tuples lexicographically: `(f, g, (row, col))` for A*,
 * `(cost, (row, col))` for Dijkstra and `(h, (row, col))` for greedy
 * best-first search.  All three are entries `(f, g, node)` here; Dijkstra
 * pushes its cost as both f and g, greedy search pushes g = 0, and
 * `DijkstraOrder` and `GreedyOrder` show that the order of those entries is
 * the order of the original tuples.  The order is total, so the least entry
 * of a queue is unique and popping is deterministic (`LeastUnique`).
 */
module PQueue {
  import opened Grid

  datatype Entry = Entry(f: nat, g: nat, node: Pos)

  /** Python's `<=` on `(row, col)` tuples. */
  predicate PosLe(a: Pos, b: Pos)
  {
    a.row < b.row || (a.row == b.row && a.col <= b.col)
  }

  /** Python's `<=` on `(f, g, (row, col))` tuples. */
  predicate EntryLe(a: Entry, b: Entry)
  {
    a.f < b.f || (a.f == b.f && (a.g < b.g || (a.g == b.g && PosLe(a.node, b.node))))
  }

  /** The tuple order is a total order: every two entries compare, and only equal entries compare both ways. */
  lemma EntryOrderTotal(a: Entry, b: Entry, c: Entry)
    ensures EntryLe(a, a)
    ensures EntryLe(a, b) || EntryLe(b, a)
    ensures EntryLe(a, b) && EntryLe(b, a) ==> a == b
    ensures EntryLe(a, b) && EntryLe(b, c) ==> EntryLe(a, c)
  {
  }

  /** Dijkstra's `(cost, node)` tuples compare as the entries `(cost, cost, node)` do. */
  lemma DijkstraOrder(c1: nat, n1: Pos, c2: nat, n2: Pos)
    ensures EntryLe(Entry(c1, c1, n1), Entry(c2, c2, n2)) <==> c1 < c2 || (c1 == c2 && PosLe(n1, n2))
  {
  }

  /** Greedy search's `(h, node)` tuples compare as the entries `(h, 0, node)` do. */
  lemma GreedyOrder(h1: nat, n1: Pos, h2: nat, n2: Pos)
    ensures EntryLe(Entry(h1, 0, n1), Entry(h2, 0, n2)) <==> h1 < h2 || (h1 == h2 && PosLe(n1, n2))
  {
  }

  /** e is queued and no queued entry is smaller. */
  predicate Least(e: Entry, pq: multiset<Entry>)
  {
    e in pq && forall x :: x in pq ==> EntryLe(e, x)
  }

  /** Every non-empty queue has a least entry. */
  lemma {:induction false} LeastExists(pq: multiset<Entry>) returns (e: Entry)
    requires |pq| > 0
    ensures Least(e, pq)
    decreases |pq|
  {
    var x :| x in pq;
    var rest := pq - multiset{x};
    assert pq == rest + multiset{x};
    if |rest| == 0 {
      assert forall y :: y in pq ==> y == x;
      EntryOrderTotal(x, x, x);
      e := x;
    } else {
      var y := LeastExists(rest);
      if EntryLe(x, y) {
        forall z | z in pq ensures EntryLe(x, z) {
          EntryOrderTotal(x, y, z);
        }
        e := x;
      } else {
        forall z | z in pq ensures EntryLe(y, z) {
          EntryOrderTotal(y, x, z);
        }
        e := y;
      }
    }
  }

  /** The least entry of a queue is unique, so `heappop` is deterministic. */
  lemma LeastUnique(a: Entry, b: Entry, pq: multiset<Entry>)
    requires Least(a, pq) && Least(b, pq)
    ensures a == b
  {
    EntryOrderTotal(a, b, a);
  }

  /** `heappop`: the least entry and the queue without one copy of it. */
  method PopMin(pq: multiset<Entry>) returns (e: Entry, rest: multiset<Entry>)
    requires |pq| > 0
    ensures Least(e, pq)
    ensures rest == pq - multiset{e} && |rest| == |pq| - 1
  {
    var _ := LeastExists(pq);
    e :| Least(e, pq);
    rest := pq - multiset{e};
  }

  /** `heappush`: the queue gains exactly the new entry. */
  function Push(pq: multiset<Entry>, e: Entry): (r: multiset<Entry>)
    ensures |r| == |pq| + 1 && e in r
    ensures forall x :: x in r <==> x in pq || x == e
    ensures r[e] == pq[e] + 1 && forall x :: x != e ==> r[x] == pq[x]
  {
    pq + multiset{e}
  }

  /** Every entry of pq is still queued in pq'. */
  ghost predicate EntriesKept(pq: multiset<Entry>, pq': multiset<Entry>)
  {
    forall e :: e in pq ==> e in pq'
  }
}
