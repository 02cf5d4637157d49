/**
 * The bookkeeping of src/metrics.py: the per-run tracker (node and frontier
 * counters), the result record with its derived fields and export, and the
 * comparator that keeps a list of results and picks the best one.
 * Wall-clock time and memory figures are floating point and are not modelled.
 */
module Metrics {
  import opened Options
  import opened Grid

  /** `MetricsTracker`: the two integer counters. */
  datatype Tracker = Tracker(nodesExplored: nat, maxFrontierSize: nat)

  /** `start_tracking`: both counters back to zero. */
  function StartTracking(): (t: Tracker)
    ensures t.nodesExplored == 0 && t.maxFrontierSize == 0
  {
    Tracker(0, 0)
  }

  /** `increment_nodes`: one more expansion. */
  function IncrementNodes(t: Tracker): (t': Tracker)
    ensures t'.nodesExplored == t.nodesExplored + 1
    ensures t'.maxFrontierSize == t.maxFrontierSize
  {
    t.(nodesExplored := t.nodesExplored + 1)
  }

  /** `update_frontier_size`: the maximum never decreases and covers the new size. */
  function UpdateFrontierSize(t: Tracker, size: nat): (t': Tracker)
    ensures t'.nodesExplored == t.nodesExplored
    ensures t'.maxFrontierSize >= t.maxFrontierSize && t'.maxFrontierSize >= size
    ensures t'.maxFrontierSize == t.maxFrontierSize || t'.maxFrontierSize == size
  {
    if size > t.maxFrontierSize then t.(maxFrontierSize := size) else t
  }

  /** `AlgorithmMetrics` without the floating-point time and memory fields. */
  datatype AlgorithmMetrics = AlgorithmMetrics(
    algorithmName: string,
    nodesExplored: nat,
    pathLength: nat,
    isOptimal: bool,
    pathFound: bool,
    path: seq<Pos>,
    timeComplexity: string,
    spaceComplexity: string,
    maxFrontierSize: nat,
    heuristicUsed: Option<string>)

  /**
   * `create_metrics`: the path length is the number of cells (0 for no
   * path), a path counts as found exactly when it is non-empty, and the
   * counters, flag and heuristic name are copied through.
   */
  function CreateMetrics(t: Tracker, algorithmName: string, path: seq<Pos>, timeComplexity: string,
                         spaceComplexity: string, isOptimal: bool, heuristic: Option<string>): (r: AlgorithmMetrics)
    ensures r.pathLength == |path| && r.path == path
    ensures r.pathFound <==> |path| > 0
    ensures r.nodesExplored == t.nodesExplored && r.maxFrontierSize == t.maxFrontierSize
    ensures r.isOptimal == isOptimal && r.heuristicUsed == heuristic && r.algorithmName == algorithmName
    ensures r.timeComplexity == timeComplexity && r.spaceComplexity == spaceComplexity
  {
    AlgorithmMetrics(
      algorithmName := algorithmName,
      nodesExplored := t.nodesExplored,
      pathLength := if |path| > 0 then |path| else 0,
      isOptimal := isOptimal,
      pathFound := |path| > 0,
      path := path,
      timeComplexity := timeComplexity,
      spaceComplexity := spaceComplexity,
      maxFrontierSize := t.maxFrontierSize,
      heuristicUsed := heuristic)
  }

  /** The unit test's tracker run: two increments are reported as two expanded nodes. */
  lemma TrackerScenario()
    ensures var t := UpdateFrontierSize(IncrementNodes(IncrementNodes(StartTracking())), 5);
            var r := CreateMetrics(t, "Test", [Pos(0, 0), Pos(1, 1)], "O(n)", "O(n)", true, None);
            r.algorithmName == "Test" && r.nodesExplored == 2 && r.pathLength == 2 && r.isOptimal
            && r.pathFound && r.maxFrontierSize == 5
  {
  }

  /** Export values of `to_dict`. */
  datatype Value = Str(s: string) | Int(i: int) | Bool(b: bool)

  const ExportKeys: set<string> := {"algorithm", "nodes_explored", "path_length", "is_optimal", "path_found",
                                    "time_complexity", "space_complexity", "max_frontier_size", "heuristic"}

  /**
   * `to_dict` restricted to its non-float entries.  A missing or empty
   * heuristic name is exported as "N/A".
   */
  function ToDict(r: AlgorithmMetrics): (d: map<string, Value>)
    ensures d.Keys == ExportKeys
    ensures d["nodes_explored"] == Int(r.nodesExplored) && d["path_length"] == Int(r.pathLength)
    ensures d["path_found"] == Bool(r.pathFound) && d["is_optimal"] == Bool(r.isOptimal)
    ensures d["max_frontier_size"] == Int(r.maxFrontierSize) && d["algorithm"] == Str(r.algorithmName)
    ensures d["time_complexity"] == Str(r.timeComplexity) && d["space_complexity"] == Str(r.spaceComplexity)
    ensures r.heuristicUsed == None || r.heuristicUsed == Some("") ==> d["heuristic"] == Str("N/A")
    ensures r.heuristicUsed.Some? && r.heuristicUsed.value != "" ==> d["heuristic"] == Str(r.heuristicUsed.value)
  {
    map[
      "algorithm" := Str(r.algorithmName),
      "nodes_explored" := Int(r.nodesExplored),
      "path_length" := Int(r.pathLength),
      "is_optimal" := Bool(r.isOptimal),
      "path_found" := Bool(r.pathFound),
      "time_complexity" := Str(r.timeComplexity),
      "space_complexity" := Str(r.spaceComplexity),
      "max_frontier_size" := Int(r.maxFrontierSize),
      "heuristic" := Str(if r.heuristicUsed.Some? && r.heuristicUsed.value != "" then r.heuristicUsed.value else "N/A")]
  }

  /**
   * Two records with the same export agree on every exported field; the
   * heuristic is recovered except that a missing name, an empty name and
   * the name "N/A" all export alike.
   */
  lemma ToDictDeterminesFields(r1: AlgorithmMetrics, r2: AlgorithmMetrics)
    requires ToDict(r1) == ToDict(r2)
    ensures r1.algorithmName == r2.algorithmName && r1.nodesExplored == r2.nodesExplored
    ensures r1.pathLength == r2.pathLength && r1.isOptimal == r2.isOptimal && r1.pathFound == r2.pathFound
    ensures r1.timeComplexity == r2.timeComplexity && r1.spaceComplexity == r2.spaceComplexity
    ensures r1.maxFrontierSize == r2.maxFrontierSize
    ensures r1.heuristicUsed.Some? && r1.heuristicUsed.value !in {"", "N/A"} ==> r2.heuristicUsed == r1.heuristicUsed
  {
  }

  /** `PerformanceComparator`: the list of collected results. */
  datatype Comparator = Comparator(allMetrics: seq<AlgorithmMetrics>)

  /** `add_metrics`: append at the end; earlier entries stay where they were. */
  function AddMetrics(c: Comparator, r: AlgorithmMetrics): (c': Comparator)
    ensures |c'.allMetrics| == |c.allMetrics| + 1
    ensures c'.allMetrics[..|c.allMetrics|] == c.allMetrics && c'.allMetrics[|c.allMetrics|] == r
  {
    Comparator(c.allMetrics + [r])
  }

  /** `clear`: no results left. */
  function Clear(c: Comparator): (c': Comparator)
    ensures |c'.allMetrics| == 0
  {
    Comparator([])
  }

  /** Positions, in increasing order, of the results that found a path, from `from` on. */
  function SuccessfulIndices(s: seq<AlgorithmMetrics>, from: nat): (idx: seq<nat>)
    requires from <= |s|
    ensures forall k :: 0 <= k < |idx| ==> from <= idx[k] < |s| && s[idx[k]].pathFound
    ensures forall k, l :: 0 <= k < l < |idx| ==> idx[k] < idx[l]
    ensures forall j :: from <= j < |s| && s[j].pathFound ==> j in idx
    decreases |s| - from
  {
    if from == |s| then []
    else if s[from].pathFound then [from] + SuccessfulIndices(s, from + 1)
    else SuccessfulIndices(s, from + 1)
  }

  /**
   * Python's `min(..., key=nodes_explored)`: scan left to right and replace
   * the current best only by a strictly smaller count, so the first minimum wins.
   */
  function MinFrom(v: seq<AlgorithmMetrics>, best: nat, i: nat): (k: nat)
    requires best < i <= |v|
    requires forall j :: 0 <= j < i ==> v[best].nodesExplored <= v[j].nodesExplored
    requires forall j :: 0 <= j < best ==> v[j].nodesExplored > v[best].nodesExplored
    ensures k < |v|
    ensures forall j :: 0 <= j < |v| ==> v[k].nodesExplored <= v[j].nodesExplored
    ensures forall j :: 0 <= j < k ==> v[j].nodesExplored > v[k].nodesExplored
    decreases |v| - i
  {
    if i == |v| then best
    else if v[i].nodesExplored < v[best].nodesExplored then MinFrom(v, i, i + 1)
    else MinFrom(v, best, i + 1)
  }

  /**
   * `get_best_algorithm` for the integer criterion and the fallback.  `None`
   * when no stored result found a path; for "nodes_explored" the first
   * successful result with the fewest expansions; for an unrecognised name
   * the first successful result.
   */
  function GetBestAlgorithm(c: Comparator, metric: string): (r: Option<AlgorithmMetrics>)
    requires metric != "execution_time" && metric != "memory_used"
    ensures r.Some? ==> r.value.pathFound && r.value in c.allMetrics
    ensures r.None? <==> forall j :: 0 <= j < |c.allMetrics| ==> !c.allMetrics[j].pathFound
    ensures r.Some? && metric == "nodes_explored" ==>
              exists i :: FirstFewest(c.allMetrics, i) && c.allMetrics[i] == r.value
    ensures r.Some? && metric != "nodes_explored" ==>
              exists i :: FirstSuccess(c.allMetrics, i) && c.allMetrics[i] == r.value
  {
    var all := c.allMetrics;
    if |all| == 0 then None
    else
      var idx := SuccessfulIndices(all, 0);
      if |idx| == 0 then
        None
      else if metric == "nodes_explored" then
        Some(FewestExpansions(all, idx))
      else
        Some(FirstFound(all, idx))
  }

  /** `valid_metrics[0]`: the first successful result. */
  function FirstFound(all: seq<AlgorithmMetrics>, idx: seq<nat>): (r: AlgorithmMetrics)
    requires |idx| > 0
    requires forall q :: 0 <= q < |idx| ==> idx[q] < |all| && all[idx[q]].pathFound
    requires forall q, l :: 0 <= q < l < |idx| ==> idx[q] < idx[l]
    requires forall j :: 0 <= j < |all| && all[j].pathFound ==> j in idx
    ensures exists i :: FirstSuccess(all, i) && all[i] == r
  {
    FirstSuccessful(all, idx);
    assert all[idx[0]] == Pick(all, idx)[0];
    Pick(all, idx)[0]
  }

  /** Position i holds a successful result with the fewest expansions, and no earlier successful result ties it. */
  ghost predicate FirstFewest(all: seq<AlgorithmMetrics>, i: int)
  {
    && 0 <= i < |all| && all[i].pathFound
    && (forall j :: 0 <= j < |all| && all[j].pathFound ==> all[i].nodesExplored <= all[j].nodesExplored)
    && (forall j :: 0 <= j < i && all[j].pathFound ==> all[j].nodesExplored > all[i].nodesExplored)
  }

  /** Position i holds the first successful result. */
  ghost predicate FirstSuccess(all: seq<AlgorithmMetrics>, i: int)
  {
    0 <= i < |all| && all[i].pathFound && forall j :: 0 <= j < i ==> !all[j].pathFound
  }

  /** `min(valid_metrics, key=lambda m: m.nodes_explored)` over the successful results. */
  function FewestExpansions(all: seq<AlgorithmMetrics>, idx: seq<nat>): (r: AlgorithmMetrics)
    requires |idx| > 0
    requires forall q :: 0 <= q < |idx| ==> idx[q] < |all| && all[idx[q]].pathFound
    requires forall q, l :: 0 <= q < l < |idx| ==> idx[q] < idx[l]
    requires forall j :: 0 <= j < |all| && all[j].pathFound ==> j in idx
    ensures exists i :: FirstFewest(all, i) && all[i] == r
  {
    var valid := Pick(all, idx);
    var k := MinFrom(valid, 0, 1);
    BestIsFirstMinimum(all, idx, valid, k);
    assert all[idx[k]] == valid[k];
    valid[k]
  }

  /** The list comprehension `[m for m in all_metrics if m.path_found]`, via the positions. */
  function Pick(all: seq<AlgorithmMetrics>, idx: seq<nat>): (v: seq<AlgorithmMetrics>)
    requires forall q :: 0 <= q < |idx| ==> idx[q] < |all|
    ensures |v| == |idx| && forall q :: 0 <= q < |idx| ==> v[q] == all[idx[q]]
  {
    if idx == [] then [] else [all[idx[0]]] + Pick(all, idx[1..])
  }

  lemma FirstSuccessful(all: seq<AlgorithmMetrics>, idx: seq<nat>)
    requires |idx| > 0
    requires forall q, l :: 0 <= q < l < |idx| ==> idx[q] < idx[l]
    requires forall j :: 0 <= j < |all| && all[j].pathFound ==> j in idx
    ensures forall j :: 0 <= j < idx[0] && j < |all| ==> !all[j].pathFound
  {
  }

  lemma BestIsFirstMinimum(all: seq<AlgorithmMetrics>, idx: seq<nat>, valid: seq<AlgorithmMetrics>, k: nat)
    requires forall q :: 0 <= q < |idx| ==> idx[q] < |all| && all[idx[q]].pathFound
    requires forall q, l :: 0 <= q < l < |idx| ==> idx[q] < idx[l]
    requires forall j :: 0 <= j < |all| && all[j].pathFound ==> j in idx
    requires |valid| == |idx| && forall q :: 0 <= q < |idx| ==> valid[q] == all[idx[q]]
    requires k < |valid|
    requires forall j :: 0 <= j < |valid| ==> valid[k].nodesExplored <= valid[j].nodesExplored
    requires forall j :: 0 <= j < k ==> valid[j].nodesExplored > valid[k].nodesExplored
    ensures forall j :: 0 <= j < |all| && all[j].pathFound ==> valid[k].nodesExplored <= all[j].nodesExplored
    ensures forall j :: 0 <= j < idx[k] && all[j].pathFound ==> all[j].nodesExplored > valid[k].nodesExplored
  {
    forall j | 0 <= j < |all| && all[j].pathFound
      ensures valid[k].nodesExplored <= all[j].nodesExplored
      ensures j < idx[k] ==> all[j].nodesExplored > valid[k].nodesExplored
    {
      var l :| 0 <= l < |idx| && idx[l] == j;
      assert valid[l] == all[j];
      if j < idx[k] {
        assert l < k;
      }
    }
  }

  /** The comparator after clearing has no best result, whatever the criterion. */
  lemma ClearedHasNoBest(c: Comparator, metric: string)
    requires metric != "execution_time" && metric != "memory_used"
    ensures GetBestAlgorithm(Clear(c), metric) == None
  {
  }
}
