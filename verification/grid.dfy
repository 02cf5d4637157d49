/**
 * The grid maze of src/maze.py: a rows x cols array of integer cell codes,
 * a start cell, an end cell and the adjacency list derived from the grid.
 * Only the WALL code blocks movement; the other codes are display marks.
 */
module Grid {

  /** A coordinate (row, col); Python compares these tuples lexicographically. */
  datatype Pos = Pos(row: int, col: int)

  // The CellType enumeration values.
  const EMPTY: int := 0
  const WALL: int := 1
  const START: int := 2
  const END: int := 3
  const PATH: int := 4
  const VISITED: int := 5
  const EXPLORING: int := 6

  datatype Maze = Maze(
    rows: nat,
    cols: nat,
    grid: seq<seq<int>>,
    start: Pos,
    end: Pos,
    adjacency: map<Pos, seq<Pos>>)

  /** The grid really is rows x cols (every constructor and mutator keeps this). */
  predicate WellFormed(m: Maze)
  {
    |m.grid| == m.rows && forall r :: 0 <= r < |m.grid| ==> |m.grid[r]| == m.cols
  }

  predicate InBounds(m: Maze, p: Pos)
  {
    0 <= p.row < m.rows && 0 <= p.col < m.cols
  }

  function Cell(m: Maze, p: Pos): int
    requires WellFormed(m) && InBounds(m, p)
  {
    m.grid[p.row][p.col]
  }

  /** All in-bounds coordinates. */
  function AllCells(m: Maze): set<Pos>
  {
    set r, c | 0 <= r < m.rows && 0 <= c < m.cols :: Pos(r, c)
  }

  lemma AllCellsAreInBounds(m: Maze, p: Pos)
    ensures p in AllCells(m) <==> InBounds(m, p)
  {
    if InBounds(m, p) {
      assert Pos(p.row, p.col) in AllCells(m);
    }
  }

  /** `is_valid_cell`: inside the grid and not a wall. */
  predicate IsValidCell(m: Maze, row: int, col: int)
    requires WellFormed(m)
  {
    0 <= row < m.rows && 0 <= col < m.cols && m.grid[row][col] != WALL
  }

  predicate Open(m: Maze, p: Pos)
    requires WellFormed(m)
  {
    IsValidCell(m, p.row, p.col)
  }

  /** Two cells one row or one column apart. */
  predicate UnitStep(a: Pos, b: Pos)
  {
    (a.row == b.row && (a.col - b.col == 1 || b.col - a.col == 1))
    || (a.col == b.col && (a.row - b.row == 1 || b.row - a.row == 1))
  }

  /** A move from one cell to an adjacent open cell: the edge relation of the maze graph. */
  predicate Step(m: Maze, from: Pos, to: Pos)
    requires WellFormed(m)
  {
    UnitStep(from, to) && Open(m, to)
  }

  /** The direction list of `get_neighbors`: up, down, left, right. */
  const Directions: seq<(int, int)> := [(-1, 0), (1, 0), (0, -1), (0, 1)]

  function Shift(p: Pos, d: (int, int)): Pos
  {
    Pos(p.row + d.0, p.col + d.1)
  }

  /** Position of q among the four directions around p (4 when q is not next to p). */
  function DirectionIndex(p: Pos, q: Pos): nat
  {
    if q == Shift(p, Directions[0]) then 0
    else if q == Shift(p, Directions[1]) then 1
    else if q == Shift(p, Directions[2]) then 2
    else if q == Shift(p, Directions[3]) then 3
    else 4
  }

  function Keep(m: Maze, q: Pos): seq<Pos>
    requires WellFormed(m)
  {
    if IsValidCell(m, q.row, q.col) then [q] else []
  }

  /** The neighbour list is sorted by direction, each direction at most once. */
  predicate InDirectionOrder(p: Pos, s: seq<Pos>)
  {
    forall i, j :: 0 <= i < j < |s| ==> DirectionIndex(p, s[i]) < DirectionIndex(p, s[j]) <= 3
  }

  lemma UnitStepIsShift(p: Pos, q: Pos)
    ensures UnitStep(p, q) <==>
              q == Shift(p, Directions[0]) || q == Shift(p, Directions[1])
              || q == Shift(p, Directions[2]) || q == Shift(p, Directions[3])
  {
  }

  lemma KeepInOrder(m: Maze, p: Pos, k: nat, a: seq<Pos>)
    requires WellFormed(m) && k < 4 && InDirectionOrder(p, a)
    requires forall x :: x in a ==> DirectionIndex(p, x) < k
    ensures InDirectionOrder(p, a + Keep(m, Shift(p, Directions[k])))
    ensures forall x :: x in a + Keep(m, Shift(p, Directions[k])) ==> DirectionIndex(p, x) <= k
  {
    var q := Shift(p, Directions[k]);
    assert DirectionIndex(p, q) == k;
    var s := a + Keep(m, q);
    forall i, j | 0 <= i < j < |s|
      ensures DirectionIndex(p, s[i]) < DirectionIndex(p, s[j]) <= 3
    {
      if j >= |a| {
        assert s[j] == q;
        assert s[i] in a;
      }
    }
  }

  /**
   * `get_neighbors(row, col)`: the cells one step up, down, left and right,
   * in that order, that lie inside the grid and are not walls.  The cell
   * itself may be anything (even a wall or outside the grid).
   */
  function GetNeighbors(m: Maze, row: int, col: int): (r: seq<Pos>)
    requires WellFormed(m)
    ensures |r| <= 4
    ensures forall q :: q in r <==> Step(m, Pos(row, col), q)
    ensures InDirectionOrder(Pos(row, col), r)
  {
    var p := Pos(row, col);
    var r0 := Keep(m, Shift(p, Directions[0]));
    var r1 := r0 + Keep(m, Shift(p, Directions[1]));
    var r2 := r1 + Keep(m, Shift(p, Directions[2]));
    var r3 := r2 + Keep(m, Shift(p, Directions[3]));
    KeepInOrder(m, p, 0, []);
    assert r0 == [] + Keep(m, Shift(p, Directions[0]));
    KeepInOrder(m, p, 1, r0);
    KeepInOrder(m, p, 2, r1);
    KeepInOrder(m, p, 3, r2);
    forall q ensures q in r3 <==> Step(m, p, q) {
      UnitStepIsShift(p, q);
    }
    r3
  }

  /** Neighbours of a coordinate value. */
  function Neighbors(m: Maze, p: Pos): seq<Pos>
    requires WellFormed(m)
  {
    GetNeighbors(m, p.row, p.col)
  }

  predicate Distinct(s: seq<Pos>)
  {
    forall i, j :: 0 <= i < j < |s| ==> s[i] != s[j]
  }

  /** The neighbour list never repeats a cell and never contains the cell itself. */
  lemma NeighborsDistinct(m: Maze, p: Pos)
    requires WellFormed(m)
    ensures Distinct(Neighbors(m, p))
    ensures p !in Neighbors(m, p)
  {
    var r := Neighbors(m, p);
    forall i, j | 0 <= i < j < |r|
      ensures r[i] != r[j]
    {
      assert DirectionIndex(p, r[i]) < DirectionIndex(p, r[j]);
    }
  }

  /** An interior cell of a wall-free grid has all four neighbours. */
  lemma InteriorHasFourNeighbors(m: Maze, row: int, col: int)
    requires WellFormed(m)
    requires 0 < row < m.rows - 1 && 0 < col < m.cols - 1
    requires forall r, c :: 0 <= r < m.rows && 0 <= c < m.cols ==> m.grid[r][c] != WALL
    ensures |GetNeighbors(m, row, col)| == 4
  {
  }

  /**
   * The neighbour relation is symmetric between open cells: if b is a
   * neighbour of a and a is itself an open cell, then a is a neighbour of b.
   */
  lemma NeighborsSymmetric(m: Maze, a: Pos, b: Pos)
    requires WellFormed(m)
    requires b in Neighbors(m, a) && Open(m, a)
    ensures a in Neighbors(m, b) && Step(m, b, a)
  {
  }

  /** `_build_adjacency_list`: one entry per open cell, holding its neighbour list. */
  function BuildAdjacencyList(m: Maze): (adj: map<Pos, seq<Pos>>)
    requires WellFormed(m)
    ensures forall p :: p in adj <==> Open(m, p)
    ensures forall p :: p in adj ==> adj[p] == Neighbors(m, p)
  {
    forall p | Open(m, p) ensures p in AllCells(m) {
      AllCellsAreInBounds(m, p);
    }
    map p | p in AllCells(m) && m.grid[p.row][p.col] != WALL :: Neighbors(m, p)
  }

  /** Only the grid and its dimensions matter to the neighbour lists. */
  lemma NeighborsCongruent(m1: Maze, m2: Maze, p: Pos)
    requires WellFormed(m1) && m1.rows == m2.rows && m1.cols == m2.cols && m1.grid == m2.grid
    ensures Neighbors(m1, p) == Neighbors(m2, p)
  {
    forall k | 0 <= k < 4 ensures Keep(m1, Shift(p, Directions[k])) == Keep(m2, Shift(p, Directions[k])) {
    }
  }

  /** The stored adjacency list agrees with the grid. */
  ghost predicate AdjacencyCurrent(m: Maze)
    requires WellFormed(m)
  {
    && (forall p :: p in m.adjacency <==> Open(m, p))
    && (forall p :: p in m.adjacency ==> m.adjacency[p] == Neighbors(m, p))
  }

  /** While the adjacency list is current, `is_valid_cell` holds exactly of its keys. */
  lemma ValidCellsAreAdjacencyKeys(m: Maze, row: int, col: int)
    requires WellFormed(m) && AdjacencyCurrent(m)
    ensures IsValidCell(m, row, col) <==> Pos(row, col) in m.adjacency
  {
  }

  /** Storing a freshly built adjacency list makes it current. */
  lemma StoreBuiltAdjacency(m: Maze)
    requires WellFormed(m)
    ensures AdjacencyCurrent(m.(adjacency := BuildAdjacencyList(m)))
  {
    var m' := m.(adjacency := BuildAdjacencyList(m));
    forall p | p in m'.adjacency ensures m'.adjacency[p] == Neighbors(m', p) {
      NeighborsCongruent(m, m', p);
    }
  }

  /** `Maze(rows, cols)`: all cells empty, start at the top-left, end at the bottom-right. */
  function NewMaze(rows: nat, cols: nat): (m: Maze)
    ensures WellFormed(m) && m.rows == rows && m.cols == cols
    ensures forall p :: InBounds(m, p) ==> Cell(m, p) == EMPTY
    ensures m.start == Pos(0, 0) && m.end == Pos(rows - 1, cols - 1)
    ensures AdjacencyCurrent(m)
    ensures forall p :: p in m.adjacency <==> InBounds(m, p)
  {
    var m0 := Maze(rows, cols, seq(rows, _ => seq(cols, _ => EMPTY)), Pos(0, 0), Pos(rows - 1, cols - 1), map[]);
    StoreBuiltAdjacency(m0);
    m0.(adjacency := BuildAdjacencyList(m0))
  }

  /** The 10 x 10 maze of the unit tests: the top-left cell has an adjacency entry. */
  lemma NewMazeExample()
    ensures var m := NewMaze(10, 10);
            m.start == Pos(0, 0) && m.end == Pos(9, 9) && Pos(0, 0) in m.adjacency
            && |GetNeighbors(m, 5, 5)| == 4
  {
    var m := NewMaze(10, 10);
    InteriorHasFourNeighbors(m, 5, 5);
  }

  function SetCell(g: seq<seq<int>>, row: nat, col: nat, v: int): seq<seq<int>>
    requires row < |g| && col < |g[row]|
  {
    g[row := g[row][col := v]]
  }

  /** `set_wall`: an in-range cell becomes a wall and the adjacency list is rebuilt. */
  function SetWall(m: Maze, row: int, col: int): (m': Maze)
    requires WellFormed(m)
    ensures WellFormed(m') && m'.rows == m.rows && m'.cols == m.cols
    ensures m'.start == m.start && m'.end == m.end
    ensures InBounds(m, Pos(row, col)) ==>
              && Cell(m', Pos(row, col)) == WALL
              && (forall p :: InBounds(m, p) && p != Pos(row, col) ==> Cell(m', p) == Cell(m, p))
              && AdjacencyCurrent(m')
    ensures !InBounds(m, Pos(row, col)) ==> m' == m
  {
    if 0 <= row < m.rows && 0 <= col < m.cols then
      var m1 := m.(grid := SetCell(m.grid, row, col, WALL));
      StoreBuiltAdjacency(m1);
      m1.(adjacency := BuildAdjacencyList(m1))
    else
      m
  }

  /**
   * `set_start`: an in-range cell becomes the start and is marked START.
   * The adjacency list is NOT rebuilt.
   */
  function SetStart(m: Maze, row: int, col: int): (m': Maze)
    requires WellFormed(m)
    ensures WellFormed(m') && m'.rows == m.rows && m'.cols == m.cols
    ensures m'.end == m.end && m'.adjacency == m.adjacency
    ensures InBounds(m, Pos(row, col)) ==>
              && m'.start == Pos(row, col) && Cell(m', m'.start) == START
              && (forall p :: InBounds(m, p) && p != Pos(row, col) ==> Cell(m', p) == Cell(m, p))
    ensures !InBounds(m, Pos(row, col)) ==> m' == m
  {
    if 0 <= row < m.rows && 0 <= col < m.cols then
      m.(start := Pos(row, col), grid := SetCell(m.grid, row, col, START))
    else
      m
  }

  /** `set_end`: an in-range cell becomes the end and is marked END; no rebuild. */
  function SetEnd(m: Maze, row: int, col: int): (m': Maze)
    requires WellFormed(m)
    ensures WellFormed(m') && m'.rows == m.rows && m'.cols == m.cols
    ensures m'.start == m.start && m'.adjacency == m.adjacency
    ensures InBounds(m, Pos(row, col)) ==>
              && m'.end == Pos(row, col) && Cell(m', m'.end) == END
              && (forall p :: InBounds(m, p) && p != Pos(row, col) ==> Cell(m', p) == Cell(m, p))
    ensures !InBounds(m, Pos(row, col)) ==> m' == m
  {
    if 0 <= row < m.rows && 0 <= col < m.cols then
      m.(end := Pos(row, col), grid := SetCell(m.grid, row, col, END))
    else
      m
  }

  /**
   * Because `set_start` does not rebuild the adjacency list, moving the start
   * onto a wall leaves a stale list: the cell is now open but has no entry.
   */
  lemma SetStartOnWallLeavesAdjacencyStale()
    ensures var m := SetStart(SetWall(NewMaze(1, 2), 0, 1), 0, 1);
            AdjacencyCurrent(SetWall(NewMaze(1, 2), 0, 1)) && !AdjacencyCurrent(m)
  {
    var m1 := SetWall(NewMaze(1, 2), 0, 1);
    var m := SetStart(m1, 0, 1);
    assert Pos(0, 1) !in m.adjacency;
    assert Open(m, Pos(0, 1));
  }

  /** `get_edge_weight`: every move costs one unit. */
  function GetEdgeWeight(m: Maze, from: Pos, to: Pos): (w: nat)
    ensures w == 1
  {
    1
  }

  /** Marks the search leaves behind (PATH, VISITED, EXPLORING) revert to EMPTY. */
  function ClearMark(code: int): int
  {
    if code == PATH || code == VISITED || code == EXPLORING then EMPTY else code
  }

  predicate IsMark(code: int)
  {
    code == PATH || code == VISITED || code == EXPLORING
  }

  /**
   * `reset_path_visualization`: clears search marks everywhere, then writes
   * START at the start and END at the end (END wins if they coincide).
   * Indexing the start and end cells would fail outside the grid, hence the
   * requirement that both lie inside it.
   */
  function ResetPathVisualization(m: Maze): (m': Maze)
    requires WellFormed(m) && InBounds(m, m.start) && InBounds(m, m.end)
    ensures WellFormed(m') && m'.rows == m.rows && m'.cols == m.cols
    ensures m'.start == m.start && m'.end == m.end && m'.adjacency == m.adjacency
    ensures Cell(m', m.end) == END
    ensures m.start != m.end ==> Cell(m', m.start) == START
    ensures forall p :: InBounds(m, p) && p != m.start && p != m.end ==>
              !IsMark(Cell(m', p)) && (Cell(m, p) == WALL <==> Cell(m', p) == WALL)
              && (IsMark(Cell(m, p)) ==> Cell(m', p) == EMPTY)
              && (!IsMark(Cell(m, p)) ==> Cell(m', p) == Cell(m, p))
  {
    var cleared := seq(m.rows, r requires 0 <= r < m.rows =>
                     seq(m.cols, c requires 0 <= c < m.cols => ClearMark(m.grid[r][c])));
    var g1 := SetCell(cleared, m.start.row, m.start.col, START);
    var g2 := SetCell(g1, m.end.row, m.end.col, END);
    m.(grid := g2)
  }

  /** Resetting twice is the same as resetting once. */
  lemma ResetIdempotent(m: Maze)
    requires WellFormed(m) && InBounds(m, m.start) && InBounds(m, m.end)
    ensures ResetPathVisualization(ResetPathVisualization(m)) == ResetPathVisualization(m)
  {
    var m1 := ResetPathVisualization(m);
    var m2 := ResetPathVisualization(m1);
    assert m2.grid == m1.grid by {
      forall r | 0 <= r < m.rows ensures m2.grid[r] == m1.grid[r] {
        forall c | 0 <= c < m.cols ensures m2.grid[r][c] == m1.grid[r][c] {
          assert Cell(m2, Pos(r, c)) == Cell(m1, Pos(r, c));
        }
      }
    }
  }

  /** The neighbour list of c, described by its members only. */
  ghost predicate NeighborList(m: Maze, c: Pos, nbrs: seq<Pos>)
    requires WellFormed(m)
  {
    forall x :: x in nbrs <==> Step(m, c, x)
  }

  /** The neighbour list of a cell, described by its members, has no repeats. */
  lemma NeighborsListed(m: Maze, c: Pos, nbrs: seq<Pos>)
    requires WellFormed(m) && nbrs == GetNeighbors(m, c.row, c.col)
    ensures NeighborList(m, c, nbrs) && Distinct(nbrs)
  {
    NeighborsDistinct(m, c);
  }

  /** The neighbours `get_neighbors` lists for c, described by their members. */
  method NeighborsOf(m: Maze, c: Pos) returns (nbrs: seq<Pos>)
    requires WellFormed(m)
    ensures NeighborList(m, c, nbrs) && Distinct(nbrs)
  {
    nbrs := GetNeighbors(m, c.row, c.col);
    NeighborsListed(m, c, nbrs);
  }

  /** The tail of a list without repeats has none either, and lacks the head. */
  lemma DistinctTail(nbrs: seq<Pos>)
    requires |nbrs| > 0 && Distinct(nbrs)
    ensures Distinct(nbrs[1..]) && nbrs[0] !in nbrs[1..]
  {
  }
}
