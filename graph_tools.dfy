/**
  Turning a maze drawn as text into a graph and into a 0/1 matrix
  (graph_tools.py). A maze is a list of text lines; '#' is a wall and every
  other character is an open cell, i.e. a node named by its (row, column).
 */
module GraphTools {
  import opened GraphSearch

  /** A maze cell (row, column), row 0 at the top. */
  type Cell = (int, int)

  /** Every line is as long as the first. */
  predicate Rectangular(maze: seq<string>) {
    forall i :: 0 <= i < |maze| ==> |maze[i]| == |maze[0]|
  }

  /** Rectangular, with a wall of '#' all around the border. */
  predicate Walled(maze: seq<string>) {
    && Rectangular(maze)
    && forall i, j :: 0 <= i < |maze| && 0 <= j < |maze[i]| && (i == 0 || i == |maze| - 1 || j == 0 || j == |maze[i]| - 1)
         ==> maze[i][j] == '#'
  }

  /** c lies inside the text and is not a wall. */
  predicate IsOpen(maze: seq<string>, c: Cell) {
    0 <= c.0 < |maze| && 0 <= c.1 < |maze[c.0]| && maze[c.0][c.1] != '#'
  }

  /** The four cells next to c, in the order west, south, east, north. */
  function Around(c: Cell): seq<Cell> {
    [(c.0, c.1 - 1), (c.0 + 1, c.1), (c.0, c.1 + 1), (c.0 - 1, c.1)]
  }

  /** The open cells of cs, in the order of cs. */
  function KeepOpen(maze: seq<string>, cs: seq<Cell>): seq<Cell> {
    if cs == [] then []
    else (if IsOpen(maze, cs[0]) then [cs[0]] else []) + KeepOpen(maze, cs[1..])
  }

  /** The open cells next to c, in the order west, south, east, north. */
  function OpenAround(maze: seq<string>, c: Cell): seq<Cell> {
    KeepOpen(maze, Around(c))
  }

  /** g is the graph of the maze: one node per open cell, linked to its open neighbours. */
  ghost predicate IsMazeGraph(maze: seq<string>, g: Graph<Cell>) {
    && (forall c :: c in g <==> IsOpen(maze, c))
    && (forall c :: c in g ==> g[c] == OpenAround(maze, c))
  }

  /** 1 for an open cell, 0 for a wall or a position past the end of its line. */
  function CellValue(maze: seq<string>, i: int, j: int): int {
    if IsOpen(maze, (i, j)) then 1 else 0
  }

  /**
    Parse maze text into an adjacency map (maze_text_to_graph): each open
    cell gets a list, to which its open neighbours to the west, south, east
    and north are appended in that order. The maze must be rectangular and
    walled in, so that every neighbour looked at lies inside the text.
   */
  method MazeTextToGraph(maze: seq<string>) returns (g: Graph<Cell>)
    requires Walled(maze)
    ensures IsMazeGraph(maze, g)
  {
    g := map[];
    for i := 0 to |maze|
      invariant Scanned(maze, g, i, 0)
    {
      var line := maze[i];
      for j := 0 to |line|
        invariant Scanned(maze, g, i, j)
      {
        if line[j] != '#' {
          var nbrs := OpenNeighbours(maze, i, j);
          ScanOpen(maze, g, i, j, nbrs);
          g := g[(i, j) := nbrs];
        } else {
          ScanWall(maze, g, i, j);
        }
      }
      ScanRow(maze, g, i);
    }
  }

  /**
    The open neighbours of the open cell (i, j), appended in the order west,
    south, east, north by testing the four adjacent characters.
   */
  method OpenNeighbours(maze: seq<string>, i: int, j: int) returns (nbrs: seq<Cell>)
    requires Walled(maze) && IsOpen(maze, (i, j))
    ensures nbrs == OpenAround(maze, (i, j))
  {
    OpenAroundInside(maze, (i, j));
    ghost var west := if maze[i][j - 1] != '#' then [(i, j - 1)] else [];
    ghost var south := if maze[i + 1][j] != '#' then [(i + 1, j)] else [];
    ghost var east := if maze[i][j + 1] != '#' then [(i, j + 1)] else [];
    ghost var north := if maze[i - 1][j] != '#' then [(i - 1, j)] else [];
    nbrs := [];
    if maze[i][j - 1] != '#' {
      nbrs := nbrs + [(i, j - 1)];
    }
    assert nbrs == west;
    if maze[i + 1][j] != '#' {
      nbrs := nbrs + [(i + 1, j)];
    }
    assert nbrs == west + south;
    if maze[i][j + 1] != '#' {
      nbrs := nbrs + [(i, j + 1)];
    }
    assert nbrs == west + south + east;
    if maze[i - 1][j] != '#' {
      nbrs := nbrs + [(i - 1, j)];
    }
    assert nbrs == west + south + east + north;
  }

  /**
    The cells before (i, j) in reading order have been scanned: g holds
    exactly the open ones, each with its open neighbours.
   */
  ghost predicate Scanned(maze: seq<string>, g: Graph<Cell>, i: int, j: int) {
    && (forall c :: c in g <==> IsOpen(maze, c) && (c.0 < i || (c.0 == i && c.1 < j)))
    && (forall c :: c in g ==> g[c] == OpenAround(maze, c))
  }

  /** Scanning an open cell adds it with its open neighbours. */
  lemma ScanOpen(maze: seq<string>, g: Graph<Cell>, i: int, j: int, nbrs: seq<Cell>)
    requires 0 <= i < |maze| && 0 <= j < |maze[i]| && maze[i][j] != '#'
    requires Scanned(maze, g, i, j) && nbrs == OpenAround(maze, (i, j))
    ensures Scanned(maze, g[(i, j) := nbrs], i, j + 1)
  {
  }

  /** Scanning a wall leaves the graph as it is. */
  lemma ScanWall(maze: seq<string>, g: Graph<Cell>, i: int, j: int)
    requires 0 <= i < |maze| && 0 <= j < |maze[i]| && maze[i][j] == '#'
    requires Scanned(maze, g, i, j)
    ensures Scanned(maze, g, i, j + 1)
  {
  }

  /** A fully scanned line is the same as the start of the next one. */
  lemma ScanRow(maze: seq<string>, g: Graph<Cell>, i: int)
    requires 0 <= i < |maze| && Scanned(maze, g, i, |maze[i]|)
    ensures Scanned(maze, g, i + 1, 0)
  {
  }

  /**
    Convert maze text into a matrix of 0 (wall) and 1 (open)
    (maze_text_to_matrix). The matrix has as many columns as the first line;
    it starts all 0, so a position past the end of a shorter line stays 0.
    A line longer than the first would index past the matrix, so it is
    excluded.
   */
  method MazeTextToMatrix(maze: seq<string>) returns (grid: array2<int>)
    requires |maze| > 0
    requires forall i :: 0 <= i < |maze| ==> |maze[i]| <= |maze[0]|
    ensures fresh(grid)
    ensures grid.Length0 == |maze| && grid.Length1 == |maze[0]|
    ensures forall i, j :: 0 <= i < |maze| && 0 <= j < |maze[0]| ==> grid[i, j] == CellValue(maze, i, j)
  {
    var nRows, nCols := |maze|, |maze[0]|;
    grid := new int[nRows, nCols]((i, j) => 0);
    for i := 0 to |maze|
      invariant forall r, c :: 0 <= r < nRows && 0 <= c < nCols ==>
                  grid[r, c] == if r < i then CellValue(maze, r, c) else 0
    {
      var line := maze[i];
      for j := 0 to |line|
        invariant forall r, c :: 0 <= r < nRows && 0 <= c < nCols ==>
                    grid[r, c] == if r < i || (r == i && c < j) then CellValue(maze, r, c) else 0
      {
        if line[j] == '#' {
          grid[i, j] := 0;
        } else {
          grid[i, j] := 1;
        }
      }
    }
  }

  /**
    Inside a walled maze the open neighbours of an open cell are found by
    testing the four adjacent characters directly.
   */
  lemma OpenAroundInside(maze: seq<string>, c: Cell)
    requires Walled(maze) && IsOpen(maze, c)
    ensures 0 < c.0 < |maze| - 1 && 0 < c.1 < |maze[c.0]| - 1
    ensures |maze[c.0 - 1]| == |maze[c.0 + 1]| == |maze[c.0]|
    ensures OpenAround(maze, c)
         == (if maze[c.0][c.1 - 1] != '#' then [(c.0, c.1 - 1)] else [])
          + (if maze[c.0 + 1][c.1] != '#' then [(c.0 + 1, c.1)] else [])
          + (if maze[c.0][c.1 + 1] != '#' then [(c.0, c.1 + 1)] else [])
          + (if maze[c.0 - 1][c.1] != '#' then [(c.0 - 1, c.1)] else [])
  {
    var cs := Around(c);
    assert cs[1..][1..][1..][1..] == [];
    assert KeepOpen(maze, cs[1..][1..][1..]) == (if maze[c.0 - 1][c.1] != '#' then [(c.0 - 1, c.1)] else []);
    assert KeepOpen(maze, cs[1..][1..]) == (if maze[c.0][c.1 + 1] != '#' then [(c.0, c.1 + 1)] else [])
      + KeepOpen(maze, cs[1..][1..][1..]);
    assert KeepOpen(maze, cs[1..]) == (if maze[c.0 + 1][c.1] != '#' then [(c.0 + 1, c.1)] else [])
      + KeepOpen(maze, cs[1..][1..]);
  }

  /** KeepOpen keeps exactly the open cells of its input. */
  lemma {:induction false} KeepOpenMembers(maze: seq<string>, cs: seq<Cell>)
    ensures |KeepOpen(maze, cs)| <= |cs|
    ensures forall d :: d in KeepOpen(maze, cs) <==> d in cs && IsOpen(maze, d)
  {
    if cs != [] {
      KeepOpenMembers(maze, cs[1..]);
      assert cs == [cs[0]] + cs[1..];
    }
  }

  /** KeepOpen preserves the order of its input. */
  lemma {:induction false} KeepOpenOrdered(maze: seq<string>, cs: seq<Cell>, c: Cell)
    requires forall k, l :: 0 <= k < l < |cs| ==> Direction(c, cs[k]) < Direction(c, cs[l])
    ensures var r := KeepOpen(maze, cs);
      forall k, l :: 0 <= k < l < |r| ==> Direction(c, r[k]) < Direction(c, r[l])
  {
    if cs != [] {
      KeepOpenOrdered(maze, cs[1..], c);
      KeepOpenMembers(maze, cs[1..]);
      var rest := KeepOpen(maze, cs[1..]);
      forall l | 0 <= l < |rest| ensures Direction(c, cs[0]) < Direction(c, rest[l]) {
        assert rest[l] in cs[1..];
      }
    }
  }

  /** Every neighbour listed is an open cell and hence a key: the graph is closed. */
  lemma MazeGraphClosed(maze: seq<string>, g: Graph<Cell>)
    requires IsMazeGraph(maze, g)
    ensures Closed(g)
  {
    forall c, k | c in g && 0 <= k < |g[c]| ensures g[c][k] in g {
      KeepOpenMembers(maze, Around(c));
      assert g[c][k] in OpenAround(maze, c);
    }
  }

  /** The edges out of an open cell go exactly to the open cells next to it. */
  lemma MazeEdges(maze: seq<string>, g: Graph<Cell>, a: Cell, b: Cell)
    requires IsMazeGraph(maze, g) && a in g
    ensures b in g[a] <==> b in Around(a) && IsOpen(maze, b)
  {
    KeepOpenMembers(maze, Around(a));
  }

  /** Adjacency in the maze graph is symmetric. */
  lemma MazeGraphSymmetric(maze: seq<string>, g: Graph<Cell>, a: Cell, b: Cell)
    requires IsMazeGraph(maze, g) && a in g && b in g
    ensures b in g[a] <==> a in g[b]
  {
    MazeEdges(maze, g, a, b);
    MazeEdges(maze, g, b, a);
  }

  /** Position of a neighbouring cell in the order west, south, east, north. */
  function Direction(c: Cell, d: Cell): nat {
    if d == (c.0, c.1 - 1) then 0
    else if d == (c.0 + 1, c.1) then 1
    else if d == (c.0, c.1 + 1) then 2
    else 3
  }

  /**
    A cell has at most four neighbours, listed in the order west, south,
    east, north, each at most once.
   */
  lemma MazeNeighbourOrder(maze: seq<string>, g: Graph<Cell>, c: Cell)
    requires IsMazeGraph(maze, g) && c in g
    ensures |g[c]| <= 4
    ensures forall k :: 0 <= k < |g[c]| ==> g[c][k] in Around(c)
    ensures forall k, l :: 0 <= k < l < |g[c]| ==> Direction(c, g[c][k]) < Direction(c, g[c][l])
  {
    KeepOpenMembers(maze, Around(c));
    KeepOpenOrdered(maze, Around(c), c);
  }

  /** The matrix and the graph agree on which cells are open. */
  lemma MatrixMatchesGraph(maze: seq<string>, g: Graph<Cell>, i: int, j: int)
    requires IsMazeGraph(maze, g)
    ensures CellValue(maze, i, j) == 1 <==> (i, j) in g
  {
  }

  // ---------------------------------------------------------------------
  // The docstring example
  // ---------------------------------------------------------------------

  function ExampleMaze(): seq<string> {
    ["#####", "#...#", "#.###", "#####"]
  }

  lemma ExampleOpenCells(c: Cell)
    ensures IsOpen(ExampleMaze(), c) <==> c in {(1, 1), (1, 2), (1, 3), (2, 1)}
  {
    var m := ExampleMaze();
    if IsOpen(m, c) {
      var i, j := c.0, c.1;
      assert i == 0 || i == 1 || i == 2 || i == 3;
      assert j == 0 || j == 1 || j == 2 || j == 3 || j == 4;
    }
  }

  lemma ExampleWalled()
    ensures Walled(ExampleMaze())
  {
    var m := ExampleMaze();
    forall i, j | 0 <= i < |m| && 0 <= j < |m[i]| && (i == 0 || i == |m| - 1 || j == 0 || j == |m[i]| - 1)
      ensures m[i][j] == '#'
    {
      if i == 0 || i == 3 {
        assert j == 0 || j == 1 || j == 2 || j == 3 || j == 4;
      }
    }
  }

  /** The open neighbours of each open cell of the example maze. */
  lemma ExampleOpenAround()
    ensures OpenAround(ExampleMaze(), (1, 1)) == [(2, 1), (1, 2)]
    ensures OpenAround(ExampleMaze(), (1, 2)) == [(1, 1), (1, 3)]
    ensures OpenAround(ExampleMaze(), (1, 3)) == [(1, 2)]
    ensures OpenAround(ExampleMaze(), (2, 1)) == [(1, 1)]
  {
    var m := ExampleMaze();
    ExampleWalled();
    OpenAroundInside(m, (1, 1));
    OpenAroundInside(m, (1, 2));
    OpenAroundInside(m, (1, 3));
    OpenAroundInside(m, (2, 1));
  }

  /** The keys of the example maze's graph are its four open cells. */
  lemma ExampleKeys(g: Graph<Cell>)
    requires IsMazeGraph(ExampleMaze(), g)
    ensures g.Keys == {(1, 1), (1, 2), (1, 3), (2, 1)}
  {
    forall c ensures c in g <==> c in {(1, 1), (1, 2), (1, 3), (2, 1)} {
      ExampleOpenCells(c);
    }
  }

  /** A graph on the four open cells holding their open neighbours is the docstring's graph. */
  lemma ExampleValues(g: Graph<Cell>)
    requires g.Keys == {(1, 1), (1, 2), (1, 3), (2, 1)}
    requires forall c :: c in g ==> g[c] == OpenAround(ExampleMaze(), c)
    ensures g == map[(1, 1) := [(2, 1), (1, 2)], (1, 2) := [(1, 1), (1, 3)], (1, 3) := [(1, 2)], (2, 1) := [(1, 1)]]
  {
    ExampleOpenAround();
  }

  /** The example maze yields exactly the graph its docstring shows. */
  lemma ExampleMazeGraph(g: Graph<Cell>)
    requires IsMazeGraph(ExampleMaze(), g)
    ensures g == map[(1, 1) := [(2, 1), (1, 2)], (1, 2) := [(1, 1), (1, 3)], (1, 3) := [(1, 2)], (2, 1) := [(1, 1)]]
  {
    ExampleKeys(g);
    ExampleValues(g);
  }
}
