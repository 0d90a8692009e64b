/** generate_maze_backtracking of maze_build.py: iterative depth-first
    carving with an explicit stack over the odd-coordinate cells of a
    (2n+1) x (2n+1) grid of '#' and '.'.  Points are (x, y) and the grid is
    indexed maze[y][x], as in the source.  random.shuffle is replaced by a
    caller-supplied function giving the direction order used at each pass of
    the main loop; every property below holds for every such choice. */
module MazeCarving {
  import opened Grid
  import opened GridPaths

  /** The two-cell moves (dx, dy) of the source: up, right, down, left. */
  const BaseDirs: seq<Point> := [(0, -2), (2, 0), (0, 2), (-2, 0)]

  /** A shuffled copy of BaseDirs. */
  ghost predicate IsShuffle(d: seq<Point>) {
    multiset(d) == multiset(BaseDirs)
  }

  /** A shuffle still holds each of the four moves, and nothing else. */
  lemma ShuffleHasAll(d: seq<Point>)
    requires IsShuffle(d)
    ensures |d| == 4
    ensures forall k :: 0 <= k < 4 ==> BaseDirs[k] in d
    ensures forall j :: 0 <= j < |d| ==> d[j] in BaseDirs
  {
    assert |multiset(d)| == |multiset(BaseDirs)|;
    forall k | 0 <= k < 4 ensures BaseDirs[k] in d {
      assert BaseDirs[k] in multiset(BaseDirs);
    }
    forall j | 0 <= j < |d| ensures d[j] in BaseDirs {
      assert d[j] in multiset(d);
    }
  }

  function Add(p: Point, d: Point): Point {
    (p.0 + d.0, p.1 + d.1)
  }

  /** The wall cell between p and p + d: (x + dx // 2, y + dy // 2).  For the
      even offsets used here, floor division and Dafny's division agree. */
  function Half(p: Point, d: Point): (w: Point)
    ensures d in BaseDirs ==> w == ((p.0 + Add(p, d).0) / 2, (p.1 + Add(p, d).1) / 2)
    ensures d in BaseDirs ==> Adjacent(p, w) && Adjacent(w, Add(p, d))
  {
    (p.0 + d.0 / 2, p.1 + d.1 / 2)
  }

  /** The bounds test of the source: 0 < x < grid_size - 1, same for y.  A
      point that passes it can be written in the (2n+1) x (2n+1) grid and is
      not on its border. */
  predicate Inside(n: int, p: Point)
    ensures Inside(n, p) ==> 0 <= p.0 < 2 * n + 1 && 0 <= p.1 < 2 * n + 1
    ensures Inside(n, p) ==> p.0 != 0 && p.0 != 2 * n && p.1 != 0 && p.1 != 2 * n
  {
    0 < p.0 < 2 * n && 0 < p.1 < 2 * n
  }

  /** A cell of the logical maze: odd coordinates strictly inside. */
  predicate IsCell(n: int, p: Point) {
    Inside(n, p) && p.0 % 2 == 1 && p.1 % 2 == 1
  }

  /** The cells (2i+1, 2y+1), i < k, of one row of the logical maze. */
  ghost function RowCells(y: int, k: nat): set<Point> {
    if k == 0 then {} else RowCells(y, k - 1) + {(2 * k - 1, 2 * y + 1)}
  }

  lemma {:induction false} RowMembers(y: int, k: nat)
    ensures forall p {:trigger p in RowCells(y, k)} :: p in RowCells(y, k) <==> p.1 == 2 * y + 1 && 0 < p.0 < 2 * k && p.0 % 2 == 1
  {
    if k > 0 {
      RowMembers(y, k - 1);
      assert RowCells(y, k) == RowCells(y, k - 1) + {(2 * k - 1, 2 * y + 1)};
    }
  }

  /** A row of k cells has k cells. */
  lemma {:induction false} RowSize(y: int, k: nat)
    ensures |RowCells(y, k)| == k
  {
    if k == 0 {
      assert RowCells(y, k) == {};
    } else {
      var a, c := RowCells(y, k - 1), (2 * k - 1, 2 * y + 1);
      assert RowCells(y, k) == a + {c};
      RowSize(y, k - 1);
      RowMembers(y, k - 1);
      assert c !in a;
      assert |a + {c}| == |a| + 1;
    }
  }

  /** The cells of the first r rows of a logical maze n cells wide. */
  ghost function BlockCells(r: nat, n: nat): set<Point> {
    if r == 0 then {} else BlockCells(r - 1, n) + RowCells(r - 1, n)
  }

  lemma {:induction false} BlockMembers(r: nat, n: nat)
    ensures forall p {:trigger p in BlockCells(r, n)} :: p in BlockCells(r, n) <==>
      0 < p.0 < 2 * n && p.0 % 2 == 1 && 0 < p.1 < 2 * r && p.1 % 2 == 1
  {
    if r > 0 {
      var a, b := BlockCells(r - 1, n), RowCells(r - 1, n);
      assert BlockCells(r, n) == a + b;
      BlockMembers(r - 1, n);
      RowMembers(r - 1, n);
      forall p: Point {:trigger p in a + b} ensures p in a + b <==> 0 < p.0 < 2 * n && p.0 % 2 == 1 && 0 < p.1 < 2 * r && p.1 % 2 == 1 {
        if p.1 < 2 * r - 2 {
          assert p !in b;
        } else if p.1 == 2 * r - 2 {
          assert p !in a && p !in b && p.1 % 2 == 0;
        } else if p.1 == 2 * r - 1 {
          assert p !in a;
        } else {
          assert p !in a && p !in b;
        }
      }
    }
  }

  /** Row r of the grid shares no cell with the rows above it. */
  lemma BlockRowDisjoint(r: nat, n: nat)
    ensures BlockCells(r, n) * RowCells(r, n) == {}
  {
    BlockMembers(r, n);
    RowMembers(r, n);
  }

  /** r rows of n cells make r * n cells. */
  lemma {:induction false} BlockSize(r: nat, n: nat)
    ensures |BlockCells(r, n)| == r * n
  {
    if r == 0 {
      assert BlockCells(r, n) == {};
    } else {
      BlockSize(r - 1, n);
      BlockGrows(r, n);
      OneMoreRow(r, n);
    }
  }

  /** Each further row adds n cells. */
  lemma BlockGrows(r: nat, n: nat)
    requires r > 0
    ensures |BlockCells(r, n)| == |BlockCells(r - 1, n)| + n
  {
    var a, b := BlockCells(r - 1, n), RowCells(r - 1, n);
    assert BlockCells(r, n) == a + b;
    RowSize(r - 1, n);
    BlockRowDisjoint(r - 1, n);
    DisjointSize(a, b);
  }

  lemma DisjointSize(a: set<Point>, b: set<Point>)
    requires a * b == {}
    ensures |a + b| == |a| + |b|
  {
  }

  lemma OneMoreRow(r: nat, n: nat)
    requires r > 0
    ensures r * n == (r - 1) * n + n
  {
  }

  /** The n * n logical cells. */
  ghost function Cells(n: nat): (s: set<Point>)
    ensures forall p {:trigger p in s} :: p in s <==> IsCell(n, p)
  {
    BlockMembers(n, n);
    BlockCells(n, n)
  }

  /** There are n * n of them. */
  lemma CellsSize(n: nat)
    ensures |Cells(n)| == n * n
  {
    BlockSize(n, n);
  }

  /** Two cells one move apart. */
  predicate TwoApart(a: Point, b: Point) {
    (a.1 == b.1 && (a.0 - b.0 == 2 || b.0 - a.0 == 2)) ||
    (a.0 == b.0 && (a.1 - b.1 == 2 || b.1 - a.1 == 2))
  }

  /** a and b are joined by a tree edge. */
  predicate Joined(parent: map<Point, Point>, a: Point, b: Point) {
    (a in parent && parent[a] == b) || (b in parent && parent[b] == a)
  }

  /** w is the wall cell between two cells joined by a tree edge. */
  predicate Passage(n: int, parent: map<Point, Point>, w: Point) {
    Inside(n, w) &&
    ((w.0 % 2 == 0 && w.1 % 2 == 1 && Joined(parent, (w.0 - 1, w.1), (w.0 + 1, w.1))) ||
     (w.0 % 2 == 1 && w.1 % 2 == 0 && Joined(parent, (w.0, w.1 - 1), (w.0, w.1 + 1))))
  }

  /** The carving so far as a tree rooted at start: every visited cell but
      start has a parent one move away that was visited before it. */
  ghost predicate Tree(n: int, start: Point, visited: set<Point>, parent: map<Point, Point>, order: map<Point, nat>) {
    start in visited && parent.Keys == visited - {start} && order.Keys == visited &&
    (forall p {:trigger p in visited} :: p in visited ==> IsCell(n, p)) &&
    (forall a {:trigger parent[a]} :: a in parent ==>
       parent[a] in visited && TwoApart(a, parent[a]) && order[parent[a]] < order[a])
  }

  /** The grid shows exactly the visited cells and the passages of the tree
      as '.', everything else as '#'. */
  ghost predicate Shows(maze: array2<char>, n: int, visited: set<Point>, parent: map<Point, Point>)
    reads maze
  {
    maze.Length0 == 2 * n + 1 && maze.Length1 == 2 * n + 1 &&
    forall y, x {:trigger maze[y, x]} :: 0 <= y < 2 * n + 1 && 0 <= x < 2 * n + 1 ==>
      maze[y, x] == if (x, y) in visited || Passage(n, parent, (x, y)) then OPEN else WALL
  }

  /** A cell none of whose neighbours one move away is an unvisited cell. */
  ghost predicate Finished(n: int, visited: set<Point>, p: Point) {
    forall k :: 0 <= k < 4 ==> !Inside(n, Add(p, BaseDirs[k])) || Add(p, BaseDirs[k]) in visited
  }

  /** Adding the edge nb -> cur to the tree adds exactly one passage: the
      wall between them. */
  lemma PassageGrows(n: int, parent: map<Point, Point>, visited: set<Point>, cur: Point, nb: Point)
    requires IsCell(n, cur) && IsCell(n, nb) && TwoApart(nb, cur)
    requires nb !in visited && parent.Keys <= visited
    requires forall a {:trigger parent[a]} :: a in parent ==> parent[a] in visited
    ensures forall w :: Passage(n, parent[nb := cur], w) <==>
      Passage(n, parent, w) || w == ((nb.0 + cur.0) / 2, (nb.1 + cur.1) / 2)
  {
    var p' := parent[nb := cur];
    var mid := ((nb.0 + cur.0) / 2, (nb.1 + cur.1) / 2);
    forall w ensures Passage(n, p', w) <==> Passage(n, parent, w) || w == mid {
      forall a, b ensures Joined(p', a, b) <==> Joined(parent, a, b) || (a == nb && b == cur) || (a == cur && b == nb) {
        if a in parent {
          assert parent[a] != nb;
        }
        if b in parent {
          assert parent[b] != nb;
        }
      }
    }
  }

  /** Lines 43-45: open the wall between cur and its new neighbour, then the
      neighbour itself. */
  method OpenPassage(maze: array2<char>, ghost n: int, cur: Point, d: Point,
                     ghost visited: set<Point>, ghost parent: map<Point, Point>)
    modifies maze
    requires Shows(maze, n, visited, parent)
    requires IsCell(n, cur) && IsCell(n, Add(cur, d)) && d in BaseDirs && Add(cur, d) !in visited
    requires parent.Keys <= visited && forall a {:trigger parent[a]} :: a in parent ==> parent[a] in visited
    ensures Shows(maze, n, visited + {Add(cur, d)}, parent[Add(cur, d) := cur])
  {
    var nb := Add(cur, d);
    var w := Half(cur, d);
    assert w == ((nb.0 + cur.0) / 2, (nb.1 + cur.1) / 2);
    PassageGrows(n, parent, visited, cur, nb);
    maze[w.1, w.0] := OPEN;
    maze[nb.1, nb.0] := OPEN;
  }

  /** A set of cells holding (1, 1) and closed under moves contains every
      cell. */
  lemma ClosedHoldsAll(n: nat, S: set<Point>)
    requires n >= 1 && (1, 1) in S
    requires forall p {:trigger Finished(n, S, p)} :: p in S ==> Finished(n, S, p)
    ensures Cells(n) <= S
  {
    forall p | p in Cells(n) ensures p in S {
      CellReached(n, S, p);
    }
  }

  /** Each cell is reached from (1, 1) by moves down, then right. */
  lemma {:induction false} CellReached(n: nat, S: set<Point>, p: Point)
    requires n >= 1 && (1, 1) in S
    requires forall p {:trigger Finished(n, S, p)} :: p in S ==> Finished(n, S, p)
    requires IsCell(n, p)
    ensures p in S
    decreases p.0 + p.1
  {
    if p.1 > 1 {
      var q := (p.0, p.1 - 2);
      CellReached(n, S, q);
      assert Finished(n, S, q);
      assert Add(q, BaseDirs[2]) == p;
    } else if p.0 > 1 {
      var q := (p.0 - 2, p.1);
      CellReached(n, S, q);
      assert Finished(n, S, q);
      assert Add(q, BaseDirs[1]) == p;
    }
  }

  /** The square at column x, row y of the finished maze: the cells, the
      walls between a cell and its parent, the entrance (0, 1) and the exit
      (2n, 2n - 1) are open. */
  ghost function PictureAt(n: int, parent: map<Point, Point>, x: int, y: int): char {
    if IsCell(n, (x, y)) || Passage(n, parent, (x, y)) || (x, y) == (0, 1) || (x, y) == (2 * n, 2 * n - 1)
    then OPEN else WALL
  }

  /** The finished maze as a value, rows first. */
  ghost function Picture(n: nat, parent: map<Point, Point>): (g: seq<seq<char>>)
    ensures |g| == 2 * n + 1
    ensures forall y :: 0 <= y < 2 * n + 1 ==> |g[y]| == 2 * n + 1
    ensures forall y, x :: 0 <= y < 2 * n + 1 && 0 <= x < 2 * n + 1 ==> g[y][x] == PictureAt(n, parent, x, y)
  {
    seq(2 * n + 1, y => seq(2 * n + 1, x => PictureAt(n, parent, x, y)))
  }

  /** What the main loop keeps: a tree over the visited cells whose order
      numbers stay below the number of visited cells, a stack of visited
      cells, and every visited cell off the stack finished. */
  ghost predicate Growing(n: int, visited: set<Point>, parent: map<Point, Point>, order: map<Point, nat>, stack: seq<Point>) {
    Tree(n, (1, 1), visited, parent, order) &&
    (forall p {:trigger order[p]} :: p in order ==> order[p] < |visited|) &&
    (forall i :: 0 <= i < |stack| ==> stack[i] in visited) &&
    (forall p {:trigger Finished(n, visited, p)} :: p in visited && p !in stack ==> Finished(n, visited, p)) &&
    visited <= Cells(n)
  }

  /** A cell plus a move that stays inside is a cell. */
  lemma MoveToCell(n: int, cur: Point, d: Point)
    requires IsCell(n, cur) && d in BaseDirs && Inside(n, Add(cur, d))
    ensures IsCell(n, Add(cur, d)) && TwoApart(Add(cur, d), cur)
  {
  }

  /** Finishing is kept when more cells are visited. */
  lemma FinishedGrows(n: int, V: set<Point>, W: set<Point>, p: Point)
    requires V <= W && Finished(n, V, p)
    ensures Finished(n, W, p)
  {
    forall k | 0 <= k < 4 ensures !Inside(n, Add(p, BaseDirs[k])) || Add(p, BaseDirs[k]) in W {
    }
  }

  /** maze_build.py:43-48: carving from the top of the stack into an
      unvisited neighbour keeps the invariant, and that neighbour is a new
      cell. */
  lemma Push(n: int, visited: set<Point>, parent: map<Point, Point>, order: map<Point, nat>, stack: seq<Point>, d: Point)
    requires Growing(n, visited, parent, order, stack) && |stack| > 0 && d in BaseDirs
    requires Inside(n, Add(stack[|stack| - 1], d)) && Add(stack[|stack| - 1], d) !in visited
    ensures Add(stack[|stack| - 1], d) in Cells(n) && IsCell(n, stack[|stack| - 1])
    ensures var cur := stack[|stack| - 1]; var next := Add(cur, d);
      Growing(n, visited + {next}, parent[next := cur], order[next := |visited|], stack + [next])
  {
    var cur := stack[|stack| - 1];
    var next := Add(cur, d);
    assert cur in visited;
    MoveToCell(n, cur, d);
    var V, P, O, S := visited + {next}, parent[next := cur], order[next := |visited|], stack + [next];
    forall a {:trigger P[a]} | a in P ensures P[a] in V && TwoApart(a, P[a]) && O[P[a]] < O[a] {
      if a != next {
        assert a in parent && parent[a] in visited && parent[a] != next;
      }
    }
    assert Tree(n, (1, 1), V, P, O);
    forall i | 0 <= i < |S| ensures S[i] in V {
      if i < |stack| {
        assert S[i] == stack[i];
      }
    }
    forall p {:trigger Finished(n, V, p)} | p in V && p !in S ensures Finished(n, V, p) {
      assert p != next && p in visited && p !in stack;
      FinishedGrows(n, visited, V, p);
    }
  }

  /** maze_build.py:52-53: a finished cell leaves the stack. */
  lemma Pop(n: int, visited: set<Point>, parent: map<Point, Point>, order: map<Point, nat>, stack: seq<Point>)
    requires Growing(n, visited, parent, order, stack) && |stack| > 0
    requires Finished(n, visited, stack[|stack| - 1])
    ensures Growing(n, visited, parent, order, stack[..|stack| - 1])
  {
    var S := stack[..|stack| - 1];
    assert stack == S + [stack[|stack| - 1]];
  }

  /** When the stack is empty every cell has been visited once. */
  lemma Finish(n: nat, visited: set<Point>, parent: map<Point, Point>, order: map<Point, nat>)
    requires n >= 1 && Growing(n, visited, parent, order, [])
    ensures visited == Cells(n) && |visited| == n * n
    ensures Tree(n, (1, 1), Cells(n), parent, order)
  {
    ClosedHoldsAll(n, visited);
    assert visited == Cells(n);
    CellsSize(n);
  }

  /** maze_build.py:35-50: the first direction of dirs, in order, whose
      target is inside and unvisited, if any. */
  method FindMove(n: int, cur: Point, dirs: seq<Point>, visited: set<Point>) returns (found: bool, k: nat)
    ensures found ==> k < |dirs| && Inside(n, Add(cur, dirs[k])) && Add(cur, dirs[k]) !in visited
    ensures found ==> forall j :: 0 <= j < k ==> !Inside(n, Add(cur, dirs[j])) || Add(cur, dirs[j]) in visited
    ensures !found ==> forall j :: 0 <= j < |dirs| ==> !Inside(n, Add(cur, dirs[j])) || Add(cur, dirs[j]) in visited
  {
    var gridSize := 2 * n + 1;
    found, k := false, 0;
    while k < |dirs|
      invariant 0 <= k <= |dirs|
      invariant forall j :: 0 <= j < k ==> !Inside(n, Add(cur, dirs[j])) || Add(cur, dirs[j]) in visited
    {
      var next := Add(cur, dirs[k]);
      if 0 < next.0 < gridSize - 1 && 0 < next.1 < gridSize - 1 && next !in visited {
        found := true;
        return;
      }
      k := k + 1;
    }
  }

  /** maze_build.py:56-57: open the entrance and the exit. */
  method OpenDoors(maze: array2<char>, ghost n: nat, ghost parent: map<Point, Point>)
    modifies maze
    requires n >= 1 && Shows(maze, n, Cells(n), parent)
    ensures forall y, x {:trigger maze[y, x]} :: 0 <= y < 2 * n + 1 && 0 <= x < 2 * n + 1 ==> maze[y, x] == PictureAt(n, parent, x, y)
  {
    var gridSize := maze.Length0;
    maze[1, 0] := OPEN;
    maze[gridSize - 2, gridSize - 1] := OPEN;
  }

  /** One pass of the main loop, maze_build.py:31-53: carve from the top of
      the stack into the first unvisited neighbour in the order dirs, or pop
      the top when it has none. */
  method Advance(maze: array2<char>, n: int, dirs: seq<Point>, stack: seq<Point>, visited: set<Point>,
                 ghost parent: map<Point, Point>, ghost order: map<Point, nat>)
    returns (stack': seq<Point>, visited': set<Point>, ghost parent': map<Point, Point>, ghost order': map<Point, nat>)
    modifies maze
    requires IsShuffle(dirs) && |stack| > 0
    requires Shows(maze, n, visited, parent) && Growing(n, visited, parent, order, stack)
    ensures Shows(maze, n, visited', parent') && Growing(n, visited', parent', order', stack')
    ensures var cur := stack[|stack| - 1];
      (exists next :: next in Cells(n) - visited && visited' == visited + {next} && stack' == stack + [next] &&
                      parent' == parent[next := cur] && order' == order[next := |visited|]) ||
      (Finished(n, visited, cur) && visited' == visited && stack' == stack[..|stack| - 1] &&
       parent' == parent && order' == order)
  {
    var cur := stack[|stack| - 1];
    ShuffleHasAll(dirs);
    var found, k := FindMove(n, cur, dirs, visited);
    if found {
      var d := dirs[k];
      var next := Add(cur, d);
      Push(n, visited, parent, order, stack, d);
      OpenPassage(maze, n, cur, d, visited, parent);
      parent' := parent[next := cur];
      order' := order[next := |visited|];
      stack' := stack + [next];
      visited' := visited + {next};
    } else {
      assert Finished(n, visited, cur) by {
        forall k | 0 <= k < 4 ensures !Inside(n, Add(cur, BaseDirs[k])) || Add(cur, BaseDirs[k]) in visited {
          var j :| 0 <= j < |dirs| && dirs[j] == BaseDirs[k];
        }
      }
      Pop(n, visited, parent, order, stack);
      stack', visited', parent', order' := stack[..|stack| - 1], visited, parent, order;
    }
  }

  /** generate_maze_backtracking(n).  The result is (2n+1) x (2n+1), holds
      only '#' and '.', opens every cell of the logical maze and, on the
      border, only the entrance (row 1, column 0) and the exit (row 2n-1,
      column 2n).  The other open positions are the walls between a cell
      and its parent in a tree over all n * n cells, so the maze is perfect.
      The main loop runs 2n^2 - 1 times: one push and one pop per cell, the
      start cell being pushed before the loop. */
  method GenerateBacktracking(n: nat, shuffle: nat -> seq<Point>)
    returns (maze: array2<char>, ghost parent: map<Point, Point>, ghost order: map<Point, nat>, steps: nat)
    requires n >= 1
    requires forall i :: IsShuffle(shuffle(i))
    ensures fresh(maze) && maze.Length0 == 2 * n + 1 && maze.Length1 == 2 * n + 1
    ensures forall y, x {:trigger maze[y, x]} :: 0 <= y < 2 * n + 1 && 0 <= x < 2 * n + 1 ==> maze[y, x] == PictureAt(n, parent, x, y)
    ensures Tree(n, (1, 1), Cells(n), parent, order)
    ensures steps == 2 * (n * n) - 1
  {
    var gridSize := 2 * n + 1;
    maze := new char[gridSize, gridSize]((_, _) => WALL);
    var stack: seq<Point> := [];
    var visited: set<Point> := {};
    var start := (1, 1);
    parent, order, steps := map[], map[start := 0], 0;

    maze[start.1, start.0] := OPEN;
    stack := stack + [start];
    visited := visited + {start};
    assert Shows(maze, n, visited, parent);

    while |stack| > 0
      invariant Shows(maze, n, visited, parent)
      invariant Growing(n, visited, parent, order, stack)
      invariant steps == 2 * |visited| - 1 - |stack|
      decreases Cells(n) - visited, |stack|
    {
      var dirs := shuffle(steps);
      stack, visited, parent, order := Advance(maze, n, dirs, stack, visited, parent, order);
      steps := steps + 1;
    }

    Finish(n, visited, parent, order);
    OpenDoors(maze, n, parent);
  }
}
