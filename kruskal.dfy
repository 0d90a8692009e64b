/** generate_maze_kruskal of maze_build.py: list every wall between two
    horizontally or vertically adjacent cells, shuffle the list, and open a
    wall whenever union-find says its two cells are still in different
    sets.  Cells are (x, y) with 0 <= x < width and 0 <= y < height; the
    grid is 0/1 (1 = wall), (2 height + 1) x (2 width + 1), indexed
    maze[row][column] = maze[2y + 1][2x + 1] for cell (x, y).
    random.shuffle is a caller-supplied function that permutes the list. */
module MazeKruskal {
  import opened GridPaths
  import opened DisjointSets
  import opened SquareLinks

  /** A pair of cells, as the source's ((x1, y1), (x2, y2)). */
  type Edge = (Point, Point)

  /** A wall of the source's list: a cell and its right or lower neighbour. */
  predicate IsCandidate(width: int, height: int, e: Edge) {
    var (a, b) := e;
    0 <= a.0 < width && 0 <= a.1 < height &&
    ((b == (a.0 + 1, a.1) && a.0 < width - 1) || (b == (a.0, a.1 + 1) && a.1 < height - 1))
  }

  /** Cell (x, y) comes before cell p in the source's row-by-row scan. */
  predicate Before(p: Point, x: int, y: int) {
    p.1 < y || (p.1 == y && p.0 < x)
  }

  /** The walls listed for one full row y. */
  function RowCount(width: nat, height: nat, y: int): nat {
    (if width > 0 then width - 1 else 0) + (if y < height - 1 then width else 0)
  }

  /** The walls listed for rows 0 .. y - 1. */
  function RowsCount(width: nat, height: nat, y: nat): nat {
    if y == 0 then 0 else RowsCount(width, height, y - 1) + RowCount(width, height, y - 1)
  }

  /** All rows give (width - 1) * height right walls and width * (height - 1)
      lower walls. */
  lemma {:induction false} RowsCountIs(width: nat, height: nat, y: nat)
    requires width >= 1 && 1 <= height && y <= height
    ensures RowsCount(width, height, y) == (width - 1) * y + width * (if y < height then y else y - 1)
  {
    if y > 0 {
      var k := y - 1;
      RowsCountIs(width, height, k);
      assert RowsCount(width, height, k) == (width - 1) * k + width * k;
      MulSucc(width - 1, y);
      if y < height {
        MulSucc(width, y);
        assert RowCount(width, height, k) == (width - 1) + width;
      } else {
        assert RowCount(width, height, k) == width - 1;
      }
    }
  }

  lemma MulSucc(a: int, y: int)
    ensures a * y == a * (y - 1) + a
  {
  }

  /** The edge list of maze_build.py:150-156, built by the same nested loops.
      It holds each candidate wall exactly once, in scan order of its first
      cell, and (width - 1) * height + width * (height - 1) of them. */
  method CandidateEdges(width: nat, height: nat) returns (edges: seq<Edge>)
    ensures forall e :: e in edges <==> IsCandidate(width, height, e)
    ensures forall i, j :: 0 <= i < j < |edges| ==> edges[i] != edges[j]
    ensures width >= 1 && height >= 1 ==> |edges| == (width - 1) * height + width * (height - 1)
    ensures width == 0 || height == 0 ==> edges == []
  {
    edges := [];
    var y := 0;
    while y < height
      invariant 0 <= y <= height
      invariant forall e {:trigger e in edges} :: e in edges <==> IsCandidate(width, height, e) && Before(e.0, 0, y)
      invariant forall i, j :: 0 <= i < j < |edges| ==> edges[i] != edges[j]
      invariant |edges| == RowsCount(width, height, y)
      invariant width == 0 ==> edges == []
    {
      var x := 0;
      while x < width
        invariant 0 <= x <= width
        invariant forall e {:trigger e in edges} :: e in edges <==> IsCandidate(width, height, e) && Before(e.0, x, y)
        invariant forall i, j :: 0 <= i < j < |edges| ==> edges[i] != edges[j]
        invariant |edges| == RowsCount(width, height, y) + (if x == width && width > 0 then width - 1 else x) + (if y < height - 1 then x else 0)
      {
        var old_edges := edges;
        assert ((x, y), (x + 1, y)) !in old_edges && ((x, y), (x, y + 1)) !in old_edges;
        if x < width - 1 {
          edges := edges + [((x, y), (x + 1, y))];
        }
        if y < height - 1 {
          edges := edges + [((x, y), (x, y + 1))];
        }
        assert forall e {:trigger e in edges} :: e in edges <==> e in old_edges || (IsCandidate(width, height, e) && e.0 == (x, y));
        assert forall i, j :: 0 <= i < |old_edges| <= j < |edges| ==> edges[i] in old_edges && edges[j] !in old_edges;
        x := x + 1;
      }
      y := y + 1;
    }
    if width >= 1 && height >= 1 {
      RowsCountIs(width, height, height);
    }
  }

  /** A cell of the width x height grid. */
  predicate IsCell(width: int, height: int, p: Point) {
    0 <= p.0 < width && 0 <= p.1 < height
  }

  /** cell_id(x, y) = y * width + x, maze_build.py:147-148. */
  function CellId(width: int, p: Point): (id: int)
    ensures width > 0 && 0 <= p.0 < width && p.1 >= 0 ==> id % width == p.0 && id / width == p.1
  {
    if width > 0 && 0 <= p.0 < width && p.1 >= 0 then
      DivUnique(width, p.1, p.0);
      p.1 * width + p.0
    else
      p.1 * width + p.0
  }

  /** The cell an id stands for (the inverse of cell_id). */
  function CellOf(width: int, id: int): Point
    requires width > 0
  {
    (id % width, id / width)
  }

  /** A cell's id is a valid union-find element. */
  lemma CellIdInRange(width: nat, height: nat, p: Point)
    requires IsCell(width, height, p)
    ensures 0 <= CellId(width, p) < width * height
  {
    IdRange(width, height, p.0, p.1);
  }

  lemma IdRange(width: int, height: int, x: int, y: int)
    requires 0 <= x < width && 0 <= y < height
    ensures 0 <= y * width + x < width * height
  {
    assert y * width <= (height - 1) * width;
    assert (height - 1) * width + width == width * height;
  }

  lemma MulGrows(w: int, k: int)
    requires w > 0 && k >= 1
    ensures w * k >= w
  {
  }

  lemma MulMonotone(w: int, a: int, b: int)
    requires w >= 0 && a <= b
    ensures a * w <= b * w
  {
    assert b * w - a * w == (b - a) * w;
  }

  /** Euclidean division of q * w + r by w gives back q and r. */
  lemma DivUnique(w: int, q: int, r: int)
    requires w > 0 && q >= 0 && 0 <= r < w
    ensures (q * w + r) / w == q && (q * w + r) % w == r
  {
    var id := q * w + r;
    var q', r' := id / w, id % w;
    assert w * (q' - q) == r - r';
    if q' - q >= 1 {
      MulGrows(w, q' - q);
    } else if q - q' >= 1 {
      MulGrows(w, q - q');
    }
  }

  /** cell_id is one-to-one: the id of a cell gives the cell back. */
  lemma CellOfId(width: nat, p: Point)
    requires width > 0 && 0 <= p.0 < width && p.1 >= 0
    ensures CellOf(width, CellId(width, p)) == p
  {
    DivUnique(width, p.1, p.0);
  }

  /** Every id below width * height is the id of a cell. */
  lemma IdIsCell(width: nat, height: nat, id: int)
    requires width > 0 && 0 <= id < width * height
    ensures IsCell(width, height, CellOf(width, id)) && CellId(width, CellOf(width, id)) == id
  {
    var q := id / width;
    assert id == q * width + id % width;
    if q >= height {
      MulMonotone(width, height, q);
    }
  }

  /** The square of a cell, (row, column) = (2y + 1, 2x + 1). */
  function Square(p: Point): Pos {
    (2 * p.1 + 1, 2 * p.0 + 1)
  }

  /** The square of the wall between the two cells of an edge. */
  function WallOf(e: Edge): Pos {
    (e.0.1 + e.1.1 + 1, e.0.0 + e.1.0 + 1)
  }

  /** The three squares an accepted edge opens: both cells and the wall
      between them, maze_build.py:164-166. */
  function EdgeSquares(e: Edge): set<Pos> {
    {Square(e.0), Square(e.1), WallOf(e)}
  }

  /** The squares opened by a sequence of accepted edges. */
  function Opened(accepted: seq<Edge>): set<Pos> {
    if accepted == [] then {} else Opened(accepted[..|accepted| - 1]) + EdgeSquares(accepted[|accepted| - 1])
  }

  /** Accepting one more edge opens its three squares. */
  lemma OpenedSnoc(accepted: seq<Edge>, e: Edge)
    ensures Opened(accepted + [e]) == Opened(accepted) + EdgeSquares(e)
  {
    assert (accepted + [e])[..|accepted|] == accepted;
  }

  /** The wall of a candidate edge is adjacent to both its cells. */
  lemma WallBetween(width: int, height: int, e: Edge)
    requires IsCandidate(width, height, e)
    ensures Adjacent(Square(e.0), WallOf(e)) && Adjacent(WallOf(e), Square(e.1))
  {
  }

  /** The entrance maze[1][0] and the exit maze[2 height - 1][2 width],
      maze_build.py:169-170. */
  predicate IsDoor(width: int, height: int, q: Pos) {
    q == (1, 0) || q == (2 * height - 1, 2 * width)
  }

  /** The square at (r, c) of a 0/1 maze whose open squares are the doors
      and the squares of S. */
  function KruskalAt(width: int, height: int, S: set<Pos>, r: int, c: int): int {
    if (r, c) in S || IsDoor(width, height, (r, c)) then 0 else 1
  }

  /** Every two distinct cells are linked through the squares of S. */
  ghost predicate Connects(width: int, height: int, S: set<Pos>) {
    forall a, b {:trigger Linked(S, Square(a), Square(b))} ::
      IsCell(width, height, a) && IsCell(width, height, b) && a != b ==> Linked(S, Square(a), Square(b))
  }

  /** The invariant of Kruskal's loop: two distinct cells in the same set
      are linked through the squares the accepted edges opened. */
  ghost predicate Joins(width: nat, p: seq<nat>, rank: seq<nat>, maxRank: nat, accepted: seq<Edge>)
    requires width > 0 && Forest(p, rank, maxRank)
  {
    forall i, j {:trigger Root(p, rank, maxRank, i), Root(p, rank, maxRank, j)} ::
      0 <= i < |p| && 0 <= j < |p| && i != j && Root(p, rank, maxRank, i) == Root(p, rank, maxRank, j) ==>
        Linked(Opened(accepted), Square(CellOf(width, i)), Square(CellOf(width, j)))
  }

  /** Both cells of an edge are in the same set. */
  ghost predicate EdgeJoined(width: int, p: seq<nat>, rank: seq<nat>, maxRank: nat, e: Edge)
    requires Forest(p, rank, maxRank)
  {
    0 <= CellId(width, e.0) < |p| && 0 <= CellId(width, e.1) < |p| &&
    Root(p, rank, maxRank, CellId(width, e.0)) == Root(p, rank, maxRank, CellId(width, e.1))
  }

  /** At the start every element is its own set, so nothing needs a link. */
  lemma FreshJoins(width: nat, p: seq<nat>, rank: seq<nat>, maxRank: nat)
    requires width > 0 && Forest(p, rank, maxRank)
    requires forall i :: 0 <= i < |p| ==> p[i] == i
    ensures Joins(width, p, rank, maxRank, [])
  {
  }

  /** Edges already joined stay joined by a union. */
  lemma JoinedKept(width: int, p: seq<nat>, rank: seq<nat>, maxRank: nat, p': seq<nat>, rank': seq<nat>, maxRank': nat,
                   x: nat, y: nat, e: Edge)
    requires Relinked(p, rank, maxRank, p', rank', maxRank', x, y) && EdgeJoined(width, p, rank, maxRank, e)
    ensures EdgeJoined(width, p', rank', maxRank', e)
  {
  }

  /** A cell of y's old set is linked, after accepting e = (a, b) with
      x = id(a) and y = id(b), to every cell of x's old set: through b, the
      wall of e and a. */
  lemma CrossLink(width: nat, height: nat, p: seq<nat>, rank: seq<nat>, maxRank: nat, accepted: seq<Edge>, e: Edge,
                  x: nat, y: nat, i: nat, j: nat)
    requires width > 0 && Forest(p, rank, maxRank) && Joins(width, p, rank, maxRank, accepted)
    requires IsCandidate(width, height, e) && x == CellId(width, e.0) && y == CellId(width, e.1)
    requires x < |p| && y < |p| && i < |p| && j < |p|
    requires Root(p, rank, maxRank, i) == Root(p, rank, maxRank, y) && Root(p, rank, maxRank, j) == Root(p, rank, maxRank, x)
    ensures Linked(Opened(accepted + [e]), Square(CellOf(width, i)), Square(CellOf(width, j)))
  {
    var S, S' := Opened(accepted), Opened(accepted + [e]);
    OpenedSnoc(accepted, e);
    CellOfId(width, e.0);
    CellOfId(width, e.1);
    var a, b := Square(e.0), Square(e.1);
    if i == y {
      LinkedSelf(S', b);
    } else {
      LinkedGrows(S, S', Square(CellOf(width, i)), b);
    }
    WallBetween(width, height, e);
    AdjacentSymmetric(a, WallOf(e));
    AdjacentSymmetric(WallOf(e), b);
    LinkedStep(S', b, WallOf(e));
    LinkedStep(S', WallOf(e), a);
    LinkedTransitive(S', b, WallOf(e), a);
    LinkedTransitive(S', Square(CellOf(width, i)), b, a);
    if j == x {
    } else {
      LinkedGrows(S, S', a, Square(CellOf(width, j)));
      LinkedTransitive(S', Square(CellOf(width, i)), a, Square(CellOf(width, j)));
    }
  }

  /** One pass of Kruskal's loop keeps the invariant: when union merged the
      two sets the edge is accepted, otherwise nothing changes. */
  lemma JoinsStep(width: nat, height: nat, p: seq<nat>, rank: seq<nat>, maxRank: nat,
                  p': seq<nat>, rank': seq<nat>, maxRank': nat, accepted: seq<Edge>, e: Edge, x: nat, y: nat)
    requires width > 0 && Relinked(p, rank, maxRank, p', rank', maxRank', x, y)
    requires IsCandidate(width, height, e) && x == CellId(width, e.0) && y == CellId(width, e.1)
    requires Joins(width, p, rank, maxRank, accepted)
    ensures Joins(width, p', rank', maxRank',
      if Root(p, rank, maxRank, x) != Root(p, rank, maxRank, y) then accepted + [e] else accepted)
  {
    if Root(p, rank, maxRank, x) != Root(p, rank, maxRank, y) {
      forall i, j | 0 <= i < |p'| && 0 <= j < |p'| && i != j && Root(p', rank', maxRank', i) == Root(p', rank', maxRank', j)
        ensures Linked(Opened(accepted + [e]), Square(CellOf(width, i)), Square(CellOf(width, j)))
      {
        JoinPair(width, height, p, rank, maxRank, p', rank', maxRank', accepted, e, x, y, i, j);
      }
    }
  }

  /** Two cells in one set after the merge: they were in one set before,
      or one was in x's set and the other in y's. */
  lemma JoinPair(width: nat, height: nat, p: seq<nat>, rank: seq<nat>, maxRank: nat,
                 p': seq<nat>, rank': seq<nat>, maxRank': nat, accepted: seq<Edge>, e: Edge, x: nat, y: nat,
                 i: nat, j: nat)
    requires width > 0 && Relinked(p, rank, maxRank, p', rank', maxRank', x, y)
    requires IsCandidate(width, height, e) && x == CellId(width, e.0) && y == CellId(width, e.1)
    requires Joins(width, p, rank, maxRank, accepted)
    requires i < |p| && j < |p| && i != j && Root(p', rank', maxRank', i) == Root(p', rank', maxRank', j)
    ensures Linked(Opened(accepted + [e]), Square(CellOf(width, i)), Square(CellOf(width, j)))
  {
    var rx, ry := Root(p, rank, maxRank, x), Root(p, rank, maxRank, y);
    var S, S' := Opened(accepted), Opened(accepted + [e]);
    OpenedSnoc(accepted, e);
    var ri, rj := Root(p, rank, maxRank, i), Root(p, rank, maxRank, j);
    if ri == rj {
      LinkedGrows(S, S', Square(CellOf(width, i)), Square(CellOf(width, j)));
    } else if ri == ry {
      CrossLink(width, height, p, rank, maxRank, accepted, e, x, y, i, j);
    } else {
      CrossLink(width, height, p, rank, maxRank, accepted, e, x, y, j, i);
      LinkedSymmetric(S', Square(CellOf(width, j)), Square(CellOf(width, i)));
    }
  }

  /** maze_build.py:164-166: set both cells of an edge and the wall between
      them to 0, leaving every other square as it was. */
  method OpenEdge(maze: array2<int>, width: nat, height: nat, e: Edge)
    modifies maze
    requires maze.Length0 == 2 * height + 1 && maze.Length1 == 2 * width + 1
    requires IsCandidate(width, height, e)
    ensures forall r, c {:trigger maze[r, c]} :: 0 <= r < 2 * height + 1 && 0 <= c < 2 * width + 1 ==>
      maze[r, c] == if (r, c) in EdgeSquares(e) then 0 else old(maze[r, c])
  {
    var a, b := e.0, e.1;
    maze[2 * a.1 + 1, 2 * a.0 + 1] := 0;
    maze[2 * b.1 + 1, 2 * b.0 + 1] := 0;
    maze[a.1 + b.1 + 1, a.0 + b.0 + 1] := 0;
  }

  /** What holds of the union-find lists between passes of Kruskal's loop:
      a forest over the width * height cell ids, cells in one set are linked
      through the squares the accepted edges opened, every accepted edge is
      a candidate wall, and both cells of every edge seen so far are in one
      set. */
  ghost predicate KruskalState(width: nat, height: nat, p: seq<nat>, rank: seq<nat>, maxRank: nat,
                               accepted: seq<Edge>, edges: seq<Edge>, n: nat) {
    n <= |edges| && Forest(p, rank, maxRank) && |p| == width * height &&
    (width > 0 ==> Joins(width, p, rank, maxRank, accepted)) &&
    (forall k :: 0 <= k < |accepted| ==> IsCandidate(width, height, accepted[k])) &&
    forall k :: 0 <= k < n ==> EdgeJoined(width, p, rank, maxRank, edges[k])
  }

  /** The state after union(id(a), id(b)) for the n-th edge (a, b): the
      edge is accepted exactly when the two roots differed. */
  lemma StateStep(width: nat, height: nat, p: seq<nat>, rank: seq<nat>, maxRank: nat,
                  p': seq<nat>, rank': seq<nat>, maxRank': nat, accepted: seq<Edge>, edges: seq<Edge>, n: nat)
    requires KruskalState(width, height, p, rank, maxRank, accepted, edges, n) && n < |edges|
    requires IsCandidate(width, height, edges[n])
    requires 0 <= CellId(width, edges[n].0) < |p| && 0 <= CellId(width, edges[n].1) < |p|
    requires Relinked(p, rank, maxRank, p', rank', maxRank', CellId(width, edges[n].0), CellId(width, edges[n].1))
    requires Root(p', rank', maxRank', CellId(width, edges[n].0)) == Root(p', rank', maxRank', CellId(width, edges[n].1))
    ensures KruskalState(width, height, p', rank', maxRank',
      if Root(p, rank, maxRank, CellId(width, edges[n].0)) != Root(p, rank, maxRank, CellId(width, edges[n].1))
      then accepted + [edges[n]] else accepted, edges, n + 1)
  {
    var e, x, y := edges[n], CellId(width, edges[n].0), CellId(width, edges[n].1);
    var accepted' := if Root(p, rank, maxRank, x) != Root(p, rank, maxRank, y) then accepted + [e] else accepted;
    forall k | 0 <= k < n + 1 ensures EdgeJoined(width, p', rank', maxRank', edges[k]) {
      if k < n {
        JoinedKept(width, p, rank, maxRank, p', rank', maxRank', x, y, edges[k]);
      }
    }
    if width > 0 {
      JoinsStep(width, height, p, rank, maxRank, p', rank', maxRank', accepted, e, x, y);
    }
    assert forall k :: 0 <= k < |accepted'| ==> IsCandidate(width, height, accepted'[k]);
    assert Forest(p', rank', maxRank') && |p'| == width * height;
  }

  /** One pass of maze_build.py:161-166 on the n-th edge: union its cells
      and, if that merged two sets, open its squares; the edge is then
      accepted. */
  method CarveOne(maze: array2<int>, uf: UnionFind, width: nat, height: nat, edges: seq<Edge>, n: nat,
                  ghost accepted: seq<Edge>)
    returns (merged: bool)
    modifies maze, uf
    requires maze.Length0 == 2 * height + 1 && maze.Length1 == 2 * width + 1
    requires n < |edges| && IsCandidate(width, height, edges[n])
    requires KruskalState(width, height, uf.parent, uf.rank, uf.maxRank, accepted, edges, n)
    ensures KruskalState(width, height, uf.parent, uf.rank, uf.maxRank,
      if merged then accepted + [edges[n]] else accepted, edges, n + 1)
    ensures merged ==> |uf.Roots()| + 1 == old(|uf.Roots()|)
    ensures !merged ==> uf.Roots() == old(uf.Roots())
    ensures forall r, c {:trigger maze[r, c]} :: 0 <= r < 2 * height + 1 && 0 <= c < 2 * width + 1 ==>
      maze[r, c] == if merged && (r, c) in EdgeSquares(edges[n]) then 0 else old(maze[r, c])
  {
    var e := edges[n];
    CellIdInRange(width, height, e.0);
    CellIdInRange(width, height, e.1);
    ghost var p, rank, maxRank := uf.parent, uf.rank, uf.maxRank;
    merged := uf.Union(CellId(width, e.0), CellId(width, e.1));
    StateStep(width, height, p, rank, maxRank, uf.parent, uf.rank, uf.maxRank, accepted, edges, n);
    if merged {
      OpenEdge(maze, width, height, e);
    }
  }

  /** The loop of maze_build.py:161-166: for each edge in order, union its two
      cells and, when they were in different sets, open both cells and the
      wall between them.  Each acceptance removes one set, so the number of
      sets plus the number of accepted edges stays what it was; the cells of
      every edge end in one set, and cells in one set are linked through the
      opened squares. */
  method Carve(maze: array2<int>, uf: UnionFind, width: nat, height: nat, edges: seq<Edge>)
    returns (ghost accepted: seq<Edge>)
    modifies maze, uf
    requires maze.Length0 == 2 * height + 1 && maze.Length1 == 2 * width + 1
    requires KruskalState(width, height, uf.parent, uf.rank, uf.maxRank, [], edges, 0)
    requires forall k :: 0 <= k < |edges| ==> IsCandidate(width, height, edges[k])
    ensures KruskalState(width, height, uf.parent, uf.rank, uf.maxRank, accepted, edges, |edges|)
    ensures forall r, c {:trigger maze[r, c]} :: 0 <= r < 2 * height + 1 && 0 <= c < 2 * width + 1 ==>
      maze[r, c] == if (r, c) in Opened(accepted) then 0 else old(maze[r, c])
    ensures |accepted| + |uf.Roots()| == old(|uf.Roots()|)
  {
    accepted := [];
    var i := 0;
    while i < |edges|
      invariant 0 <= i <= |edges|
      invariant KruskalState(width, height, uf.parent, uf.rank, uf.maxRank, accepted, edges, i)
      invariant forall r, c {:trigger maze[r, c]} :: 0 <= r < 2 * height + 1 && 0 <= c < 2 * width + 1 ==>
        maze[r, c] == if (r, c) in Opened(accepted) then 0 else old(maze[r, c])
      invariant |accepted| + |uf.Roots()| == old(|uf.Roots()|)
    {
      var merged := CarveOne(maze, uf, width, height, edges, i, accepted);
      if merged {
        OpenedSnoc(accepted, edges[i]);
        accepted := accepted + [edges[i]];
      }
      i := i + 1;
    }
  }

  /** When both cells of every candidate edge are in one set, all cells are:
      walk left along the row, then up the first column. */
  lemma {:induction false} CellJoined(width: nat, height: nat, p: seq<nat>, rank: seq<nat>, maxRank: nat, a: Point)
    requires Forest(p, rank, maxRank) && |p| == width * height && IsCell(width, height, a)
    requires forall e :: IsCandidate(width, height, e) ==> EdgeJoined(width, p, rank, maxRank, e)
    ensures 0 <= CellId(width, a) < |p| && 0 < |p|
    ensures Root(p, rank, maxRank, CellId(width, a)) == Root(p, rank, maxRank, 0)
    decreases a.0 + a.1
  {
    CellIdInRange(width, height, a);
    CellIdInRange(width, height, (0, 0));
    if a.0 > 0 {
      var e := ((a.0 - 1, a.1), a);
      assert IsCandidate(width, height, e) && EdgeJoined(width, p, rank, maxRank, e);
      CellJoined(width, height, p, rank, maxRank, e.0);
    } else if a.1 > 0 {
      var e := ((a.0, a.1 - 1), a);
      assert IsCandidate(width, height, e) && EdgeJoined(width, p, rank, maxRank, e);
      CellJoined(width, height, p, rank, maxRank, e.0);
    } else {
      assert CellId(width, a) == 0;
    }
  }

  /** After the loop of maze_build.py:161-166 has seen every candidate edge,
      there is one set; so exactly width * height - 1 edges were accepted
      (a spanning tree's count) and every two distinct cells are linked
      through the opened squares. */
  lemma AllJoined(width: nat, height: nat, p: seq<nat>, rank: seq<nat>, maxRank: nat, accepted: seq<Edge>, edges: seq<Edge>)
    requires width > 0 && height > 0 && KruskalState(width, height, p, rank, maxRank, accepted, edges, |edges|)
    requires forall e :: IsCandidate(width, height, e) ==> multiset(edges)[e] > 0
    requires |accepted| + |Tops(p)| == width * height
    ensures |accepted| == width * height - 1
    ensures Connects(width, height, Opened(accepted))
  {
    forall e | IsCandidate(width, height, e) ensures EdgeJoined(width, p, rank, maxRank, e) {
      assert e in edges;
    }
    forall i | 0 <= i < |p| ensures Root(p, rank, maxRank, i) == Root(p, rank, maxRank, 0) {
      IdIsCell(width, height, i);
      CellJoined(width, height, p, rank, maxRank, CellOf(width, i));
    }
    CellJoined(width, height, p, rank, maxRank, (0, 0));
    OneTop(p, rank, maxRank);
    forall a, b | IsCell(width, height, a) && IsCell(width, height, b) && a != b
      ensures Linked(Opened(accepted), Square(a), Square(b))
    {
      CellJoined(width, height, p, rank, maxRank, a);
      CellJoined(width, height, p, rank, maxRank, b);
      CellOfId(width, a);
      CellOfId(width, b);
      var i, j := CellId(width, a), CellId(width, b);
      assert Root(p, rank, maxRank, i) == Root(p, rank, maxRank, j);
    }
  }

  /** A permutation of a list of candidate walls holds only candidate walls,
      and none when the list is empty. */
  lemma ShuffledCandidates(width: nat, height: nat, edges: seq<Edge>, shuffled: seq<Edge>)
    requires multiset(shuffled) == multiset(edges)
    requires forall e :: e in edges ==> IsCandidate(width, height, e)
    ensures forall k :: 0 <= k < |shuffled| ==> IsCandidate(width, height, shuffled[k])
    ensures edges == [] ==> shuffled == []
  {
    forall k | 0 <= k < |shuffled| ensures IsCandidate(width, height, shuffled[k]) {
      assert shuffled[k] in multiset(edges);
    }
    assert |shuffled| == |multiset(shuffled)| == |multiset(edges)| == |edges|;
  }

  /** maze_build.py:150-158: the candidate walls in a caller-chosen order.
      Every wall listed is a candidate, and every candidate is listed once. */
  method ShuffledEdges(width: nat, height: nat, shuffle: seq<Edge> -> seq<Edge>) returns (shuffled: seq<Edge>)
    requires forall s :: multiset(shuffle(s)) == multiset(s)
    ensures forall k :: 0 <= k < |shuffled| ==> IsCandidate(width, height, shuffled[k])
    ensures forall e :: IsCandidate(width, height, e) ==> multiset(shuffled)[e] == 1
    ensures width == 0 ==> shuffled == []
  {
    var edges := CandidateEdges(width, height);
    shuffled := shuffle(edges);
    ShuffledCandidates(width, height, edges, shuffled);
    forall e | IsCandidate(width, height, e) ensures multiset(shuffled)[e] == 1 {
      DistinctOnce(edges, e);
    }
  }

  /** An element of a list without repeats occurs in it exactly once. */
  lemma {:induction false} DistinctOnce(s: seq<Edge>, e: Edge)
    requires forall i, j :: 0 <= i < j < |s| ==> s[i] != s[j]
    requires e in s
    ensures multiset(s)[e] == 1
  {
    var last := s[|s| - 1];
    var init := s[..|s| - 1];
    assert s == init + [last];
    if last == e {
      assert e !in init;
    } else {
      DistinctOnce(init, e);
    }
  }

  /** maze_build.py:169-170: open the entrance maze[1][0] and the exit
      maze[2 height - 1][2 width]. */
  method OpenDoors(maze: array2<int>, width: nat, height: nat)
    modifies maze
    requires height >= 1 && maze.Length0 == 2 * height + 1 && maze.Length1 == 2 * width + 1
    ensures forall r, c {:trigger maze[r, c]} :: 0 <= r < 2 * height + 1 && 0 <= c < 2 * width + 1 ==>
      maze[r, c] == if IsDoor(width, height, (r, c)) then 0 else old(maze[r, c])
  {
    maze[1, 0] := 0;
    maze[height * 2 - 1, width * 2] := 0;
  }

  /** maze_build.py:159-166 on a given grid and edge order: Kruskal's loop
      over a fresh union-find.  When the order lists every candidate wall,
      exactly width * height - 1 edges are accepted and they link every two
      distinct cells. */
  method CarveAll(maze: array2<int>, width: nat, height: nat, edges: seq<Edge>) returns (ghost accepted: seq<Edge>)
    modifies maze
    requires height >= 1 && maze.Length0 == 2 * height + 1 && maze.Length1 == 2 * width + 1
    requires forall k :: 0 <= k < |edges| ==> IsCandidate(width, height, edges[k])
    requires forall e :: IsCandidate(width, height, e) ==> multiset(edges)[e] > 0
    ensures forall r, c {:trigger maze[r, c]} :: 0 <= r < 2 * height + 1 && 0 <= c < 2 * width + 1 ==>
      maze[r, c] == if (r, c) in Opened(accepted) then 0 else old(maze[r, c])
    ensures forall k :: 0 <= k < |accepted| ==> IsCandidate(width, height, accepted[k])
    ensures width >= 1 ==> |accepted| == width * height - 1
    ensures Connects(width, height, Opened(accepted))
  {
    var uf := new UnionFind(width * height);
    if width > 0 {
      FreshJoins(width, uf.parent, uf.rank, uf.maxRank);
    }
    accepted := Carve(maze, uf, width, height, edges);
    if width >= 1 {
      AllJoined(width, height, uf.parent, uf.rank, uf.maxRank, accepted, edges);
    }
  }

  /** generate_maze_kruskal(width, height) as written, with random.shuffle
      a caller-chosen permutation.  The grid is (2 height + 1) x
      (2 width + 1) of 0/1; its open squares are the doors and the squares
      of the accepted edges, which are candidate walls, exactly
      width * height - 1 of them, and link every two distinct cells. */
  method GenerateKruskal(width: nat, height: nat, shuffle: seq<Edge> -> seq<Edge>)
    returns (maze: array2<int>, ghost accepted: seq<Edge>)
    requires height >= 1
    requires forall s :: multiset(shuffle(s)) == multiset(s)
    ensures fresh(maze) && maze.Length0 == 2 * height + 1 && maze.Length1 == 2 * width + 1
    ensures forall r, c {:trigger maze[r, c]} :: 0 <= r < 2 * height + 1 && 0 <= c < 2 * width + 1 ==>
      maze[r, c] == KruskalAt(width, height, Opened(accepted), r, c)
    ensures forall k :: 0 <= k < |accepted| ==> IsCandidate(width, height, accepted[k])
    ensures width >= 1 ==> |accepted| == width * height - 1
    ensures width == 0 ==> accepted == []
    ensures Connects(width, height, Opened(accepted))
  {
    maze := new int[2 * height + 1, 2 * width + 1]((_, _) => 1);
    var shuffled := ShuffledEdges(width, height, shuffle);
    accepted := CarveAll(maze, width, height, shuffled);
    OpenDoors(maze, width, height);
  }

  /** The square of a cell: odd row and odd column inside the border. */
  predicate IsCellSquare(width: int, height: int, q: Pos) {
    0 < q.0 < 2 * height && 0 < q.1 < 2 * width && q.0 % 2 == 1 && q.1 % 2 == 1
  }

  /** The square at (r, c) of the corrected generator's maze: the cell
      squares are open as well. */
  function OpenCellsAt(width: int, height: int, S: set<Pos>, r: int, c: int): int {
    if IsCellSquare(width, height, (r, c)) then 0 else KruskalAt(width, height, S, r, c)
  }

  /** generate_maze_kruskal with every cell square open from the start
      (maze[r][c] = 0 for odd r and odd c instead of 1), the generator a
      perfect maze needs: with every cell square open, a 1 x 1 maze can be
      solved, and Kruskal's loop only opens walls.
      Unlike the original, a 1 x 1 maze has its one cell open. */
  method GenerateKruskalOpen(width: nat, height: nat, shuffle: seq<Edge> -> seq<Edge>)
    returns (maze: array2<int>, ghost accepted: seq<Edge>)
    requires height >= 1
    requires forall s :: multiset(shuffle(s)) == multiset(s)
    ensures fresh(maze) && maze.Length0 == 2 * height + 1 && maze.Length1 == 2 * width + 1
    ensures forall r, c {:trigger maze[r, c]} :: 0 <= r < 2 * height + 1 && 0 <= c < 2 * width + 1 ==>
      maze[r, c] == OpenCellsAt(width, height, Opened(accepted), r, c)
    ensures forall k :: 0 <= k < |accepted| ==> IsCandidate(width, height, accepted[k])
    ensures width >= 1 ==> |accepted| == width * height - 1
    ensures Connects(width, height, Opened(accepted))
  {
    maze := new int[2 * height + 1, 2 * width + 1]((r, c) => if IsCellSquare(width, height, (r, c)) then 0 else 1);
    var shuffled := ShuffledEdges(width, height, shuffle);
    accepted := CarveAll(maze, width, height, shuffled);
    OpenDoors(maze, width, height);
  }
}
