/** What the mazes generate_maze_backtracking builds promise to the solvers
    of resolv.py: read through ascii_to_binary they are rectangular 0/1
    grids whose every cell is reachable from (1, 1), and whose default
    entrance (row 1, column 0) reaches the default exit (row 2n-1,
    column 2n). */
module MazeProperties {
  import opened Grid
  import opened GridPaths
  import opened MazeCarving

  /** The finished maze as the solvers read it: ascii_to_binary of the
      picture, indexed (row, column). */
  ghost function BinaryMaze(n: nat, parent: map<Point, Point>): (m: seq<seq<int>>)
    requires n >= 1
    ensures IsGrid(m) && |m| == 2 * n + 1 && |m[0]| == 2 * n + 1
  {
    AsciiToBinary(Picture(n, parent))
  }

  /** A square is 0 for the solvers exactly when the picture shows it open. */
  lemma BinaryMazeAt(n: nat, parent: map<Point, Point>, r: int, c: int)
    requires n >= 1 && 0 <= r < 2 * n + 1 && 0 <= c < 2 * n + 1
    ensures BinaryMaze(n, parent)[r][c] == 0 <==> PictureAt(n, parent, c, r) == OPEN
  {
  }

  /** The picture holds only '#' and '.', and on its border only the
      entrance and the exit are open. */
  lemma PictureIsMaze(n: nat, parent: map<Point, Point>)
    requires n >= 1
    ensures IsAscii(Picture(n, parent))
    ensures forall x, y {:trigger PictureAt(n, parent, x, y)} ::
      0 <= x < 2 * n + 1 && 0 <= y < 2 * n + 1 && (x == 0 || y == 0 || x == 2 * n || y == 2 * n) ==>
        (PictureAt(n, parent, x, y) == OPEN <==> (x, y) == (0, 1) || (x, y) == (2 * n, 2 * n - 1))
  {
    var g := Picture(n, parent);
    forall i, j | 0 <= i < |g| && 0 <= j < |g[i]| ensures g[i][j] == WALL || g[i][j] == OPEN {
      assert g[i][j] == PictureAt(n, parent, j, i);
    }
  }

  /** A spanning tree over the n * n cells has n * n - 1 edges, one open
      wall each. */
  lemma EdgeCount(n: nat, parent: map<Point, Point>, order: map<Point, nat>)
    requires n >= 1 && Tree(n, (1, 1), Cells(n), parent, order)
    ensures |parent.Keys| == n * n - 1
  {
    CellsSize(n);
    assert (1, 1) in Cells(n);
    assert parent.Keys == Cells(n) - {(1, 1)};
  }

  /** The wall between a cell and its parent is a passage. */
  lemma ParentPassage(n: int, parent: map<Point, Point>, p: Point)
    requires p in parent && IsCell(n, p) && IsCell(n, parent[p]) && TwoApart(p, parent[p])
    ensures Passage(n, parent, ((p.0 + parent[p].0) / 2, (p.1 + parent[p].1) / 2))
  {
    var q := parent[p];
    var w := ((p.0 + q.0) / 2, (p.1 + q.1) / 2);
    if p.1 == q.1 {
      if p.0 < q.0 {
        assert w == (p.0 + 1, p.1) && Joined(parent, (w.0 - 1, w.1), (w.0 + 1, w.1));
      } else {
        assert w == (q.0 + 1, p.1) && Joined(parent, (w.0 - 1, w.1), (w.0 + 1, w.1));
      }
    } else {
      if p.1 < q.1 {
        assert w == (p.0, p.1 + 1) && Joined(parent, (w.0, w.1 - 1), (w.0, w.1 + 1));
      } else {
        assert w == (p.0, q.1 + 1) && Joined(parent, (w.0, w.1 - 1), (w.0, w.1 + 1));
      }
    }
  }

  /** The square midway between a cell and its parent. */
  function Mid(parent: map<Point, Point>, a: Point): Point
    requires a in parent
  {
    ((a.0 + parent[a].0) / 2, (a.1 + parent[a].1) / 2)
  }

  /** The passage squares of the (2n+1) x (2n+1) grid. */
  ghost function Passages(n: nat, parent: map<Point, Point>): set<Point> {
    set x, y | 0 <= x <= 2 * n && 0 <= y <= 2 * n && Passage(n, parent, (x, y)) :: (x, y)
  }

  /** The passages are exactly the squares midway between a cell and its
      parent. */
  lemma PassagesAreMids(n: nat, parent: map<Point, Point>, order: map<Point, nat>)
    requires n >= 1 && Tree(n, (1, 1), Cells(n), parent, order)
    ensures Passages(n, parent) == set a | a in parent :: Mid(parent, a)
  {
    var M := set a | a in parent :: Mid(parent, a);
    forall w | w in Passages(n, parent) ensures w in M {
      var a := PassageIsMid(n, parent, w);
    }
    forall a | a in parent ensures Mid(parent, a) in Passages(n, parent) {
      assert IsCell(n, a) && IsCell(n, parent[a]) && TwoApart(a, parent[a]);
      MidIsPassage(n, parent, a);
    }
  }

  /** A passage lies midway between a cell and its parent. */
  lemma PassageIsMid(n: nat, parent: map<Point, Point>, w: Point) returns (a: Point)
    requires Passage(n, parent, w)
    ensures a in parent && Mid(parent, a) == w
  {
    var l, r := Below(w), Above(w);
    if l in parent && parent[l] == r {
      a := l;
    } else {
      a := r;
    }
  }

  /** The square midway between a cell and its parent is a passage of the
      grid. */
  lemma MidIsPassage(n: nat, parent: map<Point, Point>, a: Point)
    requires a in parent && IsCell(n, a) && IsCell(n, parent[a]) && TwoApart(a, parent[a])
    ensures Mid(parent, a) in Passages(n, parent)
  {
    ParentPassage(n, parent, a);
    var w := Mid(parent, a);
    assert Passage(n, parent, (w.0, w.1));
  }

  /** Two cells with the same midway square to their parents are the same
      cell: otherwise each would be the other's parent. */
  lemma MidInjective(n: nat, parent: map<Point, Point>, order: map<Point, nat>, a: Point, b: Point)
    requires Tree(n, (1, 1), Cells(n), parent, order)
    requires a in parent && b in parent && Mid(parent, a) == Mid(parent, b)
    ensures a == b
  {
    assert IsCell(n, a) && IsCell(n, parent[a]) && TwoApart(a, parent[a]);
    assert IsCell(n, b) && IsCell(n, parent[b]) && TwoApart(b, parent[b]);
    MidSides(n, parent, a);
    MidSides(n, parent, b);
  }

  /** The cell before a square in its row or its column, and the one after. */
  function Below(w: Point): Point {
    if w.0 % 2 == 0 then (w.0 - 1, w.1) else (w.0, w.1 - 1)
  }

  function Above(w: Point): Point {
    if w.0 % 2 == 0 then (w.0 + 1, w.1) else (w.0, w.1 + 1)
  }

  /** A cell and its parent are the two cells on either side of their
      midway square. */
  lemma MidSides(n: nat, parent: map<Point, Point>, a: Point)
    requires a in parent && IsCell(n, a) && IsCell(n, parent[a]) && TwoApart(a, parent[a])
    ensures var w := Mid(parent, a);
      (a == Below(w) && parent[a] == Above(w)) || (a == Above(w) && parent[a] == Below(w))
  {
    var q := parent[a];
    var w := Mid(parent, a);
    if a.1 == q.1 {
      if a.0 < q.0 {
        assert w == (a.0 + 1, a.1);
      } else {
        assert w == (q.0 + 1, a.1);
      }
    } else {
      if a.1 < q.1 {
        assert w == (a.0, a.1 + 1);
      } else {
        assert w == (a.0, q.1 + 1);
      }
    }
  }

  /** A map that is one-to-one on S has as many images as S has members. */
  lemma {:induction false} MidImageSize(parent: map<Point, Point>, S: set<Point>)
    requires S <= parent.Keys
    requires forall a, b :: a in S && b in S && Mid(parent, a) == Mid(parent, b) ==> a == b
    ensures |set a | a in S :: Mid(parent, a)| == |S|
  {
    if S != {} {
      var x :| x in S;
      var S' := S - {x};
      MidImageSize(parent, S');
      var I, I' := set a | a in S :: Mid(parent, a), set a | a in S' :: Mid(parent, a);
      assert I == I' + {Mid(parent, x)};
      assert Mid(parent, x) !in I';
    }
  }

  /** The finished maze opens exactly n * n - 1 passage squares, one per
      edge of the spanning tree. */
  lemma PassageCount(n: nat, parent: map<Point, Point>, order: map<Point, nat>)
    requires n >= 1 && Tree(n, (1, 1), Cells(n), parent, order)
    ensures |Passages(n, parent)| == n * n - 1
  {
    PassagesAreMids(n, parent, order);
    forall a, b | a in parent && b in parent && Mid(parent, a) == Mid(parent, b) ensures a == b {
      MidInjective(n, parent, order, a, b);
    }
    MidImageSize(parent, parent.Keys);
    EdgeCount(n, parent, order);
  }

  /** Appending two open cells, each adjacent to the one before, to an open
      walk gives an open walk. */
  lemma ExtendWalk(m: seq<seq<int>>, w: seq<Pos>, a: Pos, b: Pos)
    requires IsGrid(m) && OpenWalk(m, w)
    requires Free(m, a) && Free(m, b) && Adjacent(w[|w| - 1], a) && Adjacent(a, b)
    ensures OpenWalk(m, w + [a, b]) && (w + [a, b])[0] == w[0]
  {
    var v := w + [a, b];
    forall i | 0 < i < |v| ensures Free(m, v[i]) && Adjacent(v[i - 1], v[i]) {
      if i < |w| {
        assert v[i] == w[i] && v[i - 1] == w[i - 1];
      }
    }
  }

  /** One step down the tree: a walk to a cell's parent extends, through
      the wall between them, to the cell itself. */
  lemma WalkStep(n: nat, parent: map<Point, Point>, p: Point, w: seq<Pos>) returns (v: seq<Pos>)
    requires n >= 1 && p in parent && IsCell(n, p) && IsCell(n, parent[p]) && TwoApart(p, parent[p])
    requires OpenWalk(BinaryMaze(n, parent), w) && w[|w| - 1] == (parent[p].1, parent[p].0)
    ensures OpenWalk(BinaryMaze(n, parent), v) && v[0] == w[0] && v[|v| - 1] == (p.1, p.0)
  {
    var q := parent[p];
    ParentPassage(n, parent, p);
    var mid := ((p.0 + q.0) / 2, (p.1 + q.1) / 2);
    BinaryMazeAt(n, parent, mid.1, mid.0);
    BinaryMazeAt(n, parent, p.1, p.0);
    ExtendWalk(BinaryMaze(n, parent), w, (mid.1, mid.0), (p.1, p.0));
    v := w + [(mid.1, mid.0), (p.1, p.0)];
  }

  /** Following parents back to the start, every cell has an open walk
      from (1, 1) in the solvers' (row, column) coordinates. */
  lemma {:induction false} WalkFromStart(n: nat, parent: map<Point, Point>, order: map<Point, nat>, p: Point)
    returns (w: seq<Pos>)
    requires n >= 1 && Tree(n, (1, 1), Cells(n), parent, order) && p in Cells(n)
    ensures OpenWalk(BinaryMaze(n, parent), w) && w[0] == (1, 1) && w[|w| - 1] == (p.1, p.0)
    decreases order[p]
  {
    if p == (1, 1) {
      BinaryMazeAt(n, parent, 1, 1);
      w := [(1, 1)];
    } else {
      var u := WalkFromStart(n, parent, order, parent[p]);
      w := WalkStep(n, parent, p, u);
    }
  }

  /** Every cell of the logical maze can be reached from the start cell. */
  lemma EveryCellReachable(n: nat, parent: map<Point, Point>, order: map<Point, nat>, p: Point)
    requires n >= 1 && Tree(n, (1, 1), Cells(n), parent, order) && IsCell(n, p)
    ensures Reachable(BinaryMaze(n, parent), (1, 1), (p.1, p.0))
  {
    var w := WalkFromStart(n, parent, order, p);
  }

  /** The solvers' default entrance (1, 0) reaches their default exit
      (rows - 2, cols - 1) = (2n - 1, 2n). */
  lemma EntranceReachesExit(n: nat, parent: map<Point, Point>, order: map<Point, nat>)
    requires n >= 1 && Tree(n, (1, 1), Cells(n), parent, order)
    ensures Reachable(BinaryMaze(n, parent), (1, 0), (2 * n - 1, 2 * n))
  {
    var m := BinaryMaze(n, parent);
    var last := (2 * n - 1, 2 * n - 1);
    assert IsCell(n, last);
    var w := WalkFromStart(n, parent, order, last);
    BinaryMazeAt(n, parent, 1, 0);
    BinaryMazeAt(n, parent, 2 * n - 1, 2 * n);
    var v := [(1, 0)] + w + [(2 * n - 1, 2 * n)];
    forall i | 0 <= i < |v| ensures Free(m, v[i]) && (i > 0 ==> Adjacent(v[i - 1], v[i])) {
      if 0 < i <= |w| {
        assert v[i] == w[i - 1];
        if i > 1 {
          assert v[i - 1] == w[i - 2];
        }
      }
    }
    assert OpenWalk(m, v) && v[0] == (1, 0) && v[|v| - 1] == (2 * n - 1, 2 * n);
  }
}
