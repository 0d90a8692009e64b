/** What the grids generate_maze_kruskal builds give the solvers of
    resolv.py.  Whenever the maze has at least two cells the default
    entrance (1, 0) reaches the default exit (2 height - 1, 2 width); for a
    single cell it does not, because no wall is ever opened and the cell
    square stays 1.  With the cell squares open from the start the exit is
    reached for every size. */
module KruskalProperties {
  import opened GridPaths
  import opened SquareLinks
  import opened MazeKruskal

  /** The maze GenerateKruskal returns, as the list of rows the solvers read. */
  ghost function KruskalGrid(width: nat, height: nat, S: set<Pos>): (m: seq<seq<int>>)
    ensures IsGrid(m) && |m| == 2 * height + 1 && |m[0]| == 2 * width + 1
    ensures forall r, c {:trigger m[r][c]} :: 0 <= r < |m| && 0 <= c < |m[r]| ==> m[r][c] == KruskalAt(width, height, S, r, c)
  {
    seq(2 * height + 1, r => seq(2 * width + 1, c => KruskalAt(width, height, S, r, c)))
  }

  /** The maze GenerateKruskalOpen returns, as a list of rows. */
  ghost function OpenCellsGrid(width: nat, height: nat, S: set<Pos>): (m: seq<seq<int>>)
    ensures IsGrid(m) && |m| == 2 * height + 1 && |m[0]| == 2 * width + 1
    ensures forall r, c {:trigger m[r][c]} :: 0 <= r < |m| && 0 <= c < |m[r]| ==> m[r][c] == OpenCellsAt(width, height, S, r, c)
  {
    seq(2 * height + 1, r => seq(2 * width + 1, c => OpenCellsAt(width, height, S, r, c)))
  }

  /** Every square an accepted candidate edge opens lies strictly inside
      the border. */
  lemma {:induction false} OpenedInside(width: nat, height: nat, accepted: seq<Edge>)
    requires forall k :: 0 <= k < |accepted| ==> IsCandidate(width, height, accepted[k])
    ensures forall q :: q in Opened(accepted) ==> 0 < q.0 < 2 * height && 0 < q.1 < 2 * width
  {
    if accepted != [] {
      OpenedInside(width, height, accepted[..|accepted| - 1]);
      assert IsCandidate(width, height, accepted[|accepted| - 1]);
    }
  }

  /** The squares the accepted edges open are open in both grids. */
  lemma OpenedFree(width: nat, height: nat, accepted: seq<Edge>)
    requires forall k :: 0 <= k < |accepted| ==> IsCandidate(width, height, accepted[k])
    ensures forall q :: q in Opened(accepted) ==> Free(KruskalGrid(width, height, Opened(accepted)), q)
    ensures forall q :: q in Opened(accepted) ==> Free(OpenCellsGrid(width, height, Opened(accepted)), q)
  {
    OpenedInside(width, height, accepted);
    var S := Opened(accepted);
    var m, m' := KruskalGrid(width, height, S), OpenCellsGrid(width, height, S);
    forall q | q in S ensures Free(m, q) && Free(m', q) {
      assert m[q.0][q.1] == KruskalAt(width, height, S, q.0, q.1);
      assert m'[q.0][q.1] == OpenCellsAt(width, height, S, q.0, q.1);
    }
  }

  /** With both doors open and every square of S open in m, a link through
      S from the first cell to the last makes the exit reachable from the
      entrance. */
  lemma DoorsLinked(width: nat, height: nat, S: set<Pos>, m: seq<seq<int>>)
    requires width >= 1 && height >= 1 && IsGrid(m) && |m| == 2 * height + 1 && |m[0]| == 2 * width + 1
    requires forall q :: q in S ==> Free(m, q)
    requires m[1][0] == 0 && m[2 * height - 1][2 * width] == 0
    requires Linked(S, (1, 1), (2 * height - 1, 2 * width - 1))
    ensures Reachable(m, (1, 0), (2 * height - 1, 2 * width))
  {
    var entrance, exit := (1, 0), (2 * height - 1, 2 * width);
    var T := S + {entrance, exit};
    LinkedEnds(S, (1, 1), (2 * height - 1, 2 * width - 1));
    LinkedGrows(S, T, (1, 1), (2 * height - 1, 2 * width - 1));
    LinkedStep(T, entrance, (1, 1));
    LinkedStep(T, (2 * height - 1, 2 * width - 1), exit);
    LinkedTransitive(T, entrance, (1, 1), (2 * height - 1, 2 * width - 1));
    LinkedTransitive(T, entrance, (2 * height - 1, 2 * width - 1), exit);
    LinkedReachable(m, T, entrance, exit);
  }

  /** With at least two cells, the first cell's square (1, 1) and the
      last one's (2 height - 1, 2 width - 1) are distinct and so linked. */
  lemma FirstLastLinked(width: nat, height: nat, S: set<Pos>)
    requires width >= 1 && height >= 1 && (width >= 2 || height >= 2)
    requires Connects(width, height, S)
    ensures Linked(S, (1, 1), (2 * height - 1, 2 * width - 1))
  {
    var first, last := (0, 0), (width - 1, height - 1);
    assert Linked(S, Square(first), Square(last));
  }

  /** Both doors are open in both grids. */
  lemma DoorsOpen(width: nat, height: nat, S: set<Pos>)
    requires width >= 1 && height >= 1
    ensures KruskalGrid(width, height, S)[1][0] == 0 && KruskalGrid(width, height, S)[2 * height - 1][2 * width] == 0
    ensures OpenCellsGrid(width, height, S)[1][0] == 0 && OpenCellsGrid(width, height, S)[2 * height - 1][2 * width] == 0
  {
    var m, m' := KruskalGrid(width, height, S), OpenCellsGrid(width, height, S);
    assert m[1][0] == KruskalAt(width, height, S, 1, 0);
    assert m[2 * height - 1][2 * width] == KruskalAt(width, height, S, 2 * height - 1, 2 * width);
    assert m'[1][0] == OpenCellsAt(width, height, S, 1, 0);
    assert m'[2 * height - 1][2 * width] == OpenCellsAt(width, height, S, 2 * height - 1, 2 * width);
  }

  /** The original generator's maze with at least two cells: the default
      entrance reaches the default exit. */
  lemma KruskalSolvable(width: nat, height: nat, accepted: seq<Edge>)
    requires width >= 1 && height >= 1 && (width >= 2 || height >= 2)
    requires forall k :: 0 <= k < |accepted| ==> IsCandidate(width, height, accepted[k])
    requires Connects(width, height, Opened(accepted))
    ensures Reachable(KruskalGrid(width, height, Opened(accepted)), (1, 0), (2 * height - 1, 2 * width))
  {
    var S := Opened(accepted);
    FirstLastLinked(width, height, S);
    OpenedFree(width, height, accepted);
    DoorsOpen(width, height, S);
    DoorsLinked(width, height, S, KruskalGrid(width, height, S));
  }

  /** The original generator's 1 x 1 maze: there is no candidate wall, so
      nothing is accepted, the single cell square stays a wall and the
      exit (1, 2) cannot be reached from the entrance (1, 0). */
  lemma OneCellBlocked(accepted: seq<Edge>)
    requires forall k :: 0 <= k < |accepted| ==> IsCandidate(1, 1, accepted[k])
    ensures accepted == []
    ensures KruskalGrid(1, 1, Opened(accepted))[1][1] == 1
    ensures !Reachable(KruskalGrid(1, 1, Opened(accepted)), (1, 0), (1, 2))
  {
    assert |accepted| == 0 || !IsCandidate(1, 1, accepted[0]);
    var m := KruskalGrid(1, 1, {});
    assert ClosedInto(m, {(1, 0)}, {(1, 0)}) by {
      forall p, q | p in {(1, 0)} && Adjacent(p, q) && Free(m, q) ensures q in {(1, 0)} {
        assert m[q.0][q.1] == KruskalAt(1, 1, {}, q.0, q.1);
      }
    }
    ClosedSetCutsOff(m, {(1, 0)}, (1, 0), (1, 2));
  }

  /** The corrected generator's 1 x 1 maze: entrance, cell and exit are a
      row of three open squares. */
  lemma OneCellOpen(width: nat, height: nat, S: set<Pos>)
    requires width == 1 && height == 1
    ensures Reachable(OpenCellsGrid(width, height, S), (1, 0), (2 * height - 1, 2 * width))
  {
    var m := OpenCellsGrid(1, 1, S);
    assert m[1][0] == OpenCellsAt(1, 1, S, 1, 0) == 0;
    assert m[1][1] == OpenCellsAt(1, 1, S, 1, 1) == 0;
    assert m[1][2] == OpenCellsAt(1, 1, S, 1, 2) == 0;
    assert OpenWalk(m, [(1, 0), (1, 1), (1, 2)]);
  }

  /** The corrected generator's maze with at least two cells, as for the
      original one. */
  lemma ManyCellsOpen(width: nat, height: nat, accepted: seq<Edge>)
    requires width >= 1 && height >= 1 && (width >= 2 || height >= 2)
    requires forall k :: 0 <= k < |accepted| ==> IsCandidate(width, height, accepted[k])
    requires Connects(width, height, Opened(accepted))
    ensures Reachable(OpenCellsGrid(width, height, Opened(accepted)), (1, 0), (2 * height - 1, 2 * width))
  {
    var S := Opened(accepted);
    FirstLastLinked(width, height, S);
    OpenedFree(width, height, accepted);
    DoorsOpen(width, height, S);
    DoorsLinked(width, height, S, OpenCellsGrid(width, height, S));
  }

  /** The corrected generator's maze: the default entrance reaches the
      default exit for every size, one cell included. */
  lemma OpenCellsSolvable(width: nat, height: nat, accepted: seq<Edge>)
    requires width >= 1 && height >= 1
    requires forall k :: 0 <= k < |accepted| ==> IsCandidate(width, height, accepted[k])
    requires Connects(width, height, Opened(accepted))
    ensures Reachable(OpenCellsGrid(width, height, Opened(accepted)), (1, 0), (2 * height - 1, 2 * width))
  {
    if width >= 2 || height >= 2 {
      ManyCellsOpen(width, height, accepted);
    } else {
      OneCellOpen(width, height, Opened(accepted));
    }
  }
}
