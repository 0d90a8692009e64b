/** Cells, walks and reachability over the 0/1 grids the solvers read
    (positions are (row, column), as in resolv.py), and the definitions the
    generators and the solvers share. */
module GridPaths {
  import opened Grid

  type Pos = (int, int)

  /** A point (x, y) as maze_build.py stores it: column first, then row. */
  type Point = (int, int)

  /** A rectangular grid with at least one row: the solvers take
      rows = len(maze01) and cols = len(maze01[0]). */
  ghost predicate IsGrid(m: seq<seq<int>>) {
    |m| > 0 && forall i :: 0 <= i < |m| ==> |m[i]| == |m[0]|
  }

  /** in_bounds in resolv.py: a square that passes it can be read. */
  predicate InBounds(m: seq<seq<int>>, p: Pos)
    requires |m| > 0
    ensures InBounds(m, p) && IsGrid(m) ==> 0 <= p.0 < |m| && 0 <= p.1 < |m[p.0]|
  {
    0 <= p.0 < |m| && 0 <= p.1 < |m[0]|
  }

  /** is_open in resolv.py: only 0 is open. */
  predicate IsOpen(m: seq<seq<int>>, p: Pos)
    requires IsGrid(m) && InBounds(m, p)
    ensures IsOpen(m, p) <==> CellOfBinary(m[p.0][p.1]) == Open
  {
    m[p.0][p.1] == 0
  }

  function Abs(x: int): nat {
    if x < 0 then -x else x
  }

  /** The heuristic h of a_star: the Manhattan distance.  It is 0 only
      from a square to itself and 1 exactly between 4-adjacent squares. */
  function Manhattan(a: Pos, b: Pos): (d: nat)
    ensures d == 0 <==> a == b
    ensures d == 1 <==> Adjacent(a, b)
  {
    Abs(a.0 - b.0) + Abs(a.1 - b.1)
  }

  /** One 4-connected step: a unit move along exactly one axis. */
  predicate Adjacent(a: Pos, b: Pos) {
    (Abs(a.0 - b.0) == 1 && a.1 == b.1) || (a.0 == b.0 && Abs(a.1 - b.1) == 1)
  }

  /** The square the k-th direction of dirs leads to from p. */
  function Step(dirs: seq<Pos>, p: Pos, k: int): Pos
    requires 0 <= k < |dirs|
  {
    (p.0 + dirs[k].0, p.1 + dirs[k].1)
  }

  /** A list of the four unit moves, in some order. */
  predicate UnitDirs(dirs: seq<Pos>) {
    |dirs| == 4 && (-1, 0) in dirs && (1, 0) in dirs && (0, -1) in dirs && (0, 1) in dirs &&
    forall k :: 0 <= k < 4 ==> Adjacent((0, 0), dirs[k])
  }

  /** The four directions of such a list reach exactly the 4-adjacent
      squares. */
  lemma AdjacentIsStep(dirs: seq<Pos>, p: Pos, q: Pos)
    requires UnitDirs(dirs)
    ensures Adjacent(p, q) <==> (q == Step(dirs, p, 0) || q == Step(dirs, p, 1) || q == Step(dirs, p, 2) || q == Step(dirs, p, 3))
  {
    if Adjacent(p, q) {
      var u := (q.0 - p.0, q.1 - p.1);
      assert u in dirs;
      var k :| 0 <= k < 4 && dirs[k] == u;
      assert q == Step(dirs, p, k);
    }
    forall k | 0 <= k < 4 ensures Adjacent(p, Step(dirs, p, k)) {
      assert Adjacent((0, 0), dirs[k]);
    }
  }

  /** The end a solver uses: the one given, or else (rows - 2, cols - 1),
      a square of the right border, which lies in bounds on every grid with
      at least two rows. */
  function ResolveEnd(m: seq<seq<int>>, end: Option<Pos>): (e: Pos)
    requires |m| > 0
    ensures end.Some? ==> e == end.value
    ensures end.None? ==> e.1 == |m[0]| - 1 && (|m| >= 2 && |m[0]| >= 1 ==> InBounds(m, e))
  {
    match end
    case None => (|m| - 2, |m[0]| - 1)
    case Some(e) => e
  }

  /** A sequence read backwards (list.reverse() as a value). */
  function Reverse<T>(s: seq<T>): (r: seq<T>)
    ensures |r| == |s| && forall i :: 0 <= i < |s| ==> r[i] == s[|s| - 1 - i]
  {
    seq(|s|, i requires 0 <= i < |s| => s[|s| - 1 - i])
  }

  /** An open in-bounds cell. */
  ghost predicate Free(m: seq<seq<int>>, p: Pos)
    requires IsGrid(m)
  {
    InBounds(m, p) && IsOpen(m, p)
  }

  /** A walk whose every cell after the first is an open in-bounds cell and
      whose consecutive cells are 4-adjacent (the first cell is not checked:
      this is what a_star guarantees of its start). */
  ghost predicate Walk(m: seq<seq<int>>, q: seq<Pos>)
    requires IsGrid(m)
  {
    |q| > 0 &&
    (forall i :: 0 < i < |q| ==> Free(m, q[i])) &&
    (forall i :: 0 < i < |q| ==> Adjacent(q[i - 1], q[i]))
  }

  /** A walk through open in-bounds cells only. */
  ghost predicate OpenWalk(m: seq<seq<int>>, q: seq<Pos>)
    requires IsGrid(m)
  {
    Walk(m, q) && Free(m, q[0])
  }

  /** No cell occurs twice. */
  ghost predicate Simple(q: seq<Pos>) {
    forall i, j :: 0 <= i < j < |q| ==> q[i] != q[j]
  }

  /** b can be reached from a through open cells. */
  ghost predicate Reachable(m: seq<seq<int>>, a: Pos, b: Pos)
    requires IsGrid(m)
  {
    exists q {:trigger OpenWalk(m, q)} :: OpenWalk(m, q) && q[0] == a && q[|q| - 1] == b
  }

  /** b can be reached from a by a walk whose first cell is not checked. */
  ghost predicate WalkReaches(m: seq<seq<int>>, a: Pos, b: Pos)
    requires IsGrid(m)
  {
    exists q {:trigger Walk(m, q)} :: Walk(m, q) && q[0] == a && q[|q| - 1] == b
  }

  /** A non-empty prefix of a walk is a walk. */
  lemma WalkPrefix(m: seq<seq<int>>, q: seq<Pos>, k: int)
    requires IsGrid(m) && Walk(m, q) && 0 < k <= |q|
    ensures Walk(m, q[..k])
  {
    var p := q[..k];
    forall i | 0 < i < |p| ensures Free(m, p[i]) && Adjacent(p[i - 1], p[i]) {
      assert p[i] == q[i] && p[i - 1] == q[i - 1];
    }
  }

  /** Every open neighbour of a cell of A lies in B. */
  ghost predicate ClosedInto(m: seq<seq<int>>, A: set<Pos>, B: set<Pos>)
    requires IsGrid(m)
  {
    forall p, q :: p in A && Adjacent(p, q) && Free(m, q) ==> q in B
  }

  /** The open cells of the grid. */
  ghost function OpenCells(m: seq<seq<int>>): (s: set<Pos>)
    requires IsGrid(m)
    ensures forall p :: p in s <==> Free(m, p)
  {
    set r, c | 0 <= r < |m| && 0 <= c < |m[0]| && m[r][c] == 0 :: (r, c)
  }

  /** A walk that starts inside a set closed under open neighbours never
      leaves it. */
  lemma {:induction false} WalkStaysInClosed(m: seq<seq<int>>, S: set<Pos>, q: seq<Pos>)
    requires IsGrid(m) && Walk(m, q) && q[0] in S && ClosedInto(m, S, S)
    ensures forall i :: 0 <= i < |q| ==> q[i] in S
  {
    if |q| > 1 {
      var init := q[..|q| - 1];
      assert Walk(m, init) by {
        forall i | 0 < i < |init| ensures Free(m, init[i]) && Adjacent(init[i - 1], init[i]) {
          assert init[i] == q[i] && init[i - 1] == q[i - 1];
        }
      }
      WalkStaysInClosed(m, S, init);
      assert q[|q| - 2] == init[|init| - 1];
      assert Adjacent(q[|q| - 2], q[|q| - 1]) && Free(m, q[|q| - 1]);
      forall i | 0 <= i < |q| ensures q[i] in S {
        if i < |q| - 1 {
          assert q[i] == init[i];
        }
      }
    }
  }

  /** Hence nothing outside such a set is reachable from inside it. */
  lemma ClosedSetCutsOff(m: seq<seq<int>>, S: set<Pos>, a: Pos, b: Pos)
    requires IsGrid(m) && a in S && b !in S && ClosedInto(m, S, S)
    ensures !WalkReaches(m, a, b) && !Reachable(m, a, b)
  {
    if WalkReaches(m, a, b) {
      var q :| Walk(m, q) && q[0] == a && q[|q| - 1] == b;
      WalkStaysInClosed(m, S, q);
    }
  }

  /** A walk takes at least as many steps as the Manhattan distance between
      its two ends. */
  lemma {:induction false} WalkLongerThanManhattan(m: seq<seq<int>>, q: seq<Pos>, i: int, j: int)
    requires IsGrid(m) && Walk(m, q) && 0 <= i <= j < |q|
    ensures Manhattan(q[i], q[j]) <= j - i
  {
    if i < j {
      WalkLongerThanManhattan(m, q, i, j - 1);
      assert Adjacent(q[j - 1], q[j]);
    }
  }
}
