/** solve_backtracking of resolv.py: an exhaustive recursive depth-first
    search that shares one path list and one visited set between its calls.
    The shared list and set are threaded through the recursion as values:
    each call receives them and returns their new contents. */
module DfsSolver {
  import opened Grid
  import opened GridPaths

  /** The neighbour order of solve_backtracking: up, right, down, left. */
  const Dirs: seq<Pos> := [(-1, 0), (0, 1), (1, 0), (0, -1)]

  /** What a successful dfs(u) leaves behind: the shared path is the old one
      followed by a simple open walk from u to end, and every cell of that
      walk except end was visited during this call. */
  ghost predicate Found(m: seq<seq<int>>, path: seq<Pos>, path': seq<Pos>, u: Pos, end: Pos,
                        visited: set<Pos>, visited': set<Pos>)
    requires IsGrid(m)
  {
    |path'| > |path| && path'[..|path|] == path &&
    var ext := path'[|path|..];
    ext[0] == u && ext[|ext| - 1] == end && OpenWalk(m, ext) && Simple(ext) &&
    forall i :: 0 <= i < |ext| - 1 ==> ext[i] in visited' && ext[i] !in visited
  }

  /** A walk found from a neighbour nb of u extends to a walk from u. */
  lemma FoundStep(m: seq<seq<int>>, path: seq<Pos>, u: Pos, nb: Pos, end: Pos,
                  visited: set<Pos>, V: set<Pos>, path': seq<Pos>, V': set<Pos>)
    requires IsGrid(m) && Free(m, u) && Adjacent(u, nb) && u != end
    requires u !in visited && u in V && V <= V' && visited <= V
    requires Found(m, path + [u], path', nb, end, V, V')
    ensures Found(m, path, path', u, end, visited, V')
  {
    var ext := path'[|path|..];
    var ext2 := path'[|path| + 1..];
    assert path'[..|path| + 1] == path + [u];
    assert path'[..|path|] == path by {
      assert path'[..|path|] == path'[..|path| + 1][..|path|];
    }
    assert ext == [u] + ext2;
    assert ext2[0] == nb;
    assert OpenWalk(m, ext) by {
      forall i | 0 < i < |ext| ensures Free(m, ext[i]) && Adjacent(ext[i - 1], ext[i]) {
        if i > 1 {
          assert ext[i] == ext2[i - 1] && ext[i - 1] == ext2[i - 2];
        }
      }
    }
    assert Simple(ext) by {
      forall i, j | 0 <= i < j < |ext| ensures ext[i] != ext[j] {
        if i == 0 {
          assert ext[j] == ext2[j - 1];
          if j - 1 < |ext2| - 1 {
            assert ext2[j - 1] !in V;
          }
        } else {
          assert ext[i] == ext2[i - 1] && ext[j] == ext2[j - 1];
        }
      }
    }
    forall i | 0 <= i < |ext| - 1 ensures ext[i] in V' && ext[i] !in visited {
      if i > 0 {
        assert ext[i] == ext2[i - 1];
      }
    }
  }

  /** The inner dfs(r, c).  Without a successful search it leaves the path
      as it found it (append, then pop) and the cells it added to visited are
      closed: each of their open neighbours is visited too. */
  method Dfs(m: seq<seq<int>>, end: Pos, u: Pos, path: seq<Pos>, visited: set<Pos>)
    returns (found: bool, path': seq<Pos>, visited': set<Pos>)
    requires IsGrid(m) && Free(m, u)
    requires u !in visited && end !in visited && visited <= OpenCells(m)
    requires forall p :: p in path ==> p in visited
    ensures visited <= visited' <= OpenCells(m) && end !in visited'
    ensures u == end ==> found
    ensures u != end ==> u in visited'
    ensures !found ==> path' == path && ClosedInto(m, visited' - visited, visited')
    ensures found ==> Found(m, path, path', u, end, visited, visited')
    decreases OpenCells(m) - visited
  {
    if u == end {
      found, path', visited' := true, path + [u], visited;
      assert path'[|path|..] == [u];
      return;
    }
    visited' := visited + {u};
    path' := path + [u];
    var k := 0;
    while k < 4
      invariant 0 <= k <= 4
      invariant visited + {u} <= visited' <= OpenCells(m) && end !in visited'
      invariant path' == path + [u]
      invariant forall p :: p in path' ==> p in visited'
      invariant ClosedInto(m, visited' - visited - {u}, visited')
      invariant forall j :: 0 <= j < k ==> !Free(m, Step(Dirs, u, j)) || Step(Dirs, u, j) in visited'
    {
      var nb := Step(Dirs, u, k);
      if !InBounds(m, nb) || nb in visited' || !IsOpen(m, nb) {
        k := k + 1;
        continue;
      }
      ghost var before := visited';
      assert OpenCells(m) - visited' < OpenCells(m) - visited by {
        assert u in OpenCells(m) - visited;
      }
      var ok, p2, v2 := Dfs(m, end, nb, path', visited');
      if ok {
        AdjacentIsStep(Dirs, u, nb);
        FoundStep(m, path, u, nb, end, visited, before, p2, v2);
        found, path', visited' := true, p2, v2;
        return;
      }
      visited' := v2;
      k := k + 1;
    }
    AdjacentIsStep(Dirs, u, u);
    assert ClosedInto(m, visited' - visited, visited') by {
      forall p, q | p in visited' - visited && Adjacent(p, q) && Free(m, q) ensures q in visited' {
        if p == u {
          AdjacentIsStep(Dirs, u, q);
        }
      }
    }
    path' := path'[..|path'| - 1];
    found := false;
  }

  /** solve_backtracking: no search at all when start or end is a wall; a
      path exactly when end can be reached from start through open cells. */
  method SolveBacktracking(m: seq<seq<int>>, start: Pos := (1, 0), end: Option<Pos> := None)
    returns (path: Option<seq<Pos>>, visited: set<Pos>)
    requires IsGrid(m) && InBounds(m, start) && InBounds(m, ResolveEnd(m, end))
    ensures var e := ResolveEnd(m, end);
      path.Some? <==> IsOpen(m, start) && IsOpen(m, e) && Reachable(m, start, e)
    ensures var e := ResolveEnd(m, end);
      path.Some? ==>
        OpenWalk(m, path.value) && Simple(path.value) &&
        path.value[0] == start && path.value[|path.value| - 1] == e
    ensures var e := ResolveEnd(m, end);
      !IsOpen(m, start) || !IsOpen(m, e) ==> visited == {}
    ensures visited <= OpenCells(m) && ResolveEnd(m, end) !in visited
  {
    var e := ResolveEnd(m, end);
    if !IsOpen(m, start) || !IsOpen(m, e) {
      return None, {};
    }
    var ok, p, v := Dfs(m, e, start, [], {});
    visited := v;
    if !ok {
      assert v - {} == v;
      ClosedSetCutsOff(m, v, start, e);
      path := None;
      return;
    }
    assert p[0..] == p;
    path := Some(p);
  }
}
