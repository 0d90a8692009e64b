/** a_star of resolv.py: A* search with the Manhattan heuristic, a binary
    heap of (f, g, cell) entries without decrease-key (stale entries are
    skipped when popped), a g_score map and a came_from predecessor map. */
module AStarSolver {
  import opened Grid
  import opened GridPaths

  /** The neighbour order of a_star: up, down, left, right. */
  const Dirs: seq<Pos> := [(-1, 0), (1, 0), (0, -1), (0, 1)]

  /** A heap entry (f, g, (r, c)). */
  datatype Entry = Entry(f: int, g: int, cell: Pos)

  /** The order heapq uses on entries: tuples compare lexicographically, so
      equal f is decided by the smaller g, then the smaller row, then the
      smaller column. */
  predicate EntryLe(a: Entry, b: Entry)
    ensures a.f < b.f ==> EntryLe(a, b)
    ensures EntryLe(a, b) ==> a.f <= b.f
    ensures a == b ==> EntryLe(a, b)
  {
    a.f < b.f || (a.f == b.f &&
      (a.g < b.g || (a.g == b.g &&
        (a.cell.0 < b.cell.0 || (a.cell.0 == b.cell.0 && a.cell.1 <= b.cell.1)))))
  }

  lemma EntryLeTotal(a: Entry, b: Entry)
    ensures EntryLe(a, b) || EntryLe(b, a)
  {
  }

  /** Two entries each at most the other are the same entry. */
  lemma EntryLeAntisymmetric(a: Entry, b: Entry)
    requires EntryLe(a, b) && EntryLe(b, a)
    ensures a == b
  {
  }

  lemma EntryLeTransitive(a: Entry, b: Entry, c: Entry)
    requires EntryLe(a, b) && EntryLe(b, c)
    ensures EntryLe(a, c)
  {
  }

  /** heappop: takes out a least entry.  The heap's array layout is not
      modelled; the queue is the sequence of its entries. */
  method PopMin(heap: seq<Entry>) returns (top: Entry, rest: seq<Entry>)
    requires |heap| > 0
    ensures top in heap && multiset(heap) == multiset(rest) + multiset{top}
    ensures |rest| == |heap| - 1
    ensures forall x :: x in heap ==> EntryLe(top, x)
    ensures forall x :: x in rest ==> x in heap
    ensures forall x :: x in heap && x != top ==> x in rest
  {
    var best := 0;
    var i := 1;
    while i < |heap|
      invariant 0 <= best < i <= |heap|
      invariant forall j :: 0 <= j < i ==> EntryLe(heap[best], heap[j])
    {
      if !EntryLe(heap[best], heap[i]) {
        EntryLeTotal(heap[best], heap[i]);
        forall j | 0 <= j < i ensures EntryLe(heap[i], heap[j]) {
          EntryLeTransitive(heap[i], heap[best], heap[j]);
        }
        best := i;
      }
      i := i + 1;
    }
    top := heap[best];
    rest := heap[..best] + heap[best + 1..];
    assert heap == heap[..best] + [top] + heap[best + 1..];
    forall x | x in heap && x != top ensures x in rest {
      assert x in multiset(heap);
    }
    forall x | x in rest ensures x in heap {
      assert x in multiset(rest);
    }
  }

  // ---------------------------------------------------------------------
  // The state of the search loop and what it keeps true.

  /** g_score and came_from: start has cost 0 and no predecessor; every other
      scored cell is an open cell with a 4-adjacent predecessor of strictly
      smaller score, so following came_from always ends at start. */
  ghost predicate ScoresOk(m: seq<seq<int>>, start: Pos, gScore: map<Pos, int>, cameFrom: map<Pos, Pos>)
    requires IsGrid(m)
  {
    start in gScore && gScore[start] == 0 && start !in cameFrom &&
    gScore.Keys == cameFrom.Keys + {start} &&
    (forall x :: x in gScore ==> gScore[x] >= 0) &&
    (forall x {:trigger cameFrom[x]} :: x in cameFrom ==>
      cameFrom[x] in gScore && Adjacent(cameFrom[x], x) && Free(m, x) &&
      gScore[cameFrom[x]] < gScore[x])
  }

  /** Every heap entry is (g + h, g, cell) for a scored cell whose score is
      at most g. */
  ghost predicate HeapOk(e: Pos, heap: seq<Entry>, gScore: map<Pos, int>) {
    forall en {:trigger en in heap} :: en in heap ==>
      en.cell in gScore && en.g >= 0 && en.f == en.g + Manhattan(en.cell, e) && gScore[en.cell] <= en.g
  }

  /** A scored cell that is not closed still has its current entry queued. */
  ghost predicate Pending(e: Pos, heap: seq<Entry>, gScore: map<Pos, int>, visited: set<Pos>) {
    forall x {:trigger x in gScore} :: x in gScore && x !in visited ==> Entry(gScore[x] + Manhattan(x, e), gScore[x], x) in heap
  }

  /** Closing a cell w scored all its open neighbours with at most the cost
      w was closed with, plus one. */
  ghost predicate NeighboursScored(m: seq<seq<int>>, gScore: map<Pos, int>, W: set<Pos>, closedG: map<Pos, int>)
    requires IsGrid(m)
  {
    forall w, q {:trigger Adjacent(w, q)} :: w in W && Adjacent(w, q) && Free(m, q) ==>
      w in closedG && q in gScore && gScore[q] <= closedG[w] + 1
  }

  /** Every closed cell was closed with a cost no walk from start beats. */
  ghost predicate ClosedOptimal(m: seq<seq<int>>, start: Pos, visited: set<Pos>, closedG: map<Pos, int>)
    requires IsGrid(m)
  {
    closedG.Keys == visited &&
    forall q {:trigger Walk(m, q)} :: Walk(m, q) && q[0] == start && q[|q| - 1] in visited ==> closedG[q[|q| - 1]] <= |q| - 1
  }

  /** What relaxing neighbours keeps: consistent scores, a truthful heap,
      every unclosed scored cell queued, and the neighbours of the cells in
      done scored. */
  ghost predicate Queued(m: seq<seq<int>>, start: Pos, e: Pos, heap: seq<Entry>, gScore: map<Pos, int>,
                         cameFrom: map<Pos, Pos>, visited: set<Pos>, done: set<Pos>, closedG: map<Pos, int>)
    requires IsGrid(m)
  {
    ScoresOk(m, start, gScore, cameFrom) && HeapOk(e, heap, gScore) && Pending(e, heap, gScore, visited) &&
    NeighboursScored(m, gScore, done, closedG)
  }

  /** The invariant of the search loop. */
  ghost predicate SearchInv(m: seq<seq<int>>, start: Pos, e: Pos, heap: seq<Entry>, gScore: map<Pos, int>,
                            cameFrom: map<Pos, Pos>, visited: set<Pos>, closedG: map<Pos, int>)
    requires IsGrid(m)
  {
    Queued(m, start, e, heap, gScore, cameFrom, visited, visited, closedG) &&
    ClosedOptimal(m, start, visited, closedG) && visited <= gScore.Keys && e !in visited
  }

  /** The state just after cur is closed, before its neighbours are relaxed:
      the cells of done have their neighbours scored, and cur is closed with a
      cost at least its score. */
  ghost predicate Closing(m: seq<seq<int>>, start: Pos, e: Pos, heap: seq<Entry>, gScore: map<Pos, int>,
                          cameFrom: map<Pos, Pos>, done: set<Pos>, closedG: map<Pos, int>, cur: Pos)
    requires IsGrid(m)
  {
    Queued(m, start, e, heap, gScore, cameFrom, done + {cur}, done, closedG) &&
    ClosedOptimal(m, start, done + {cur}, closedG) && done + {cur} <= gScore.Keys && e !in done &&
    cur in closedG && gScore[cur] <= closedG[cur] && closedG[cur] >= 0
  }

  /** The index of the first cell of q outside S. */
  ghost function FirstOutside(q: seq<Pos>, S: set<Pos>, from: nat): (k: nat)
    requires from < |q| && q[|q| - 1] !in S
    requires forall j :: 0 <= j < from ==> q[j] in S
    ensures from <= k < |q| && q[k] !in S && forall j :: 0 <= j < k ==> q[j] in S
    decreases |q| - from
  {
    if q[from] !in S then from else FirstOutside(q, S, from + 1)
  }

  lemma ManhattanTriangle(a: Pos, b: Pos, c: Pos)
    ensures Manhattan(a, c) <= Manhattan(a, b) + Manhattan(b, c)
  {
  }

  /** Along a walk from start to an unclosed cell u, the first cell not yet
      closed is queued with an entry whose f is at most the walk's length in
      steps plus h(u): its cost is at most its position on the walk, and the
      Manhattan distance never overestimates the rest of the walk. */
  lemma FrontierEntry(m: seq<seq<int>>, start: Pos, e: Pos, heap: seq<Entry>, gScore: map<Pos, int>,
                      cameFrom: map<Pos, Pos>, visited: set<Pos>, closedG: map<Pos, int>, q: seq<Pos>)
    returns (ev: Entry)
    requires IsGrid(m)
    requires start in gScore && gScore[start] == 0 && Pending(e, heap, gScore, visited)
    requires NeighboursScored(m, gScore, visited, closedG) && ClosedOptimal(m, start, visited, closedG)
    requires Walk(m, q) && q[0] == start && q[|q| - 1] !in visited
    ensures ev in heap && ev.f <= |q| - 1 + Manhattan(q[|q| - 1], e)
  {
    var u := q[|q| - 1];
    var k := FirstOutside(q, visited, 0);
    var v := q[k];
    if k > 0 {
      ScoredAlongWalk(m, start, gScore, visited, closedG, q, k);
    }
    var gv := gScore[v];
    assert gv <= k;
    ev := Entry(gv + Manhattan(v, e), gv, v);
    assert ev in heap;
    WalkLongerThanManhattan(m, q, k, |q| - 1);
    ManhattanTriangle(v, u, e);
  }

  /** The cell after a closed cell on a walk from start is scored with at
      most its position on the walk. */
  lemma ScoredAlongWalk(m: seq<seq<int>>, start: Pos, gScore: map<Pos, int>, visited: set<Pos>,
                        closedG: map<Pos, int>, q: seq<Pos>, k: int)
    requires IsGrid(m) && NeighboursScored(m, gScore, visited, closedG) && ClosedOptimal(m, start, visited, closedG)
    requires Walk(m, q) && q[0] == start && 0 < k < |q| && q[k - 1] in visited
    ensures q[k] in gScore && gScore[q[k]] <= k
  {
    var p := q[..k];
    WalkPrefix(m, q, k);
    assert p[|p| - 1] == q[k - 1] && p[0] == start;
    assert closedG[q[k - 1]] <= k - 1;
    assert Adjacent(q[k - 1], q[k]) && Free(m, q[k]);
  }

  /** The heart of A*'s optimality: with a consistent heuristic, the least
      entry of the heap, if its cell is not closed yet, carries a cost no walk
      from start to that cell beats. */
  lemma PopIsOptimal(m: seq<seq<int>>, start: Pos, e: Pos, heap: seq<Entry>, gScore: map<Pos, int>,
                     cameFrom: map<Pos, Pos>, visited: set<Pos>, closedG: map<Pos, int>, top: Entry, q: seq<Pos>)
    requires IsGrid(m) && SearchInv(m, start, e, heap, gScore, cameFrom, visited, closedG)
    requires top in heap && (forall x :: x in heap ==> EntryLe(top, x)) && top.cell !in visited
    requires Walk(m, q) && q[0] == start && q[|q| - 1] == top.cell
    ensures top.g <= |q| - 1
  {
    var ev := FrontierEntry(m, start, e, heap, gScore, cameFrom, visited, closedG, q);
    assert EntryLe(top, ev);
  }

  /** Once the heap is empty, the closed cells are closed under open
      neighbours, so no walk from start reaches an unclosed end. */
  lemma ExhaustedMeansUnreachable(m: seq<seq<int>>, start: Pos, e: Pos, gScore: map<Pos, int>,
                                  cameFrom: map<Pos, Pos>, visited: set<Pos>, closedG: map<Pos, int>)
    requires IsGrid(m) && SearchInv(m, start, e, [], gScore, cameFrom, visited, closedG)
    ensures !WalkReaches(m, start, e)
  {
    assert start in visited;
    assert ClosedInto(m, visited, visited);
    ClosedSetCutsOff(m, visited, start, e);
  }

  // ---------------------------------------------------------------------
  // One step of the search at a time.

  /** Popping an entry of an already closed cell (a stale entry) changes
      nothing else. */
  lemma SkipStale(m: seq<seq<int>>, start: Pos, e: Pos, heap: seq<Entry>, gScore: map<Pos, int>,
                  cameFrom: map<Pos, Pos>, visited: set<Pos>, closedG: map<Pos, int>, top: Entry, rest: seq<Entry>)
    requires IsGrid(m) && SearchInv(m, start, e, heap, gScore, cameFrom, visited, closedG)
    requires top.cell in visited
    requires forall x :: x in rest ==> x in heap
    requires forall x :: x in heap && x != top ==> x in rest
    ensures SearchInv(m, start, e, rest, gScore, cameFrom, visited, closedG)
  {
  }

  /** Every scored cell other than start is open and in bounds. */
  lemma ScoredIsOpen(m: seq<seq<int>>, start: Pos, gScore: map<Pos, int>, cameFrom: map<Pos, Pos>, x: Pos)
    requires IsGrid(m) && ScoresOk(m, start, gScore, cameFrom) && x in gScore
    ensures x == start || x in OpenCells(m)
  {
    if x != start {
      assert x in cameFrom;
      assert Free(m, x) by {
        var y := cameFrom[x];
      }
    }
  }

  lemma CloseHeap(e: Pos, heap: seq<Entry>, gScore: map<Pos, int>, rest: seq<Entry>)
    requires HeapOk(e, heap, gScore) && forall x :: x in rest ==> x in heap
    ensures HeapOk(e, rest, gScore)
  {
  }

  lemma ClosePending(e: Pos, heap: seq<Entry>, gScore: map<Pos, int>, visited: set<Pos>, top: Entry, rest: seq<Entry>)
    requires Pending(e, heap, gScore, visited)
    requires forall x :: x in heap && x != top ==> x in rest
    ensures Pending(e, rest, gScore, visited + {top.cell})
  {
  }

  lemma CloseNeighbours(m: seq<seq<int>>, gScore: map<Pos, int>, visited: set<Pos>, closedG: map<Pos, int>,
                        cur: Pos, g: int)
    requires IsGrid(m) && NeighboursScored(m, gScore, visited, closedG) && cur !in visited
    ensures NeighboursScored(m, gScore, visited, closedG[cur := g])
  {
  }

  lemma CloseOptimal(m: seq<seq<int>>, start: Pos, visited: set<Pos>, closedG: map<Pos, int>, cur: Pos, g: int)
    requires IsGrid(m) && ClosedOptimal(m, start, visited, closedG)
    requires forall q {:trigger Walk(m, q)} :: Walk(m, q) && q[0] == start && q[|q| - 1] == cur ==> g <= |q| - 1
    ensures ClosedOptimal(m, start, visited + {cur}, closedG[cur := g])
  {
  }

  /** Closing the cell of the least entry: it keeps the cost it was popped
      with, which no walk from start beats. */
  lemma CloseCell(m: seq<seq<int>>, start: Pos, e: Pos, heap: seq<Entry>, gScore: map<Pos, int>,
                  cameFrom: map<Pos, Pos>, visited: set<Pos>, closedG: map<Pos, int>, top: Entry, rest: seq<Entry>)
    requires IsGrid(m) && SearchInv(m, start, e, heap, gScore, cameFrom, visited, closedG)
    requires top in heap && (forall x :: x in heap ==> EntryLe(top, x)) && top.cell !in visited
    requires forall x :: x in rest ==> x in heap
    requires forall x :: x in heap && x != top ==> x in rest
    ensures Closing(m, start, e, rest, gScore, cameFrom, visited, closedG[top.cell := top.g], top.cell)
    ensures top.cell in gScore && gScore[top.cell] <= top.g
    ensures forall q {:trigger Walk(m, q)} :: Walk(m, q) && q[0] == start && q[|q| - 1] == top.cell ==> top.g <= |q| - 1
  {
    forall q | Walk(m, q) && q[0] == start && q[|q| - 1] == top.cell ensures top.g <= |q| - 1 {
      PopIsOptimal(m, start, e, heap, gScore, cameFrom, visited, closedG, top, q);
    }
    CloseHeap(e, heap, gScore, rest);
    ClosePending(e, heap, gScore, visited, top, rest);
    CloseNeighbours(m, gScore, visited, closedG, top.cell, top.g);
    CloseOptimal(m, start, visited, closedG, top.cell, top.g);
  }

  /** Once every open neighbour of the newly closed cell is scored, the loop
      invariant holds again. */
  lemma Reestablish(m: seq<seq<int>>, start: Pos, e: Pos, heap: seq<Entry>, gScore: map<Pos, int>,
                    cameFrom: map<Pos, Pos>, done: set<Pos>, closedG: map<Pos, int>, cur: Pos)
    requires IsGrid(m) && Queued(m, start, e, heap, gScore, cameFrom, done + {cur}, done, closedG)
    requires ClosedOptimal(m, start, done + {cur}, closedG) && done + {cur} <= gScore.Keys
    requires e !in done && cur != e && cur in closedG
    requires forall q {:trigger Adjacent(cur, q)} :: Adjacent(cur, q) && Free(m, q) ==> q in gScore && gScore[q] <= closedG[cur] + 1
    ensures SearchInv(m, start, e, heap, gScore, cameFrom, done + {cur}, closedG)
  {
  }

  /** The cells closed so far, each closed once, in the order of closing. */
  ghost predicate ClosedLog(m: seq<seq<int>>, start: Pos, visited: set<Pos>, closedOrder: seq<Pos>)
    requires IsGrid(m)
  {
    visited <= OpenCells(m) + {start} && Simple(closedOrder) && forall p :: p in closedOrder <==> p in visited
  }

  lemma LogClosing(m: seq<seq<int>>, start: Pos, visited: set<Pos>, closedOrder: seq<Pos>, cur: Pos)
    requires IsGrid(m) && ClosedLog(m, start, visited, closedOrder)
    requires cur !in visited && cur in OpenCells(m) + {start}
    ensures ClosedLog(m, start, visited + {cur}, closedOrder + [cur])
  {
    var o := closedOrder + [cur];
    forall i, j | 0 <= i < j < |o| ensures o[i] != o[j] {
      if j == |o| - 1 {
        assert o[i] == closedOrder[i];
      } else {
        assert o[i] == closedOrder[i] && o[j] == closedOrder[j];
      }
    }
  }

  /** a_star.  The first time end is popped, the predecessor chain gives a
      walk from start to end that no other walk is shorter than; "no path"
      comes back exactly when no walk from start reaches end.  Every cell of
      the walk after start is open and in bounds; start itself is never
      checked.  Each cell is closed at most once (closedOrder lists the
      closings). */
  method AStar(m: seq<seq<int>>, start: Pos := (1, 0), end: Option<Pos> := None)
    returns (path: Option<seq<Pos>>, visited: set<Pos>, ghost closedOrder: seq<Pos>)
    requires IsGrid(m)
    ensures var e := ResolveEnd(m, end);
      path.Some? ==> Walk(m, path.value) && path.value[0] == start && path.value[|path.value| - 1] == e
    ensures var e := ResolveEnd(m, end);
      path.Some? ==> forall q {:trigger Walk(m, q)} :: Walk(m, q) && q[0] == start && q[|q| - 1] == e ==> |path.value| <= |q|
    ensures path.None? <==> !WalkReaches(m, start, ResolveEnd(m, end))
    ensures path.Some? <==> ResolveEnd(m, end) in visited
    ensures ClosedLog(m, start, visited, closedOrder)
  {
    var e := ResolveEnd(m, end);
    var heap := [Entry(Manhattan(start, e), 0, start)];
    var cameFrom: map<Pos, Pos> := map[];
    var gScore: map<Pos, int> := map[start := 0];
    visited := {};
    ghost var closedG: map<Pos, int> := map[];
    closedOrder := [];

    while |heap| > 0
      invariant SearchInv(m, start, e, heap, gScore, cameFrom, visited, closedG)
      invariant ClosedLog(m, start, visited, closedOrder)
      decreases (OpenCells(m) + {start}) - visited, |heap|
    {
      var top, rest := PopMin(heap);
      var gcur, cur := top.g, top.cell;
      if cur in visited {
        SkipStale(m, start, e, heap, gScore, cameFrom, visited, closedG, top, rest);
        heap := rest;
        continue;
      }
      CloseCell(m, start, e, heap, gScore, cameFrom, visited, closedG, top, rest);
      ScoredIsOpen(m, start, gScore, cameFrom, cur);
      LogClosing(m, start, visited, closedOrder, cur);
      ghost var done := visited;
      heap := rest;
      visited := visited + {cur};
      closedG := closedG[cur := gcur];
      closedOrder := closedOrder + [cur];

      if cur == e {
        var p := Reconstruct(m, start, e, gScore, cameFrom);
        FoundIsShortest(m, start, e, p, gScore[e], gcur);
        path := Some(p);
        return;
      }

      heap, gScore, cameFrom := Expand(m, start, e, cur, gcur, heap, gScore, cameFrom, visited, done, closedG);
      Reestablish(m, start, e, heap, gScore, cameFrom, done, closedG, cur);
    }
    ExhaustedMeansUnreachable(m, start, e, gScore, cameFrom, visited, closedG);
    path := None;
  }

  /** The reconstructed walk is no longer than any walk from start to end. */
  lemma FoundIsShortest(m: seq<seq<int>>, start: Pos, e: Pos, p: seq<Pos>, ge: int, g: int)
    requires IsGrid(m) && Walk(m, p) && p[0] == start && p[|p| - 1] == e
    requires |p| <= ge + 1 && ge <= g
    requires forall q {:trigger Walk(m, q)} :: Walk(m, q) && q[0] == start && q[|q| - 1] == e ==> g <= |q| - 1
    ensures WalkReaches(m, start, e)
    ensures forall q {:trigger Walk(m, q)} :: Walk(m, q) && q[0] == start && q[|q| - 1] == e ==> |p| <= |q|
  {
  }

  /** Relaxing one neighbour nb of cur keeps the score and predecessor maps
      consistent: nb is never start, whose score 0 no tentative cost beats. */
  lemma RelaxScores(m: seq<seq<int>>, start: Pos, gScore: map<Pos, int>, cameFrom: map<Pos, Pos>,
                    cur: Pos, gcur: int, nb: Pos, t: int)
    requires IsGrid(m) && ScoresOk(m, start, gScore, cameFrom)
    requires cur in gScore && gScore[cur] <= gcur && gcur >= 0 && t == gcur + 1
    requires Adjacent(cur, nb) && Free(m, nb) && (nb !in gScore || t < gScore[nb])
    ensures ScoresOk(m, start, gScore[nb := t], cameFrom[nb := cur])
  {
    var g', c' := gScore[nb := t], cameFrom[nb := cur];
    assert nb != start;
    assert g'.Keys == c'.Keys + {start};
    forall x | x in c' ensures c'[x] in g' && Adjacent(c'[x], x) && Free(m, x) && g'[c'[x]] < g'[x] {
      if x != nb {
        assert c'[x] == cameFrom[x];
      }
    }
  }

  lemma RelaxHeap(e: Pos, heap: seq<Entry>, gScore: map<Pos, int>, nb: Pos, t: int)
    requires HeapOk(e, heap, gScore) && t >= 0 && (nb !in gScore || t < gScore[nb])
    ensures HeapOk(e, heap + [Entry(t + Manhattan(nb, e), t, nb)], gScore[nb := t])
  {
  }

  lemma RelaxPending(e: Pos, heap: seq<Entry>, gScore: map<Pos, int>, visited: set<Pos>, nb: Pos, t: int)
    requires Pending(e, heap, gScore, visited)
    ensures Pending(e, heap + [Entry(t + Manhattan(nb, e), t, nb)], gScore[nb := t], visited)
  {
  }

  lemma RelaxNeighbours(m: seq<seq<int>>, gScore: map<Pos, int>, done: set<Pos>, closedG: map<Pos, int>, nb: Pos, t: int)
    requires IsGrid(m) && NeighboursScored(m, gScore, done, closedG) && (nb !in gScore || t < gScore[nb])
    ensures NeighboursScored(m, gScore[nb := t], done, closedG)
  {
  }

  /** One relaxation keeps everything the neighbour loop maintains. */
  lemma Relax(m: seq<seq<int>>, start: Pos, e: Pos, heap: seq<Entry>, gScore: map<Pos, int>,
              cameFrom: map<Pos, Pos>, visited: set<Pos>, done: set<Pos>, closedG: map<Pos, int>,
              cur: Pos, gcur: int, nb: Pos, t: int)
    requires IsGrid(m) && Queued(m, start, e, heap, gScore, cameFrom, visited, done, closedG)
    requires cur in gScore && gScore[cur] <= gcur && gcur >= 0 && t == gcur + 1
    requires Adjacent(cur, nb) && Free(m, nb) && (nb !in gScore || t < gScore[nb])
    ensures Queued(m, start, e, heap + [Entry(t + Manhattan(nb, e), t, nb)],
                   gScore[nb := t], cameFrom[nb := cur], visited, done, closedG)
  {
    RelaxScores(m, start, gScore, cameFrom, cur, gcur, nb, t);
    RelaxHeap(e, heap, gScore, nb, t);
    RelaxPending(e, heap, gScore, visited, nb, t);
    RelaxNeighbours(m, gScore, done, closedG, nb, t);
  }

  /** One pass of the neighbour loop of a_star: if nb is an open in-bounds
      cell and the tentative cost gcur + 1 beats its recorded score (or it has
      none yet), nb gets that score, a new heap entry and cur as predecessor.
      No score goes up. */
  method RelaxNeighbour(m: seq<seq<int>>, start: Pos, e: Pos, cur: Pos, gcur: int, nb: Pos, heap: seq<Entry>,
                        gScore: map<Pos, int>, cameFrom: map<Pos, Pos>,
                        ghost visited: set<Pos>, ghost done: set<Pos>, ghost closedG: map<Pos, int>)
    returns (heap': seq<Entry>, gScore': map<Pos, int>, cameFrom': map<Pos, Pos>)
    requires IsGrid(m) && Queued(m, start, e, heap, gScore, cameFrom, visited, done, closedG)
    requires cur in gScore && gScore[cur] <= gcur && gcur >= 0 && Adjacent(cur, nb)
    ensures Queued(m, start, e, heap', gScore', cameFrom', visited, done, closedG)
    ensures Free(m, nb) ==> nb in gScore' && gScore'[nb] <= gcur + 1
    ensures forall x {:trigger x in gScore} :: x in gScore ==> x in gScore' && gScore'[x] <= gScore[x]
  {
    heap', gScore', cameFrom' := heap, gScore, cameFrom;
    if 0 <= nb.0 < |m| && 0 <= nb.1 < |m[0]| && m[nb.0][nb.1] == 0 {
      var tentative := gcur + 1;
      if nb !in gScore || tentative < gScore[nb] {
        gScore' := gScore[nb := tentative];
        heap' := heap + [Entry(tentative + Manhattan(nb, e), tentative, nb)];
        cameFrom' := cameFrom[nb := cur];
        Relax(m, start, e, heap, gScore, cameFrom, visited, done, closedG, cur, gcur, nb, tentative);
      }
    }
  }

  /** The neighbour loop of a_star over up, down, left and right: afterwards
      every open neighbour of cur has a score of at most gcur + 1. */
  method Expand(m: seq<seq<int>>, start: Pos, e: Pos, cur: Pos, gcur: int, heap: seq<Entry>,
                gScore: map<Pos, int>, cameFrom: map<Pos, Pos>,
                ghost visited: set<Pos>, ghost done: set<Pos>, ghost closedG: map<Pos, int>)
    returns (heap': seq<Entry>, gScore': map<Pos, int>, cameFrom': map<Pos, Pos>)
    requires IsGrid(m) && Queued(m, start, e, heap, gScore, cameFrom, visited, done, closedG)
    requires cur in gScore && gScore[cur] <= gcur && gcur >= 0
    ensures Queued(m, start, e, heap', gScore', cameFrom', visited, done, closedG)
    ensures forall q {:trigger Adjacent(cur, q)} :: Adjacent(cur, q) && Free(m, q) ==> q in gScore' && gScore'[q] <= gcur + 1
    ensures forall x {:trigger x in gScore} :: x in gScore ==> x in gScore' && gScore'[x] <= gScore[x]
  {
    heap', gScore', cameFrom' := heap, gScore, cameFrom;
    var k := 0;
    while k < 4
      invariant 0 <= k <= 4
      invariant Queued(m, start, e, heap', gScore', cameFrom', visited, done, closedG)
      invariant forall x {:trigger x in gScore} :: x in gScore ==> x in gScore' && gScore'[x] <= gScore[x]
      invariant forall j :: 0 <= j < k && Free(m, Step(Dirs, cur, j)) ==>
        Step(Dirs, cur, j) in gScore' && gScore'[Step(Dirs, cur, j)] <= gcur + 1
    {
      AdjacentIsStep(Dirs, cur, Step(Dirs, cur, k));
      ghost var g0 := gScore';
      heap', gScore', cameFrom' := RelaxNeighbour(m, start, e, cur, gcur, Step(Dirs, cur, k), heap', gScore', cameFrom',
                                                  visited, done, closedG);
      forall j | 0 <= j < k && Free(m, Step(Dirs, cur, j)) ensures Step(Dirs, cur, j) in gScore' && gScore'[Step(Dirs, cur, j)] <= gcur + 1 {
        assert Step(Dirs, cur, j) in g0;
      }
      k := k + 1;
    }
    forall q {:trigger Adjacent(cur, q)} | Adjacent(cur, q) && Free(m, q) ensures q in gScore' && gScore'[q] <= gcur + 1 {
      AdjacentIsStep(Dirs, cur, q);
    }
  }

  /** The reconstruction loop: follow came_from back from end, append start,
      reverse.  The walk has at most g_score[end] steps. */
  method Reconstruct(m: seq<seq<int>>, start: Pos, e: Pos, gScore: map<Pos, int>, cameFrom: map<Pos, Pos>)
    returns (path: seq<Pos>)
    requires IsGrid(m) && ScoresOk(m, start, gScore, cameFrom) && e in gScore
    ensures Walk(m, path) && path[0] == start && path[|path| - 1] == e
    ensures |path| <= gScore[e] + 1
  {
    var rev: seq<Pos> := [];
    var x := e;
    while x in cameFrom
      invariant x in gScore && |rev| + gScore[x] <= gScore[e]
      invariant rev == [] ==> x == e
      invariant rev != [] ==> rev[0] == e && Link(cameFrom, rev[|rev| - 1], x)
      invariant Chain(cameFrom, rev)
      decreases gScore[x]
    {
      ChainSnoc(cameFrom, rev, x);
      rev := rev + [x];
      x := cameFrom[x];
    }
    assert x == start;
    ChainSnoc(cameFrom, rev, start);
    var s := rev + [start];
    ChainWalk(m, start, gScore, cameFrom, s);
    path := Reverse(s);
  }

  /** b is the recorded predecessor of a. */
  ghost predicate Link(cameFrom: map<Pos, Pos>, a: Pos, b: Pos) {
    a in cameFrom && b == cameFrom[a]
  }

  /** Each cell of s but the last has a predecessor, and that predecessor
      comes next in s. */
  ghost predicate Chain(cameFrom: map<Pos, Pos>, s: seq<Pos>) {
    forall i :: 0 <= i < |s| - 1 ==> Link(cameFrom, s[i], s[i + 1])
  }

  /** Appending the predecessor of the last cell extends a chain. */
  lemma ChainSnoc(cameFrom: map<Pos, Pos>, s: seq<Pos>, y: Pos)
    requires Chain(cameFrom, s) && (s != [] ==> Link(cameFrom, s[|s| - 1], y))
    ensures Chain(cameFrom, s + [y])
  {
    var t := s + [y];
    forall i | 0 <= i < |t| - 1 ensures Link(cameFrom, t[i], t[i + 1]) {
      assert t[i] == s[i];
      if i < |s| - 1 {
        assert t[i + 1] == s[i + 1] && Link(cameFrom, s[i], s[i + 1]);
      } else {
        assert t[i + 1] == y;
      }
    }
  }

  /** A chain read backwards is a walk: every predecessor is 4-adjacent to
      its successor, which is open. */
  lemma ChainWalk(m: seq<seq<int>>, start: Pos, gScore: map<Pos, int>, cameFrom: map<Pos, Pos>, s: seq<Pos>)
    requires IsGrid(m) && ScoresOk(m, start, gScore, cameFrom) && |s| > 0 && Chain(cameFrom, s)
    ensures Walk(m, Reverse(s))
  {
    var path := Reverse(s);
    forall i | 0 < i < |path| ensures Free(m, path[i]) && Adjacent(path[i - 1], path[i]) {
      var j := |s| - 1 - i;
      assert path[i] == s[j] && path[i - 1] == s[j + 1];
      LinkStep(m, start, gScore, cameFrom, s[j], s[j + 1]);
    }
  }

  /** A scored cell with a predecessor is open and 4-adjacent to it. */
  lemma LinkStep(m: seq<seq<int>>, start: Pos, gScore: map<Pos, int>, cameFrom: map<Pos, Pos>, a: Pos, b: Pos)
    requires IsGrid(m) && ScoresOk(m, start, gScore, cameFrom) && Link(cameFrom, a, b)
    ensures Free(m, a) && Adjacent(b, a)
  {
  }
}
