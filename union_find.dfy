/** The UnionFind class of maze_build.py: a parent list, find with path
    compression and union without ranks.  The class carries a ghost rank
    per element that grows strictly towards the root; it only makes the
    recursion of find terminate and is not part of the source. */
module DisjointSets {

  /** A forest over 0 .. |p| - 1 in which ranks grow strictly from a child
      to its parent and stay below maxRank. */
  ghost predicate Forest(p: seq<nat>, rank: seq<nat>, maxRank: nat) {
    |rank| == |p| &&
    forall i :: 0 <= i < |p| ==> p[i] < |p| && rank[i] <= maxRank && (p[i] != i ==> rank[i] < rank[p[i]])
  }

  /** The root of x: follow parents until an element is its own parent. */
  ghost function Root(p: seq<nat>, rank: seq<nat>, maxRank: nat, x: nat): (r: nat)
    requires Forest(p, rank, maxRank) && x < |p|
    ensures r < |p| && p[r] == r
    ensures p[x] == x ==> r == x
    ensures p[x] != x ==> rank[x] < rank[r]
    decreases maxRank - rank[x]
  {
    if p[x] == x then x else Root(p, rank, maxRank, p[x])
  }

  /** Path compression, maze_build.py:125-126: pointing x straight at its
      root keeps the forest and changes no element's root. */
  lemma Compress(p: seq<nat>, rank: seq<nat>, maxRank: nat, x: nat)
    requires Forest(p, rank, maxRank) && x < |p|
    ensures Forest(p[x := Root(p, rank, maxRank, x)], rank, maxRank)
    ensures forall y :: 0 <= y < |p| ==>
      Root(p[x := Root(p, rank, maxRank, x)], rank, maxRank, y) == Root(p, rank, maxRank, y)
  {
    var p' := p[x := Root(p, rank, maxRank, x)];
    forall y | 0 <= y < |p| ensures Root(p', rank, maxRank, y) == Root(p, rank, maxRank, y) {
      CompressOne(p, rank, maxRank, x, y);
    }
  }

  lemma {:induction false} CompressOne(p: seq<nat>, rank: seq<nat>, maxRank: nat, x: nat, y: nat)
    requires Forest(p, rank, maxRank) && x < |p| && y < |p|
    ensures Forest(p[x := Root(p, rank, maxRank, x)], rank, maxRank)
    ensures Root(p[x := Root(p, rank, maxRank, x)], rank, maxRank, y) == Root(p, rank, maxRank, y)
    decreases maxRank - rank[y]
  {
    var r := Root(p, rank, maxRank, x);
    var p' := p[x := r];
    assert Forest(p', rank, maxRank) by {
      forall i | 0 <= i < |p'| ensures p'[i] < |p'| && rank[i] <= maxRank && (p'[i] != i ==> rank[i] < rank[p'[i]]) {
        if i == x && p[x] == x {
          assert r == x;
        }
      }
    }
    if p[y] != y && y != x {
      CompressOne(p, rank, maxRank, x, p[y]);
      assert p'[y] == p[y];
    } else if y == x && p[x] != x {
      assert p'[r] == r;
    }
  }

  /** The link step of union, maze_build.py:131: hanging root ry under root
      rx (rx != ry) keeps a forest once rx's ghost rank is raised, and moves
      exactly the elements rooted at ry to rx. */
  lemma Link(p: seq<nat>, rank: seq<nat>, maxRank: nat, rx: nat, ry: nat)
    requires Forest(p, rank, maxRank) && rx < |p| && ry < |p| && p[rx] == rx && p[ry] == ry && rx != ry
    ensures Forest(p[ry := rx], LinkRank(rank, rx, ry), LinkBound(rank, maxRank, ry))
    ensures forall y :: 0 <= y < |p| ==>
      Root(p[ry := rx], LinkRank(rank, rx, ry), LinkBound(rank, maxRank, ry), y) ==
        if Root(p, rank, maxRank, y) == ry then rx else Root(p, rank, maxRank, y)
  {
    forall y | 0 <= y < |p| ensures Root(p[ry := rx], LinkRank(rank, rx, ry), LinkBound(rank, maxRank, ry), y) ==
        if Root(p, rank, maxRank, y) == ry then rx else Root(p, rank, maxRank, y) {
      LinkOne(p, rank, maxRank, rx, ry, y);
    }
  }

  /** The ghost rank of rx after linking: above ry's. */
  function LinkRank(rank: seq<nat>, rx: nat, ry: nat): (rank': seq<nat>)
    requires rx < |rank| && ry < |rank|
    ensures |rank'| == |rank| && rank'[rx] > rank[ry] && rank'[rx] >= rank[rx]
    ensures forall i :: 0 <= i < |rank| && i != rx ==> rank'[i] == rank[i]
  {
    rank[rx := if rank[rx] > rank[ry] then rank[rx] else rank[ry] + 1]
  }

  function LinkBound(rank: seq<nat>, maxRank: nat, ry: nat): (m: nat)
    requires ry < |rank|
    ensures m >= maxRank && m > rank[ry]
  {
    if maxRank > rank[ry] then maxRank else rank[ry] + 1
  }

  lemma {:induction false} LinkOne(p: seq<nat>, rank: seq<nat>, maxRank: nat, rx: nat, ry: nat, y: nat)
    requires Forest(p, rank, maxRank) && rx < |p| && ry < |p| && p[rx] == rx && p[ry] == ry && rx != ry
    requires y < |p|
    ensures Forest(p[ry := rx], LinkRank(rank, rx, ry), LinkBound(rank, maxRank, ry))
    ensures Root(p[ry := rx], LinkRank(rank, rx, ry), LinkBound(rank, maxRank, ry), y) ==
        if Root(p, rank, maxRank, y) == ry then rx else Root(p, rank, maxRank, y)
    decreases maxRank - rank[y]
  {
    var p', rank', m' := p[ry := rx], LinkRank(rank, rx, ry), LinkBound(rank, maxRank, ry);
    assert Forest(p', rank', m') by {
      forall i | 0 <= i < |p'| ensures p'[i] < |p'| && rank'[i] <= m' && (p'[i] != i ==> rank'[i] < rank'[p'[i]]) {
        if i != ry && p[i] != i {
          assert p'[i] == p[i] && rank'[i] == rank[i];
        }
      }
    }
    if y == ry {
      assert Root(p', rank', m', rx) == rx;
    } else if p[y] != y {
      LinkOne(p, rank, maxRank, rx, ry, p[y]);
      assert p'[y] == p[y];
    }
  }

  /** The elements that are their own parent: one per set. */
  ghost function Tops(p: seq<nat>): set<nat> {
    set i | 0 <= i < |p| && p[i] == i
  }

  /** Linking removes exactly ry from the tops. */
  lemma LinkTops(p: seq<nat>, rx: nat, ry: nat)
    requires rx < |p| && ry < |p| && p[ry] == ry && rx != ry
    ensures Tops(p[ry := rx]) == Tops(p) - {ry}
    ensures |Tops(p[ry := rx])| == |Tops(p)| - 1
  {
    assert ry in Tops(p);
    assert Tops(p[ry := rx]) == Tops(p) - {ry};
  }

  /** Starting from the identity, every element is a top. */
  lemma {:induction false} IdentityTops(size: nat)
    ensures |Tops(seq(size, i => i))| == size
  {
    if size > 0 {
      IdentityTops(size - 1);
      var p, q := seq(size, i => i), seq(size - 1, i => i);
      assert Tops(p) == Tops(q) + {size - 1};
    }
  }

  /** When every element has the same root, that root is the only top:
      the forest is a single set. */
  lemma OneTop(p: seq<nat>, rank: seq<nat>, maxRank: nat)
    requires Forest(p, rank, maxRank) && |p| > 0
    requires forall i :: 0 <= i < |p| ==> Root(p, rank, maxRank, i) == Root(p, rank, maxRank, 0)
    ensures Tops(p) == {Root(p, rank, maxRank, 0)} && |Tops(p)| == 1
  {
    forall t | t in Tops(p) ensures t == Root(p, rank, maxRank, 0) {
      assert Root(p, rank, maxRank, t) == t;
    }
  }

  /** What union(x, y) does to the roots: y's set moves to x's root. */
  ghost predicate Relinked(p: seq<nat>, rank: seq<nat>, maxRank: nat, p': seq<nat>, rank': seq<nat>, maxRank': nat, x: nat, y: nat) {
    Forest(p, rank, maxRank) && Forest(p', rank', maxRank') && |p'| == |p| && x < |p| && y < |p| &&
    forall z :: 0 <= z < |p| ==>
      Root(p', rank', maxRank', z) ==
        if Root(p, rank, maxRank, z) == Root(p, rank, maxRank, y) then Root(p, rank, maxRank, x) else Root(p, rank, maxRank, z)
  }

  class UnionFind {
    /** self.parent */
    var parent: seq<nat>
    ghost var rank: seq<nat>
    ghost var maxRank: nat

    ghost predicate Valid()
      reads this
    {
      Forest(parent, rank, maxRank)
    }

    /** The root find(x) returns. */
    ghost function RootOf(x: nat): nat
      reads this
      requires Valid() && x < |parent|
    {
      Root(parent, rank, maxRank, x)
    }

    /** One element per set: the elements that are their own parent. */
    ghost function Roots(): set<nat>
      reads this
    {
      Tops(parent)
    }

    /** UnionFind(size): every element alone in its set. */
    constructor (size: nat)
      ensures Valid() && |parent| == size
      ensures forall i :: 0 <= i < size ==> parent[i] == i
      ensures |Roots()| == size
    {
      IdentityTops(size);
      parent := seq(size, i => i);
      rank := seq(size, i => 0);
      maxRank := 0;
    }

    /** find(x), maze_build.py:124-127: returns the root of x, compressing
        the path on the way back; no element changes root and the roots stay
        the same. */
    method Find(x: nat) returns (r: nat)
      modifies this
      requires Valid() && x < |parent|
      ensures Valid() && |parent| == old(|parent|) && rank == old(rank) && maxRank == old(maxRank)
      ensures r == old(RootOf(x)) && r < |parent| && parent[r] == r
      ensures forall y :: 0 <= y < |parent| ==> RootOf(y) == old(RootOf(y))
      ensures Roots() == old(Roots())
      decreases maxRank - rank[x]
    {
      if parent[x] != x {
        ghost var before := RootOf(x);
        var root := Find(parent[x]);
        assert x !in Roots();
        assert RootOf(x) == before == root;
        Compress(parent, rank, maxRank, x);
        parent := parent[x := root];
      }
      r := parent[x];
    }

    /** union(x, y), maze_build.py:128-133: merges the sets of x and y and
        reports whether they were different.  The elements of y's set move to
        x's root, every other element keeps its root, and a merge removes
        exactly one root. */
    method Union(x: nat, y: nat) returns (merged: bool)
      modifies this
      requires Valid() && x < |parent| && y < |parent|
      ensures Valid() && |parent| == old(|parent|)
      ensures merged <==> old(RootOf(x)) != old(RootOf(y))
      ensures RootOf(x) == RootOf(y)
      ensures Relinked(old(parent), old(rank), old(maxRank), parent, rank, maxRank, x, y)
      ensures merged ==> Roots() == old(Roots()) - {old(RootOf(y))} && |Roots()| == old(|Roots()|) - 1
      ensures !merged ==> Roots() == old(Roots())
    {
      ghost var p0 := parent;
      var rx := Find(x);
      var ry := Find(y);
      forall z | 0 <= z < |parent| ensures Root(parent, rank, maxRank, z) == Root(p0, rank, maxRank, z) {
        assert RootOf(z) == old(RootOf(z));
      }
      if rx != ry {
        LinkTops(parent, rx, ry);
        Link(parent, rank, maxRank, rx, ry);
        rank, maxRank := LinkRank(rank, rx, ry), LinkBound(rank, maxRank, ry);
        parent := parent[ry := rx];
        return true;
      }
      return false;
    }
  }
}
