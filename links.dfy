/** Walks through a set of squares: the connectivity the Kruskal generator
    builds by opening squares, before a grid is drawn around them. */
module SquareLinks {
  import opened GridPaths

  /** A non-empty walk of 4-adjacent squares, all in S. */
  ghost predicate WalkIn(S: set<Pos>, w: seq<Pos>) {
    |w| > 0 &&
    (forall i :: 0 <= i < |w| ==> w[i] in S) &&
    (forall i :: 0 < i < |w| ==> Adjacent(w[i - 1], w[i]))
  }

  /** a and b are joined by a walk inside S. */
  ghost predicate Linked(S: set<Pos>, a: Pos, b: Pos) {
    exists w {:trigger WalkIn(S, w)} :: WalkIn(S, w) && w[0] == a && w[|w| - 1] == b
  }

  /** Both ends of a link lie in S. */
  lemma LinkedEnds(S: set<Pos>, a: Pos, b: Pos)
    requires Linked(S, a, b)
    ensures a in S && b in S
  {
    var w :| WalkIn(S, w) && w[0] == a && w[|w| - 1] == b;
  }

  /** A square of S is linked to itself. */
  lemma LinkedSelf(S: set<Pos>, a: Pos)
    requires a in S
    ensures Linked(S, a, a)
  {
    assert WalkIn(S, [a]);
  }

  /** Two adjacent squares of S are linked. */
  lemma LinkedStep(S: set<Pos>, a: Pos, b: Pos)
    requires a in S && b in S && Adjacent(a, b)
    ensures Linked(S, a, b)
  {
    assert WalkIn(S, [a, b]);
  }

  /** Opening more squares keeps every link. */
  lemma LinkedGrows(S: set<Pos>, T: set<Pos>, a: Pos, b: Pos)
    requires S <= T && Linked(S, a, b)
    ensures Linked(T, a, b)
  {
    var w :| WalkIn(S, w) && w[0] == a && w[|w| - 1] == b;
    assert WalkIn(T, w);
  }

  /** Adjacency does not depend on the direction of the step. */
  lemma AdjacentSymmetric(a: Pos, b: Pos)
    ensures Adjacent(a, b) <==> Adjacent(b, a)
  {
  }

  lemma LinkedSymmetric(S: set<Pos>, a: Pos, b: Pos)
    requires Linked(S, a, b)
    ensures Linked(S, b, a)
  {
    var w :| WalkIn(S, w) && w[0] == a && w[|w| - 1] == b;
    var v := Reverse(w);
    forall i | 0 < i < |v| ensures Adjacent(v[i - 1], v[i]) {
      var k := |w| - i;
      assert v[i - 1] == w[k] && v[i] == w[k - 1] && Adjacent(w[k - 1], w[k]);
      AdjacentSymmetric(w[k - 1], w[k]);
    }
    assert WalkIn(S, v);
  }

  lemma LinkedTransitive(S: set<Pos>, a: Pos, b: Pos, c: Pos)
    requires Linked(S, a, b) && Linked(S, b, c)
    ensures Linked(S, a, c)
  {
    var u :| WalkIn(S, u) && u[0] == a && u[|u| - 1] == b;
    var w :| WalkIn(S, w) && w[0] == b && w[|w| - 1] == c;
    var v := u + w[1..];
    forall i | 0 < i < |v| ensures Adjacent(v[i - 1], v[i]) {
      if i < |u| {
        assert v[i - 1] == u[i - 1] && v[i] == u[i];
      } else {
        assert v[i] == w[i - |u| + 1];
        assert v[i - 1] == w[i - |u|];
      }
    }
    assert forall i :: 0 <= i < |v| ==> v[i] in S by {
      forall i | 0 <= i < |v| ensures v[i] in S {
        if i >= |u| {
          assert v[i] == w[i - |u| + 1];
        }
      }
    }
    assert WalkIn(S, v);
  }

  /** In a grid in which every square of S is open, a link through S is a
      path the solvers can follow. */
  lemma LinkedReachable(m: seq<seq<int>>, S: set<Pos>, a: Pos, b: Pos)
    requires IsGrid(m) && (forall q :: q in S ==> Free(m, q)) && Linked(S, a, b)
    ensures Reachable(m, a, b)
  {
    var w :| WalkIn(S, w) && w[0] == a && w[|w| - 1] == b;
    assert OpenWalk(m, w);
  }
}
