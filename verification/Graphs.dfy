/** Walks, reachability and cycles in a finite directed graph given by its edges. */
module Graphs {

  import opened Collections

  ghost predicate StepAt<N>(edges: set<(N, N)>, p: seq<N>, i: nat)
    requires i + 1 < |p|
  {
    (p[i], p[i + 1]) in edges
  }

  /** A non-empty sequence of nodes each joined to the next by an edge. */
  ghost predicate Walk<N(!new)>(edges: set<(N, N)>, p: seq<N>) {
    |p| >= 1 && forall i: nat :: i + 1 < |p| ==> StepAt(edges, p, i)
  }

  ghost predicate WalkBetween<N(!new)>(edges: set<(N, N)>, p: seq<N>, a: N, b: N) {
    Walk(edges, p) && p[0] == a && p[|p| - 1] == b
  }

  /** `b` can be reached from `a` along zero or more edges. */
  ghost predicate Reaches<N(!new)>(edges: set<(N, N)>, a: N, b: N) {
    exists p :: WalkBetween(edges, p, a, b)
  }

  ghost predicate Cycle<N(!new)>(edges: set<(N, N)>, p: seq<N>) {
    Walk(edges, p) && |p| >= 2 && p[0] == p[|p| - 1]
  }

  ghost predicate Acyclic<N(!new)>(edges: set<(N, N)>) {
    forall p :: !Cycle(edges, p)
  }

  lemma ReachesSelf<N(!new)>(edges: set<(N, N)>, a: N)
    ensures Reaches(edges, a, a)
  {
    assert WalkBetween(edges, [a], a, a);
  }

  /** Any stretch of a walk is a walk. */
  lemma Stretch<N(!new)>(edges: set<(N, N)>, p: seq<N>, i: nat, j: nat)
    requires Walk(edges, p) && i <= j < |p|
    ensures WalkBetween(edges, p[i..j + 1], p[i], p[j])
  {
    var q := p[i..j + 1];
    forall k: nat | k + 1 < |q|
      ensures StepAt(edges, q, k)
    {
      assert StepAt(edges, p, i + k);
    }
  }

  lemma Prepend<N(!new)>(edges: set<(N, N)>, a: N, p: seq<N>)
    requires Walk(edges, p) && (a, p[0]) in edges
    ensures WalkBetween(edges, [a] + p, a, p[|p| - 1])
  {
    var q := [a] + p;
    forall k: nat | k + 1 < |q|
      ensures StepAt(edges, q, k)
    {
      if k > 0 { assert StepAt(edges, p, k - 1); }
    }
  }

  lemma Append<N(!new)>(edges: set<(N, N)>, p: seq<N>, b: N)
    requires Walk(edges, p) && (p[|p| - 1], b) in edges
    ensures WalkBetween(edges, p + [b], p[0], b)
  {
    var q := p + [b];
    forall k: nat | k + 1 < |q|
      ensures StepAt(edges, q, k)
    {
      if k + 1 < |p| { assert StepAt(edges, p, k); }
    }
  }

  lemma ReachesPrepend<N(!new)>(edges: set<(N, N)>, a: N, m: N, b: N)
    requires (a, m) in edges && Reaches(edges, m, b)
    ensures Reaches(edges, a, b)
  {
    var p :| WalkBetween(edges, p, m, b);
    Prepend(edges, a, p);
  }

  /** A set of nodes that no edge leaves holds every walk that starts in it. */
  lemma {:induction false} ClosedHoldsWalk<N(!new)>(edges: set<(N, N)>, closed: set<N>, p: seq<N>, i: nat)
    requires forall a, b :: (a, b) in edges && a in closed ==> b in closed
    requires Walk(edges, p) && p[0] in closed && i < |p|
    ensures p[i] in closed
  {
    if i > 0 {
      ClosedHoldsWalk(edges, closed, p, i - 1);
      assert StepAt(edges, p, i - 1);
    }
  }

  /** A walk through more positions than there are nodes runs around a cycle. */
  lemma LongWalkHasCycle<N(!new)>(edges: set<(N, N)>, p: seq<N>, nodes: set<N>)
    requires Walk(edges, p) && |p| > |nodes|
    requires forall i :: 0 <= i < |p| ==> p[i] in nodes
    ensures exists c :: Cycle(edges, c) && forall x :: x in c ==> x in nodes
  {
    if Distinct(p) {
      Pigeonhole(p, nodes);
    }
    var i, j :| 0 <= i < j < |p| && p[i] == p[j];
    Stretch(edges, p, i, j);
    assert Cycle(edges, p[i..j + 1]);
  }

  ghost predicate HasSuccessorIn<N(!new)>(edges: set<(N, N)>, nodes: set<N>, a: N) {
    exists b :: b in nodes && (a, b) in edges
  }

  lemma {:induction false} WalkOfLength<N(!new)>(edges: set<(N, N)>, nodes: set<N>, start: N, n: nat)
    returns (p: seq<N>)
    requires start in nodes
    requires forall a :: a in nodes ==> HasSuccessorIn(edges, nodes, a)
    ensures Walk(edges, p) && |p| == n + 1 && p[0] == start
    ensures forall i :: 0 <= i < |p| ==> p[i] in nodes
  {
    if n == 0 {
      p := [start];
    } else {
      var q := WalkOfLength(edges, nodes, start, n - 1);
      assert HasSuccessorIn(edges, nodes, q[|q| - 1]);
      var b :| b in nodes && (q[|q| - 1], b) in edges;
      Append(edges, q, b);
      p := q + [b];
    }
  }

  /** If every node of a finite non-empty set has a successor in the set, the set holds a cycle. */
  lemma NoSinkMeansCycle<N(!new)>(edges: set<(N, N)>, nodes: set<N>)
    requires nodes != {}
    requires forall a :: a in nodes ==> HasSuccessorIn(edges, nodes, a)
    ensures exists c :: Cycle(edges, c) && forall x :: x in c ==> x in nodes
  {
    var start :| start in nodes;
    var p := WalkOfLength(edges, nodes, start, |nodes|);
    LongWalkHasCycle(edges, p, nodes);
  }

  /** A walk that may use the new edge `a -> b` either avoids it or splits around it. */
  lemma {:induction false} WalkWithNewEdge<N(!new)>(edges: set<(N, N)>, a: N, b: N, p: seq<N>)
    requires Walk(edges + {(a, b)}, p)
    ensures Walk(edges, p) || (Reaches(edges, p[0], a) && Reaches(edges, b, p[|p| - 1]))
    decreases |p|
  {
    var more := edges + {(a, b)};
    if |p| > 1 {
      var last := |p| - 1;
      Stretch(more, p, 1, last);
      var q := p[1..last + 1];
      WalkWithNewEdge(edges, a, b, q);
      assert StepAt(more, p, 0);
      if (p[0], p[1]) in edges {
        if Walk(edges, q) {
          Prepend(edges, p[0], q);
          assert [p[0]] + q == p;
        } else {
          ReachesPrepend(edges, p[0], p[1], a);
        }
      } else {
        ReachesSelf(edges, a);
        if Walk(edges, q) {
          assert WalkBetween(edges, q, b, p[last]);
        }
      }
    }
  }

  /** Adding an edge to an acyclic graph keeps it acyclic exactly when its head does not reach its tail. */
  lemma AcyclicAfterAdding<N(!new)>(edges: set<(N, N)>, a: N, b: N)
    requires Acyclic(edges)
    ensures Acyclic(edges + {(a, b)}) <==> !Reaches(edges, b, a)
  {
    var more := edges + {(a, b)};
    if Reaches(edges, b, a) {
      var p :| WalkBetween(edges, p, b, a);
      forall k: nat | k + 1 < |p|
        ensures StepAt(more, p, k)
      {
        assert StepAt(edges, p, k);
      }
      Prepend(more, a, p);
      assert Cycle(more, [a] + p);
    } else {
      forall c
        ensures !Cycle(more, c)
      {
        if Cycle(more, c) {
          WalkWithNewEdge(edges, a, b, c);
          assert !Walk(edges, c) by { assert !Cycle(edges, c); }
          var p :| WalkBetween(edges, p, b, c[|c| - 1]);
          var q :| WalkBetween(edges, q, c[0], a);
          JoinWalks(edges, p, q);
        }
      }
    }
  }

  lemma JoinWalks<N(!new)>(edges: set<(N, N)>, p: seq<N>, q: seq<N>)
    requires Walk(edges, p) && Walk(edges, q) && p[|p| - 1] == q[0]
    ensures Reaches(edges, p[0], q[|q| - 1])
  {
    var r := p + q[1..];
    forall k: nat | k + 1 < |r|
      ensures StepAt(edges, r, k)
    {
      if k + 1 < |p| {
        assert StepAt(edges, p, k);
      } else {
        assert StepAt(edges, q, k + 1 - |p|);
      }
    }
    assert WalkBetween(edges, r, p[0], q[|q| - 1]);
  }

  lemma AcyclicSubset<N(!new)>(fewer: set<(N, N)>, edges: set<(N, N)>)
    requires fewer <= edges && Acyclic(edges)
    ensures Acyclic(fewer)
  {
    forall p
      ensures !Cycle(fewer, p)
    {
      if Cycle(fewer, p) {
        forall i: nat | i + 1 < |p|
          ensures StepAt(edges, p, i)
        {
          assert StepAt(fewer, p, i);
        }
        assert Cycle(edges, p);
      }
    }
  }
}
