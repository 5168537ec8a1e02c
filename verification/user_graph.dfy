/** Reachability through chains of constant-expression users, and the weight that
    bounds a worklist walk over them. */
module UserGraph {
  import opened Ir

  /** Node `k` is node `j` itself or is reached from it through one or more
      constant-expression user edges. */
  predicate Reaches(nodes: seq<User>, j: nat, k: nat)
    requires WellFormedNodes(nodes) && j < |nodes|
    decreases |nodes| - j
  {
    j == k || (nodes[j].ConstExpr? && exists c :: c in nodes[j].users && Reaches(nodes, c, k))
  }

  /** Node `k` is reached from one of the roots `ws`. */
  predicate ReachesFromAny(nodes: seq<User>, ws: seq<nat>, k: nat)
    requires WellFormedNodes(nodes) && InRange(ws, |nodes|)
  {
    exists r :: r in ws && Reaches(nodes, r, k)
  }

  /** The two tables differ at most in the calling conventions of call sites. */
  predicate SameShape(a: seq<User>, b: seq<User>) {
    && |a| == |b|
    && forall k :: 0 <= k < |a| ==> (a[k].CallSite? <==> b[k].CallSite?) && (!a[k].CallSite? ==> a[k] == b[k])
  }

  /** Reaching through a constant expression `j` extends every path that ends at `j`. */
  lemma {:induction false} ReachesThroughConstExpr(nodes: seq<User>, r: nat, j: nat, c: nat)
    requires WellFormedNodes(nodes) && r < |nodes| && j < |nodes|
    requires Reaches(nodes, r, j) && nodes[j].ConstExpr? && c in nodes[j].users
    ensures Reaches(nodes, r, c)
    decreases |nodes| - r
  {
    if r == j {
      assert UsersAbove(nodes[j], j, |nodes|);
      assert Reaches(nodes, c, c);
    } else {
      var c' :| c' in nodes[r].users && Reaches(nodes, c', j);
      assert UsersAbove(nodes[r], r, |nodes|);
      ReachesThroughConstExpr(nodes, c', j, c);
    }
  }

  lemma SameShapeWellFormed(a: seq<User>, b: seq<User>)
    requires WellFormedNodes(a) && SameShape(a, b)
    ensures WellFormedNodes(b)
  {
    forall j | 0 <= j < |b|
      ensures UsersAbove(b[j], j, |b|)
    {
      assert UsersAbove(a[j], j, |a|);
    }
  }

  /** Rewriting call-site conventions does not change what is reachable. */
  lemma {:induction false} ReachesShapeInvariant(a: seq<User>, b: seq<User>, j: nat, k: nat)
    requires WellFormedNodes(a) && WellFormedNodes(b) && SameShape(a, b) && j < |a|
    ensures Reaches(a, j, k) <==> Reaches(b, j, k)
    decreases |a| - j
  {
    if j != k && a[j].ConstExpr? {
      assert UsersAbove(a[j], j, |a|);
      forall c | c in a[j].users
        ensures Reaches(a, c, k) <==> Reaches(b, c, k)
      {
        ReachesShapeInvariant(a, b, c, k);
      }
    }
  }

  lemma ReachesFromAnyShapeInvariant(a: seq<User>, b: seq<User>, ws: seq<nat>, k: nat)
    requires WellFormedNodes(a) && WellFormedNodes(b) && SameShape(a, b) && InRange(ws, |a|)
    ensures ReachesFromAny(a, ws, k) <==> ReachesFromAny(b, ws, k)
  {
    forall r | r in ws
      ensures Reaches(a, r, k) <==> Reaches(b, r, k)
    {
      ReachesShapeInvariant(a, b, r, k);
    }
  }

  /** The number of constant-expression paths that start at `j`, counting `j` itself. */
  function Weight(nodes: seq<User>, j: nat): (w: nat)
    requires WellFormedNodes(nodes) && j < |nodes|
    decreases |nodes| - j, 1, 0
  {
    assert UsersAbove(nodes[j], j, |nodes|);
    if nodes[j].ConstExpr? then 1 + WeightSum(nodes, nodes[j].users, j) else 1
  }

  /** The total weight of a list of nodes that all lie above `floor`. */
  function WeightSum(nodes: seq<User>, ws: seq<nat>, floor: int): (w: nat)
    requires WellFormedNodes(nodes) && Between(ws, floor, |nodes|)
    decreases |nodes| - floor, 0, |ws|
  {
    if ws == [] then 0
    else WeightSum(nodes, ws[..|ws| - 1], floor) + Weight(nodes, ws[|ws| - 1])
  }

  lemma {:induction false} WeightSumFloor(nodes: seq<User>, ws: seq<nat>, f1: int, f2: int)
    requires WellFormedNodes(nodes)
    requires Between(ws, f1, |nodes|) && Between(ws, f2, |nodes|)
    ensures WeightSum(nodes, ws, f1) == WeightSum(nodes, ws, f2)
    decreases |ws|
  {
    if ws != [] {
      WeightSumFloor(nodes, ws[..|ws| - 1], f1, f2);
    }
  }

  lemma {:induction false} WeightSumAppend(nodes: seq<User>, a: seq<nat>, b: seq<nat>)
    requires WellFormedNodes(nodes) && InRange(a, |nodes|) && InRange(b, |nodes|)
    ensures WeightSum(nodes, a + b, -1) == WeightSum(nodes, a, -1) + WeightSum(nodes, b, -1)
    decreases |b|
  {
    if b == [] {
      assert a + b == a;
    } else {
      var b' := b[..|b| - 1];
      assert (a + b)[..|a + b| - 1] == a + b';
      WeightSumAppend(nodes, a, b');
    }
  }
}
