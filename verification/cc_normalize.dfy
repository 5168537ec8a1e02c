/** The calling-convention normalizer (`swift-cc-normalize`): every defined function
    with the Swift convention, and every Swift call site among the users of a defined
    function (looking through constant expressions to any depth), is switched to C. */
module CcNormalize {
  import opened Ir
  import opened UserGraph

  /** What the pass leaves behind for one function. */
  function NormalizeFunction(f: Function): (r: Function)
    ensures r.hasBody == f.hasBody && r.users == f.users
    ensures r.hasBody ==> r.cc != Swift
    ensures r != f ==> f.hasBody && f.cc == Swift && r.cc == C
  {
    if f.hasBody && f.cc == Swift then f.(cc := C) else f
  }

  /** What the pass leaves behind for one user it visits. */
  function NormalizeUser(u: User): (r: User)
    ensures r.CallSite? <==> u.CallSite?
    ensures r != CallSite(Swift)
    ensures r != u ==> u == CallSite(Swift) && r == CallSite(C)
  {
    if u == CallSite(Swift) then CallSite(C) else u
  }

  /** Node `k` is reached from the users of one of the first `n` functions that have a
      body. Declarations never seed the walk. */
  predicate ReachedFromDefinitions(m: Module, n: nat, k: nat)
    requires WellFormed(m) && n <= |m.functions|
  {
    exists i :: 0 <= i < n && m.functions[i].hasBody && ReachesFromAny(m.nodes, m.functions[i].users, k)
  }

  predicate Reached(m: Module, k: nat)
    requires WellFormed(m)
  {
    ReachedFromDefinitions(m, |m.functions|, k)
  }

  /** The module after the pass, stated without a worklist. */
  function Normalized(m: Module): (r: Module)
    requires WellFormed(m)
    ensures WellFormed(r)
  {
    var fns := seq(|m.functions|, i requires 0 <= i < |m.functions| => NormalizeFunction(m.functions[i]));
    var nodes := seq(|m.nodes|, k requires 0 <= k < |m.nodes| =>
      if Reached(m, k) then NormalizeUser(m.nodes[k]) else m.nodes[k]);
    RewriteShape(m.nodes, nodes);
    m.(functions := fns, nodes := nodes)
  }

  /** Switching some call sites from Swift to C keeps the shape of the node table. */
  lemma RewriteShape(a: seq<User>, b: seq<User>)
    requires WellFormedNodes(a) && |a| == |b|
    requires forall k :: 0 <= k < |a| ==> b[k] == a[k] || b[k] == NormalizeUser(a[k])
    ensures SameShape(a, b) && WellFormedNodes(b)
  {
    SameShapeWellFormed(a, b);
  }

  /** Two rounds of switching: the second round undoes nothing the first did, so the
      table differs from the original exactly when either round changed something. */
  lemma RewriteMonotone(a: seq<User>, b: seq<User>, c: seq<User>)
    requires |a| == |b| == |c|
    requires forall k :: 0 <= k < |a| ==> b[k] == a[k] || b[k] == NormalizeUser(a[k])
    requires forall k :: 0 <= k < |a| ==> c[k] == b[k] || c[k] == NormalizeUser(b[k])
    ensures c != a <==> (b != a || c != b)
  {
    if b != a {
      var k :| 0 <= k < |a| && b[k] != a[k];
      assert c[k] != a[k];
    }
  }

  /** What holds between two pops of the worklist walk started at `roots`: the
      worklist stays inside what the roots reach; only reachable Swift call sites have
      changed, and to C; and every reachable Swift call site the worklist can no
      longer reach has already been switched. */
  predicate WalkInvariant(nodes: seq<User>, roots: seq<nat>, cur: seq<User>, work: seq<nat>)
    requires WellFormedNodes(nodes) && InRange(roots, |nodes|)
  {
    && InRange(work, |nodes|)
    && |cur| == |nodes|
    && (forall r :: r in work ==> ReachesFromAny(nodes, roots, r))
    && (forall k :: 0 <= k < |nodes| ==>
          cur[k] == nodes[k] || (ReachesFromAny(nodes, roots, k) && cur[k] == NormalizeUser(nodes[k])))
    && (forall k :: 0 <= k < |nodes| && ReachesFromAny(nodes, roots, k) && !ReachesFromAny(nodes, work, k) ==>
          cur[k] == NormalizeUser(nodes[k]))
  }

  /** The users a node pushes when it is popped: its own users if it is a constant
      expression, nothing otherwise. */
  function Pushed(u: User): (r: seq<nat>) {
    if u.ConstExpr? then u.users else []
  }

  /** One iteration of the walk: pop the last user; a constant expression pushes its
      own users, a Swift call site is switched to C, anything else is dropped. */
  method Visit(nodes: seq<User>, roots: seq<nat>, cur: seq<User>, work: seq<nat>)
    returns (cur': seq<User>, work': seq<nat>, rewrote: bool)
    requires WellFormedNodes(nodes) && InRange(roots, |nodes|)
    requires WalkInvariant(nodes, roots, cur, work) && work != []
    ensures WalkInvariant(nodes, roots, cur', work')
    ensures WeightSum(nodes, work', -1) < WeightSum(nodes, work, -1)
    ensures work' == work[..|work| - 1] + Pushed(cur[work[|work| - 1]])
    ensures cur' == cur[work[|work| - 1] := NormalizeUser(cur[work[|work| - 1]])]
    ensures rewrote <==> cur[work[|work| - 1]] == CallSite(Swift)
    ensures (cur' != nodes) <==> (cur != nodes || rewrote)
  {
    var j := work[|work| - 1];
    var rest := work[..|work| - 1];
    assert work == rest + [j];
    var u := cur[j];
    cur' := cur;
    rewrote := false;
    if u.ConstExpr? {
      work' := rest + u.users;
    } else {
      if u.CallSite? && u.cc == Swift {
        cur' := cur[j := CallSite(C)];
        rewrote := true;
        assert cur'[j] != nodes[j];
      }
      work' := rest;
      assert work' == rest + [];
    }
    assert j in work;
    assert Pushed(u) == Pushed(nodes[j]);
    assert cur' == cur[j := NormalizeUser(cur[j])];
    WorkStepWeight(nodes, rest, j, Pushed(nodes[j]));
    StepKeepsInvariant(nodes, roots, cur, rest, j);
  }

  /** Popping `j` keeps the walk invariant. */
  lemma StepKeepsInvariant(nodes: seq<User>, roots: seq<nat>, cur: seq<User>, rest: seq<nat>, j: nat)
    requires WellFormedNodes(nodes) && InRange(roots, |nodes|)
    requires WalkInvariant(nodes, roots, cur, rest + [j])
    ensures j < |nodes| && InRange(rest + Pushed(nodes[j]), |nodes|)
    ensures WalkInvariant(nodes, roots, cur[j := NormalizeUser(cur[j])], rest + Pushed(nodes[j]))
  {
    assert j in rest + [j];
    assert forall i :: 0 <= i < |rest| ==> rest[i] == (rest + [j])[i];
    var cs := Pushed(nodes[j]);
    StepStaysReachable(nodes, roots, rest, j);
    var cur' := cur[j := NormalizeUser(cur[j])];
    forall k | 0 <= k < |nodes| && ReachesFromAny(nodes, roots, k) && !ReachesFromAny(nodes, rest + cs, k)
      ensures cur'[k] == NormalizeUser(nodes[k])
    {
      if ReachesFromAny(nodes, rest + [j], k) {
        WorkStepReach(nodes, rest, j, cs, k);
      }
    }
  }

  /** The users pushed for `j` are reachable from the roots, like `j` itself. */
  lemma StepStaysReachable(nodes: seq<User>, roots: seq<nat>, rest: seq<nat>, j: nat)
    requires WellFormedNodes(nodes) && InRange(roots, |nodes|) && j < |nodes|
    requires InRange(rest, |nodes|) && forall r :: r in rest + [j] ==> ReachesFromAny(nodes, roots, r)
    ensures InRange(rest + Pushed(nodes[j]), |nodes|)
    ensures forall r :: r in rest + Pushed(nodes[j]) ==> ReachesFromAny(nodes, roots, r)
  {
    assert j in rest + [j];
    assert UsersAbove(nodes[j], j, |nodes|);
    forall c | c in Pushed(nodes[j])
      ensures ReachesFromAny(nodes, roots, c)
    {
      var r :| r in roots && Reaches(nodes, r, j);
      ReachesThroughConstExpr(nodes, r, j, c);
    }
    forall r | r in rest + Pushed(nodes[j])
      ensures ReachesFromAny(nodes, roots, r)
    {
      if r in rest {
        assert r in rest + [j];
      }
    }
  }

  /** The worklist walk over the users of one function (`UpdateCallConvUses`).
      Exactly the Swift call sites reachable from `roots` change, and they become C. */
  method UpdateCallConvUses(nodes: seq<User>, roots: seq<nat>) returns (nodes': seq<User>, changed: bool)
    requires WellFormedNodes(nodes) && InRange(roots, |nodes|)
    ensures |nodes'| == |nodes|
    ensures forall k :: 0 <= k < |nodes| ==>
      nodes'[k] == if ReachesFromAny(nodes, roots, k) then NormalizeUser(nodes[k]) else nodes[k]
    ensures changed <==> nodes' != nodes
  {
    nodes' := nodes;
    changed := false;
    var work := roots;
    while work != []
      invariant WalkInvariant(nodes, roots, nodes', work)
      invariant changed <==> nodes' != nodes
      decreases WeightSum(nodes, work, -1)
    {
      var rewrote;
      nodes', work, rewrote := Visit(nodes, roots, nodes', work);
      changed := changed || rewrote;
    }
  }

  /** Popping `j` and pushing its users in its place makes the worklist lighter. */
  lemma WorkStepWeight(nodes: seq<User>, rest: seq<nat>, j: nat, cs: seq<nat>)
    requires WellFormedNodes(nodes) && InRange(rest, |nodes|) && j < |nodes|
    requires cs == Pushed(nodes[j])
    ensures InRange(rest + cs, |nodes|)
    ensures WeightSum(nodes, rest + cs, -1) < WeightSum(nodes, rest + [j], -1)
  {
    assert UsersAbove(nodes[j], j, |nodes|);
    WeightSumAppend(nodes, rest, cs);
    assert (rest + [j])[..|rest + [j]| - 1] == rest;
    if nodes[j].ConstExpr? {
      WeightSumFloor(nodes, cs, -1, j);
    }
  }

  /** Whatever the old worklist reached, the new one still reaches, except perhaps the
      popped node itself. */
  lemma WorkStepReach(nodes: seq<User>, rest: seq<nat>, j: nat, cs: seq<nat>, k: nat)
    requires WellFormedNodes(nodes) && InRange(rest, |nodes|) && j < |nodes|
    requires cs == Pushed(nodes[j])
    requires InRange(rest + cs, |nodes|) && InRange(rest + [j], |nodes|)
    requires ReachesFromAny(nodes, rest + [j], k)
    ensures ReachesFromAny(nodes, rest + cs, k) || j == k
  {
    var r :| r in rest + [j] && Reaches(nodes, r, k);
    if r in rest {
      assert r in rest + cs;
    } else if j != k {
      assert r == j && nodes[j].ConstExpr? && cs == nodes[j].users;
      assert UsersAbove(nodes[j], j, |nodes|);
      var c :| c in nodes[j].users && Reaches(nodes, c, k);
      assert c in rest + cs;
    }
  }

  /** Walking the users of the `n`-th function extends the set of rewritten call sites
      from what the first `n` functions reach to what the first `n + 1` reach. */
  lemma WalkExtends(m: Module, n: nat, before: seq<User>, after: seq<User>)
    requires WellFormed(m) && n < |m.functions|
    requires |before| == |m.nodes| && |after| == |m.nodes|
    requires forall k :: 0 <= k < |m.nodes| ==>
      before[k] == if ReachedFromDefinitions(m, n, k) then NormalizeUser(m.nodes[k]) else m.nodes[k]
    requires WellFormedNodes(before)
    requires forall k :: 0 <= k < |m.nodes| ==>
      after[k] == if m.functions[n].hasBody && ReachesFromAny(before, m.functions[n].users, k)
                  then NormalizeUser(before[k]) else before[k]
    ensures forall k :: 0 <= k < |m.nodes| ==>
      after[k] == if ReachedFromDefinitions(m, n + 1, k) then NormalizeUser(m.nodes[k]) else m.nodes[k]
    ensures after != m.nodes <==> (before != m.nodes || after != before)
  {
    RewriteShape(m.nodes, before);
    var f := m.functions[n];
    forall k | 0 <= k < |m.nodes|
      ensures after[k] == if ReachedFromDefinitions(m, n + 1, k) then NormalizeUser(m.nodes[k]) else m.nodes[k]
    {
      ReachesFromAnyShapeInvariant(m.nodes, before, f.users, k);
      ReachedFromDefinitionsStep(m, n, k);
    }
    RewriteMonotone(m.nodes, before, after);
  }

  lemma ReachedFromDefinitionsStep(m: Module, n: nat, k: nat)
    requires WellFormed(m) && n < |m.functions|
    ensures ReachedFromDefinitions(m, n + 1, k) <==>
      ReachedFromDefinitions(m, n, k) || (m.functions[n].hasBody && ReachesFromAny(m.nodes, m.functions[n].users, k))
  {
    if ReachedFromDefinitions(m, n + 1, k) && !ReachedFromDefinitions(m, n, k) {
      var i :| 0 <= i < n + 1 && m.functions[i].hasBody && ReachesFromAny(m.nodes, m.functions[i].users, k);
      assert i == n;
    }
  }

  /** The loop over the module's functions, in order. Declarations are skipped; a
      definition has its own Swift convention switched to C, then its users are
      walked. */
  method NormalizeFunctions(m: Module) returns (fns: seq<Function>, nodes: seq<User>, changed: bool)
    requires WellFormed(m)
    ensures |fns| == |m.functions| && |nodes| == |m.nodes|
    ensures forall i :: 0 <= i < |fns| ==> fns[i] == NormalizeFunction(m.functions[i])
    ensures forall k :: 0 <= k < |nodes| ==>
      nodes[k] == if Reached(m, k) then NormalizeUser(m.nodes[k]) else m.nodes[k]
    ensures changed <==> fns != m.functions || nodes != m.nodes
  {
    fns := m.functions;
    nodes := m.nodes;
    changed := false;
    var n := 0;
    while n < |fns|
      invariant n <= |fns| == |m.functions|
      invariant forall i :: 0 <= i < |fns| ==>
        fns[i] == if i < n then NormalizeFunction(m.functions[i]) else m.functions[i]
      invariant |nodes| == |m.nodes|
      invariant forall k :: 0 <= k < |nodes| ==>
        nodes[k] == if ReachedFromDefinitions(m, n, k) then NormalizeUser(m.nodes[k]) else m.nodes[k]
      invariant changed <==> fns != m.functions || nodes != m.nodes
    {
      var f := fns[n];
      RewriteShape(m.nodes, nodes);
      var nodes' := nodes;
      if f.hasBody {
        if f.cc == Swift {
          fns := fns[n := f.(cc := C)];
          changed := true;
          assert fns[n] != m.functions[n];
        }
        var rewrote;
        nodes', rewrote := UpdateCallConvUses(nodes, f.users);
        changed := changed || rewrote;
      }
      WalkExtends(m, n, nodes, nodes');
      nodes := nodes';
      n := n + 1;
    }
  }

  /** One run of the pass. */
  method Run(m: Module) returns (m': Module, changed: bool)
    requires WellFormed(m)
    ensures m' == Normalized(m)
    ensures m'.globals == m.globals && m'.compilerUsed == m.compilerUsed
    ensures |m'.functions| == |m.functions| && |m'.nodes| == |m.nodes|
    ensures forall i :: 0 <= i < |m.functions| ==>
      m'.functions[i] == if m.functions[i].hasBody && m.functions[i].cc == Swift
                         then m.functions[i].(cc := C) else m.functions[i]
    ensures forall k :: 0 <= k < |m.nodes| && Reached(m, k) && m.nodes[k] == CallSite(Swift) ==>
      m'.nodes[k] == CallSite(C)
    ensures forall k :: 0 <= k < |m.nodes| && (!Reached(m, k) || m.nodes[k] != CallSite(Swift)) ==>
      m'.nodes[k] == m.nodes[k]
    ensures changed <==> m' != m
  {
    var fns, nodes;
    fns, nodes, changed := NormalizeFunctions(m);
    m' := m.(functions := fns, nodes := nodes);
  }

  /** Normalizing twice is normalizing once: so a second run changes nothing and, by
      the contract of `Run`, reports unchanged. */
  lemma {:induction false} Idempotent(m: Module)
    requires WellFormed(m)
    ensures Normalized(Normalized(m)) == Normalized(m)
  {
    var r := Normalized(m);
    RewriteShape(m.nodes, r.nodes);
    forall k | 0 <= k < |m.nodes|
      ensures Reached(r, k) <==> Reached(m, k)
    {
      forall i | 0 <= i < |m.functions|
        ensures ReachesFromAny(r.nodes, r.functions[i].users, k) <==> ReachesFromAny(m.nodes, m.functions[i].users, k)
      {
        ReachesFromAnyShapeInvariant(m.nodes, r.nodes, m.functions[i].users, k);
      }
    }
  }
}
