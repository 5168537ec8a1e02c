/** Small concrete modules and what both passes make of them. */
module Scenarios {
  import opened Ir
  import LiteralNormalize
  import CcNormalize
  import opened UserGraph

  /** `@.str.1 = private unnamed_addr constant [6 x i8] c"hello\00"`. */
  const Hello: GlobalVariable := GlobalVariable(
    true, true, "", DataArray(IntegerTy(8), [104, 101, 108, 108, 111, 0]),
    ArrayTy(IntegerTy(8), 6), ".str.1", Private, Global)

  /** The hello literal is selected, becomes internal with a significant address, is the
      whole keep-alive batch, and its rewrite is reported as a change. */
  lemma HelloLiteral()
    ensures LiteralNormalize.IsLiteral(Hello)
    ensures LiteralNormalize.NeedsRewrite(Hello)
    ensures LiteralNormalize.NormalizeLiteral(Hello) == Hello.(linkage := Internal, unnamedAddr := None)
    ensures LiteralNormalize.LiteralIndices([Hello]) == [0]
  {
    assert LiteralNormalize.LiteralPrefix <= Hello.name;
  }

  /** Failing any one check leaves the global out: a named section, a name without the
      prefix, or an embedded zero byte. */
  lemma HelloNearMisses()
    ensures !LiteralNormalize.IsLiteral(Hello.(section := ".rodata"))
    ensures !LiteralNormalize.IsLiteral(Hello.(name := ".str"))
    ensures !LiteralNormalize.IsLiteral(Hello.(initializer := DataArray(IntegerTy(8), [104, 0, 108, 108, 111, 0])))
    ensures LiteralNormalize.LiteralIndices([Hello.(name := "greeting")]) == []
  {
    assert !(LiteralNormalize.LiteralPrefix <= ".str");
    assert LiteralNormalize.LiteralPrefix[0] != "greeting"[0];
    var bad: seq<int> := [104, 0, 108, 108, 111, 0];
    assert bad[1] == 0;
  }

  /** A Swift function `f` defined in the module, called directly (node 0) and through a
      three-level cast chain (nodes 1, 2, 3 to call site 4); a Swift declaration `g`
      whose only call site (node 5) is not reached from any definition; and a call
      site with the `fastcc` convention (8) in `f`'s chain (node 6). */
  const Chain: Module := Module(
    [], [],
    [Function(true, Swift, [0, 1]), Function(false, Swift, [5])],
    [CallSite(Swift), ConstExpr([2]), ConstExpr([3]), ConstExpr([4, 6]), CallSite(Swift), CallSite(Swift), CallSite(8)])

  lemma ChainWellFormed()
    ensures WellFormed(Chain)
  {
    var nodes := Chain.nodes;
    forall j | 0 <= j < |nodes|
      ensures UsersAbove(nodes[j], j, |nodes|)
    {
    }
  }

  /** The direct call and the end of the cast chain are reached from `f`; the call site
      of the declaration `g` is not reached from any definition. */
  lemma ChainReached()
    requires WellFormed(Chain)
    ensures CcNormalize.Reached(Chain, 0) && CcNormalize.Reached(Chain, 4)
    ensures !CcNormalize.Reached(Chain, 5)
  {
    var nodes := Chain.nodes;
    assert 4 in nodes[3].users && Reaches(nodes, 4, 4);
    assert 3 in nodes[2].users && Reaches(nodes, 3, 4);
    assert 2 in nodes[1].users && Reaches(nodes, 2, 4);
    assert 1 in Chain.functions[0].users && Reaches(nodes, 1, 4);
    assert 0 in Chain.functions[0].users && Reaches(nodes, 0, 0);
    assert !Reaches(nodes, 4, 5) && !Reaches(nodes, 6, 5);
    assert !Reaches(nodes, 3, 5) && !Reaches(nodes, 2, 5) && !Reaches(nodes, 1, 5) && !Reaches(nodes, 0, 5);
  }

  /** After the pass `f` and both of its Swift call sites use C; `g`, its call site and
      the `fastcc` call site are as they were. */
  lemma ChainNormalized()
    ensures WellFormed(Chain)
    ensures CcNormalize.Normalized(Chain) == Chain.(
      functions := [Function(true, C, [0, 1]), Function(false, Swift, [5])],
      nodes := [CallSite(C), ConstExpr([2]), ConstExpr([3]), ConstExpr([4, 6]), CallSite(C), CallSite(Swift), CallSite(8)])
  {
    ChainWellFormed();
    ChainReached();
  }

  /** A module without literals, Swift functions or Swift call sites passes through both
      passes untouched, and the keep-alive append is skipped. */
  lemma QuietModule(m: Module)
    requires WellFormed(m)
    requires forall i :: 0 <= i < |m.globals| ==> !LiteralNormalize.IsLiteral(m.globals[i])
    requires forall i :: 0 <= i < |m.functions| ==> m.functions[i].cc != Swift
    requires forall k :: 0 <= k < |m.nodes| ==> m.nodes[k] != CallSite(Swift)
    ensures LiteralNormalize.NormalizedGlobals(m.globals) == m.globals
    ensures LiteralNormalize.LiteralIndices(m.globals) == []
    ensures CcNormalize.Normalized(m) == m
  {
    LiteralNormalize.NoLiterals(m.globals);
    var r := CcNormalize.Normalized(m);
    assert r.functions == m.functions;
    assert r.nodes == m.nodes;
  }
}
