/** The literal normalizer (`swift-literal-normalize`): compiler-synthesized string
    literals lose private linkage and `unnamed_addr`, and are kept alive through the
    module's `llvm.compiler.used` list. */
module LiteralNormalize {
  import opened Ir

  /** The name prefix the front end gives to synthesized string literals. */
  const LiteralPrefix: string := ".str."

  /** LLVM's `ConstantDataSequential::isCString`: an array of i8 whose last element is
      the only zero. */
  predicate IsCString(elemTy: Type, elems: seq<int>) {
    && elemTy == IntegerTy(8)
    && |elems| > 0
    && elems[|elems| - 1] == 0
    && forall i :: 0 <= i < |elems| - 1 ==> elems[i] != 0
  }

  /** The six checks a global must pass to be treated as a string literal. */
  predicate IsLiteral(g: GlobalVariable) {
    && g.hasInitializer
    && g.isConstant
    && g.section == ""
    && g.initializer.DataArray? && IsCString(g.initializer.elemTy, g.initializer.elems)
    && g.valueType.ArrayTy? && g.valueType.elem == IntegerTy(8)
    && LiteralPrefix <= g.name
  }

  /** Private linkage is promoted to internal; every other linkage stays. */
  function PromotedLinkage(l: Linkage): (r: Linkage)
    ensures r != Private
    ensures r != l ==> l == Private && r == Internal
  {
    if l == Private then Internal else l
  }

  /** What the pass leaves behind for one global. */
  function NormalizeLiteral(g: GlobalVariable): (r: GlobalVariable)
    ensures IsLiteral(r) == IsLiteral(g)
    ensures IsLiteral(g) ==> r.linkage != Private && r.unnamedAddr == None
    ensures !IsLiteral(g) ==> r == g
    ensures r == g.(linkage := r.linkage, unnamedAddr := r.unnamedAddr)
    ensures r.linkage == g.linkage || (g.linkage == Private && r.linkage == Internal)
  {
    if IsLiteral(g) then g.(linkage := PromotedLinkage(g.linkage), unnamedAddr := None) else g
  }

  function NormalizedGlobals(gs: seq<GlobalVariable>): (r: seq<GlobalVariable>) {
    seq(|gs|, i requires 0 <= i < |gs| => NormalizeLiteral(gs[i]))
  }

  /** A literal whose attributes the pass has to rewrite. */
  predicate NeedsRewrite(g: GlobalVariable) {
    IsLiteral(g) && (g.linkage == Private || g.unnamedAddr != None)
  }

  /** Some global of `gs` needs a rewrite: the value of the pass's changed flag once it
      has seen all of `gs`. */
  predicate AnyNeedsRewrite(gs: seq<GlobalVariable>) {
    gs != [] && (AnyNeedsRewrite(gs[..|gs| - 1]) || NeedsRewrite(gs[|gs| - 1]))
  }

  lemma {:induction false} AnyNeedsRewriteExactly(gs: seq<GlobalVariable>)
    ensures AnyNeedsRewrite(gs) <==> exists i :: 0 <= i < |gs| && NeedsRewrite(gs[i])
    decreases |gs|
  {
    if gs != [] {
      var n := |gs| - 1;
      AnyNeedsRewriteExactly(gs[..n]);
      assert forall i :: 0 <= i < n ==> gs[..n][i] == gs[i];
    }
  }

  /** The indices of the literals among `gs`: exactly the literals, in module order. */
  function LiteralIndices(gs: seq<GlobalVariable>): (r: seq<nat>)
    ensures forall a :: 0 <= a < |r| ==> r[a] < |gs| && IsLiteral(gs[r[a]])
    ensures forall x :: 0 <= x < |gs| && IsLiteral(gs[x]) ==> x in r
    ensures forall a, b :: 0 <= a < b < |r| ==> r[a] < r[b]
  {
    if gs == [] then []
    else
      var n: nat := |gs| - 1;
      var prefix := LiteralIndices(gs[..n]);
      assert forall x :: 0 <= x < n ==> gs[..n][x] == gs[x];
      prefix + (if IsLiteral(gs[n]) then [n] else [])
  }

  /** The batch is empty, and the keep-alive append skipped, exactly when no global is a
      literal. */
  lemma NoLiterals(gs: seq<GlobalVariable>)
    ensures LiteralIndices(gs) == [] <==> forall i :: 0 <= i < |gs| ==> !IsLiteral(gs[i])
  {
    var r := LiteralIndices(gs);
    if r != [] {
      assert IsLiteral(gs[r[0]]);
    }
  }

  /** The two attribute rewrites applied to a selected literal, with whether either of
      them fired. */
  method RewriteAttributes(g: GlobalVariable) returns (r: GlobalVariable, changed: bool)
    ensures r == g.(linkage := PromotedLinkage(g.linkage), unnamedAddr := None)
    ensures r.linkage != Private && r.unnamedAddr == None
    ensures changed <==> r != g
  {
    r := g;
    changed := false;
    if r.linkage == Private {
      r := r.(linkage := Internal);
      changed := true;
    }
    if r.unnamedAddr != None {
      r := r.(unnamedAddr := None);
      changed := true;
    }
  }

  /** The body of the loop for one global: skip it unless all six checks pass, else
      rewrite its attributes and select it for the keep-alive batch. */
  method VisitGlobal(g: GlobalVariable) returns (g': GlobalVariable, selected: bool, rewritten: bool)
    ensures selected <==> IsLiteral(g)
    ensures g' == NormalizeLiteral(g)
    ensures rewritten <==> NeedsRewrite(g)
  {
    g' := g;
    selected := false;
    rewritten := false;
    if IsLiteral(g) {
      g', rewritten := RewriteAttributes(g);
      selected := true;
    }
  }

  /** The loop over the module's globals: rewrites every literal in place and collects
      the batch for the keep-alive list. */
  method NormalizeGlobals(gs: seq<GlobalVariable>) returns (gs': seq<GlobalVariable>, batch: seq<nat>, changed: bool)
    ensures gs' == NormalizedGlobals(gs)
    ensures batch == LiteralIndices(gs)
    ensures changed == AnyNeedsRewrite(gs)
  {
    gs' := gs;
    batch := [];
    changed := false;
    var i := 0;
    while i < |gs|
      invariant 0 <= i <= |gs| == |gs'|
      invariant forall k :: 0 <= k < |gs| ==> gs'[k] == if k < i then NormalizeLiteral(gs[k]) else gs[k]
      invariant batch == LiteralIndices(gs[..i])
      invariant changed == AnyNeedsRewrite(gs[..i])
    {
      PrefixStep(gs, i);
      var g', selected, rewritten := VisitGlobal(gs[i]);
      if selected {
        gs' := gs'[i := g'];
        changed := changed || rewritten;
        batch := batch + [i];
      }
      i := i + 1;
    }
    assert gs[..i] == gs;
  }

  lemma PrefixStep(gs: seq<GlobalVariable>, i: nat)
    requires i < |gs|
    ensures LiteralIndices(gs[..i + 1]) == LiteralIndices(gs[..i]) + (if IsLiteral(gs[i]) then [i] else [])
    ensures AnyNeedsRewrite(gs[..i + 1]) == (AnyNeedsRewrite(gs[..i]) || NeedsRewrite(gs[i]))
  {
    assert gs[..i + 1][..i] == gs[..i];
  }

  /** A global is rewritten exactly when it is a literal that needs a rewrite. */
  lemma ChangedExactly(gs: seq<GlobalVariable>)
    ensures NormalizedGlobals(gs) != gs <==> exists i :: 0 <= i < |gs| && NeedsRewrite(gs[i])
  {
    if exists i :: 0 <= i < |gs| && NeedsRewrite(gs[i]) {
      var i :| 0 <= i < |gs| && NeedsRewrite(gs[i]);
      assert NormalizedGlobals(gs)[i] != gs[i];
    }
  }

  /** One run of the pass. `append` is the host's `appendToCompilerUsed`, called once
      with the whole batch and only when the batch is non-empty. */
  method Run(m: Module, append: (seq<nat>, seq<nat>) -> seq<nat>) returns (m': Module, changed: bool)
    ensures m'.functions == m.functions && m'.nodes == m.nodes
    ensures |m'.globals| == |m.globals|
    ensures forall i :: 0 <= i < |m.globals| && !IsLiteral(m.globals[i]) ==>
      m'.globals[i] == m.globals[i]
    ensures forall i :: 0 <= i < |m.globals| && IsLiteral(m.globals[i]) ==>
      m'.globals[i] == m.globals[i].(linkage := PromotedLinkage(m.globals[i].linkage), unnamedAddr := None)
    ensures m'.globals == NormalizedGlobals(m.globals)
    ensures var batch := LiteralIndices(m.globals);
      m'.compilerUsed == if batch == [] then m.compilerUsed else append(m.compilerUsed, batch)
    ensures changed <==> exists i :: 0 <= i < |m.globals| && NeedsRewrite(m.globals[i])
    ensures changed <==> m'.globals != m.globals
  {
    var globals, batch;
    globals, batch, changed := NormalizeGlobals(m.globals);
    var used := m.compilerUsed;
    if batch != [] {
      used := append(used, batch);
    }
    m' := m.(globals := globals, compilerUsed := used);
    AnyNeedsRewriteExactly(m.globals);
    ChangedExactly(m.globals);
  }

  /** A second run finds nothing to rewrite and hands the same batch to the keep-alive
      append. */
  lemma {:induction false} Idempotent(gs: seq<GlobalVariable>)
    ensures NormalizedGlobals(NormalizedGlobals(gs)) == NormalizedGlobals(gs)
    ensures LiteralIndices(NormalizedGlobals(gs)) == LiteralIndices(gs)
    ensures forall i :: 0 <= i < |gs| ==> !NeedsRewrite(NormalizedGlobals(gs)[i])
    decreases |gs|
  {
    if gs != [] {
      var n := |gs| - 1;
      assert NormalizedGlobals(gs)[..n] == NormalizedGlobals(gs[..n]);
      Idempotent(gs[..n]);
    }
  }
}
