# Swift BPF preparation passes, modelled in Dafny

Before a Swift program can be compiled for a BPF-style target, an LLVM plugin runs two
module passes over its IR (`tooling/llvm/swift_bpf_prepare_pass.cpp`):

- **`swift-literal-normalize`** (`SwiftLiteralNormalizePass`) selects the string
  literals the Swift front end synthesizes. A literal is a constant global with an
  initializer and no section, whose initializer is a C-string `ConstantDataArray` of
  `i8`, whose value type is an `i8` array, and whose name starts with `.str.`. The pass
  turns private linkage into internal and clears `unnamed_addr`. It then hands all
  selected globals, in one batch, to `appendToCompilerUsed`. It reports a change only
  when an attribute was actually rewritten.
- **`swift-cc-normalize`** (`SwiftCallingConventionNormalizePass`) visits every function
  that has a body. A `swiftcc` function becomes `ccc`. An explicit worklist then walks
  the function's users and looks through constant expressions to any depth. Every call
  site it meets with the Swift convention is switched to C.

The model works on a small abstract module (`ir.dfy`). It holds:

- a sequence of global variables carrying the attributes the literal check and the rewrite read;
- the keep-alive list;
- a sequence of functions, each with a body flag, a calling convention and its users;
- a table of user nodes: call sites (with their own convention), constant expressions
  (with their users), and anything else.

Calling conventions are LLVM's numeric IDs (`C` = 0, `Swift` = 16).

The walk terminates because LLVM constants form no cycles. The model states this as
`WellFormedNodes`: the node table lists every constant expression before its users. Any
acyclic user graph can be numbered this way. `Weight` counts the constant-expression
paths from a node, and the total weight of the worklist drops on every pop. That total
is the loop's termination measure.

Each pass is modelled twice:

- as methods that follow the source's loops (`Run`, `NormalizeGlobals`/`VisitGlobal`,
  `NormalizeFunctions`/`UpdateCallConvUses`/`Visit`);
- as a declarative reference that needs no loop: `NormalizedGlobals` with `LiteralIndices`,
  and `CcNormalize.Normalized` with the reachability relation `Reached`.

The methods' contracts tie the two together, and the idempotence lemmas are proved about
the references.

Files: `ir.dfy` (data model), `user_graph.dfy` (reachability, walk weights),
`literal_normalize.dfy`, `cc_normalize.dfy`, `scenarios.dfy` (small concrete modules).

Three points of the code shape the model:

- For every function with a body, whatever its own convention, the walk switches each
  Swift-convention `CallBase` among its users to C (lines 74-78, 91). That includes a call that only passes the function as an argument and
  calls something else; the model's call sites carry no callee.
- Only functions with a body seed the walk (lines 83-84). A Swift call site that only a
  declaration's users lead to keeps its convention (`Scenarios.ChainReached` shows one).
- The plugin registers the passes as `swift-literal-normalize` and `swift-cc-normalize`
  (lines 105 and 109).

## Model

| member | source | states |
|---|---|---|
| LiteralNormalize.IsCString | tooling/llvm/swift_bpf_prepare_pass.cpp:28 | definition: the initializer's elements are `i8`, there is at least one, the last is zero and no earlier one is |
| LiteralNormalize.IsLiteral | tooling/llvm/swift_bpf_prepare_pass.cpp:24-37 | definition: the six checks in the source's order (initializer present, constant, empty section, C-string data array, `i8` array value type, name starting with `.str.`) |
| LiteralNormalize.PromotedLinkage | tooling/llvm/swift_bpf_prepare_pass.cpp:39-42 | the result is never private; it differs from the input only when the input was private, and then it is internal |
| LiteralNormalize.NeedsRewrite | tooling/llvm/swift_bpf_prepare_pass.cpp:39-47 | definition: a literal on which at least one of the two attribute rewrites fires |
| CcNormalize.NormalizeFunction | tooling/llvm/swift_bpf_prepare_pass.cpp:83-89 | body flag and users are kept; a function with a body is never left Swift; the only change is a defined function's Swift convention becoming C, so declarations keep their convention |
| CcNormalize.NormalizeUser | tooling/llvm/swift_bpf_prepare_pass.cpp:74-78 | call sites stay call sites and other users stay as they are; no Swift call site is left; the only change is Swift becoming C |
| CcNormalize.Reached | tooling/llvm/swift_bpf_prepare_pass.cpp:65-92 | definition: a user is reached when the users of some function with a body lead to it through zero or more constant expressions |
| CcNormalize.Normalized | tooling/llvm/swift_bpf_prepare_pass.cpp:65-92 | the loop-free reference for the pass: every function normalized, every reached user normalized, all else kept; the result is again well formed |
| Ir.WellFormedNodes | tooling/llvm/swift_bpf_prepare_pass.cpp:66-71 | definition: every constant expression's users come later in the node table, so the constant-expression user graph the walk follows has no cycles |
| Ir.WellFormed | tooling/llvm/swift_bpf_prepare_pass.cpp:62-95 | definition: the node table is acyclic in that sense and every function's users are nodes of the table |
| UserGraph.Reaches | tooling/llvm/swift_bpf_prepare_pass.cpp:66-71 | definition: a node reaches itself, and a constant expression reaches whatever one of its users reaches, which is what popping and pushing uncovers |
| UserGraph.ReachesFromAny | tooling/llvm/swift_bpf_prepare_pass.cpp:66-71 | definition: some entry of the starting worklist (the function's users) reaches the node |
| CcNormalize.Pushed | tooling/llvm/swift_bpf_prepare_pass.cpp:69-70 | definition: a constant expression pushes its own users, any other user pushes nothing |
| CcNormalize.WalkInvariant | tooling/llvm/swift_bpf_prepare_pass.cpp:66-79 | definition: the worklist stays within what the roots reach, only reachable Swift call sites have become C, and each reachable one the worklist no longer reaches already has |
| CcNormalize.ReachedFromDefinitions | tooling/llvm/swift_bpf_prepare_pass.cpp:82-91 | definition: the users some function with a body among the first `n` leads to; declarations contribute nothing |
| LiteralNormalize.NormalizedGlobals | tooling/llvm/swift_bpf_prepare_pass.cpp:23-50 | definition: the reference result of the loop, each global replaced by `NormalizeLiteral` of itself |
| LiteralNormalize.AnyNeedsRewrite | tooling/llvm/swift_bpf_prepare_pass.cpp:21-47 | definition: the `Changed` flag after the loop has seen a prefix of the globals, raised by any global that needs a rewrite |
| LiteralNormalize.VisitGlobal | tooling/llvm/swift_bpf_prepare_pass.cpp:24-49 | a global is selected exactly when all six checks pass; a selected global gets the normalized attributes and reports whether a rewrite fired; any other global is returned unchanged |
| LiteralNormalize.RewriteAttributes | tooling/llvm/swift_bpf_prepare_pass.cpp:39-47 | private linkage becomes internal, any other linkage stays; `unnamed_addr` ends as None; the flag is raised exactly when the global differs afterwards |
| LiteralNormalize.NormalizeLiteral | tooling/llvm/swift_bpf_prepare_pass.cpp:24-47 | a non-literal is returned unchanged; a literal keeps every field except linkage and `unnamed_addr`, its linkage changes only from private to internal, and it ends with no `unnamed_addr`; the rewrite never changes whether a global is a literal |
| LiteralNormalize.LiteralIndices | tooling/llvm/swift_bpf_prepare_pass.cpp:23-49 | the batch holds exactly the indices of the literals, each once, in strictly increasing (module) order |
| LiteralNormalize.NoLiterals | tooling/llvm/swift_bpf_prepare_pass.cpp:23-53 | the batch is empty, so `appendToCompilerUsed` is not called, exactly when no global passes the six checks |
| LiteralNormalize.NormalizeGlobals | tooling/llvm/swift_bpf_prepare_pass.cpp:20-50 | the loop leaves every global normalized, collects exactly the literal batch, and raises the changed flag exactly when some global needed a rewrite |
| LiteralNormalize.PrefixStep | tooling/llvm/swift_bpf_prepare_pass.cpp:23-50 | one more global extends the batch by its index only if it is a literal, and the changed flag only if it needs a rewrite |
| LiteralNormalize.AnyNeedsRewriteExactly | tooling/llvm/swift_bpf_prepare_pass.cpp:21-47 | the accumulated changed flag is true exactly when some global is a literal with private linkage or a non-None `unnamed_addr` |
| LiteralNormalize.ChangedExactly | tooling/llvm/swift_bpf_prepare_pass.cpp:39-47 | the globals change exactly when some literal needs a rewrite; appending to the keep-alive list alone is not a change |
| LiteralNormalize.Run | tooling/llvm/swift_bpf_prepare_pass.cpp:19-56 | non-literals are untouched; each literal gets internal-for-private linkage and no `unnamed_addr`; functions and users are untouched; the keep-alive append gets exactly the literal batch and is skipped for an empty batch; changed is true exactly when some attribute was rewritten |
| LiteralNormalize.Idempotent | tooling/llvm/swift_bpf_prepare_pass.cpp:19-56 | a second run leaves the globals as they are, selects the same batch, and finds nothing to rewrite, so it reports unchanged |
| UserGraph.ReachesThroughConstExpr | tooling/llvm/swift_bpf_prepare_pass.cpp:69-71 | a path to a constant expression extends to each of its users, so the walk's pushes stay inside what the function reaches |
| UserGraph.SameShapeWellFormed | tooling/llvm/swift_bpf_prepare_pass.cpp:74-78 | switching call-site conventions keeps the user graph acyclic |
| UserGraph.ReachesShapeInvariant | tooling/llvm/swift_bpf_prepare_pass.cpp:74-78 | switching call-site conventions does not change which nodes reach which |
| UserGraph.ReachesFromAnyShapeInvariant | tooling/llvm/swift_bpf_prepare_pass.cpp:82-91 | what a function's users reach is the same before and after earlier functions were processed |
| UserGraph.WeightSumFloor | tooling/llvm/swift_bpf_prepare_pass.cpp:67-71 | the weight of a list of users does not depend on the bound used to prove the weight terminates |
| UserGraph.WeightSumAppend | tooling/llvm/swift_bpf_prepare_pass.cpp:70 | appending users to the worklist adds their weights |
| CcNormalize.WorkStepWeight | tooling/llvm/swift_bpf_prepare_pass.cpp:67-71 | popping a user and pushing its constant-expression users strictly lowers the worklist's weight, so the walk terminates on an acyclic graph |
| CcNormalize.WorkStepReach | tooling/llvm/swift_bpf_prepare_pass.cpp:68-71 | after one pop, everything the old worklist reached, except perhaps the popped user, is still reached by the new worklist |
| CcNormalize.StepStaysReachable | tooling/llvm/swift_bpf_prepare_pass.cpp:69-71 | after a pop, every worklist entry is still reachable from the function's users |
| CcNormalize.StepKeepsInvariant | tooling/llvm/swift_bpf_prepare_pass.cpp:67-79 | one pop keeps the walk invariant: only reachable Swift call sites have become C, and every reachable Swift call site that the worklist no longer reaches is already C |
| CcNormalize.Visit | tooling/llvm/swift_bpf_prepare_pass.cpp:68-78 | one iteration pops the last worklist entry, pushes its users if it is a constant expression, switches it to C if it is a Swift call site, and reports a rewrite exactly then; it keeps the walk invariant and lowers the worklist weight |
| CcNormalize.UpdateCallConvUses | tooling/llvm/swift_bpf_prepare_pass.cpp:65-80 | exactly the Swift call sites reachable from the function's users through zero or more constant expressions become C; every other user is unchanged; the flag is raised exactly when a call site changed |
| CcNormalize.RewriteShape | tooling/llvm/swift_bpf_prepare_pass.cpp:74-78 | a table in which only some Swift call sites became C keeps the original's shape and stays acyclic |
| CcNormalize.RewriteMonotone | tooling/llvm/swift_bpf_prepare_pass.cpp:63-91 | a later walk never undoes an earlier rewrite, so the module has changed exactly when some walk changed it |
| CcNormalize.ReachedFromDefinitionsStep | tooling/llvm/swift_bpf_prepare_pass.cpp:82-91 | after one more function, the set of reached users grows by what that function reaches, and only if it has a body |
| CcNormalize.WalkExtends | tooling/llvm/swift_bpf_prepare_pass.cpp:82-91 | processing the next function switches exactly the Swift call sites it newly reaches, and only when it has a body |
| CcNormalize.NormalizeFunctions | tooling/llvm/swift_bpf_prepare_pass.cpp:82-92 | after the loop, every defined Swift function is C and declarations keep their convention; a user is rewritten only if a defined function reaches it; changed is true exactly when something differs |
| CcNormalize.Run | tooling/llvm/swift_bpf_prepare_pass.cpp:62-95 | defined Swift functions and every Swift call site reached from a definition become C; declarations, call sites with other conventions, unreached users and globals are unchanged; changed is true exactly when the module differs |
| CcNormalize.Idempotent | tooling/llvm/swift_bpf_prepare_pass.cpp:62-95 | normalizing twice equals normalizing once, so by `Run`'s contract a second run reports unchanged |
| Scenarios.HelloLiteral | tooling/llvm/swift_bpf_prepare_pass.cpp:24-49 | `.str.1 = private unnamed_addr constant c"hello\00"` is selected, becomes internal with a significant address, forms the batch `[0]`, and counts as a change |
| Scenarios.HelloNearMisses | tooling/llvm/swift_bpf_prepare_pass.cpp:24-37 | a named section, the name `.str` without the trailing dot, or an embedded zero byte each exclude the global from the batch |
| Scenarios.ChainWellFormed | tooling/llvm/swift_bpf_prepare_pass.cpp:65-72 | the example user graph, with its three-level cast chain, is acyclic |
| Scenarios.ChainReached | tooling/llvm/swift_bpf_prepare_pass.cpp:65-91 | the direct call and the end of a three-level cast chain are reached from the defined function; the call site that only a declaration reaches is not |
| Scenarios.ChainNormalized | tooling/llvm/swift_bpf_prepare_pass.cpp:65-91 | in the example, the defined function and both of its Swift call sites become C; the declaration, its call site and a `fastcc` call site keep their conventions |
| Scenarios.QuietModule | tooling/llvm/swift_bpf_prepare_pass.cpp:19-95 | a module with no literals, no Swift functions and no Swift call sites comes out of both passes with its globals, functions and user table unchanged and an empty keep-alive batch |

## Left out

- Plugin registration and pipeline-name parsing (lines 99-120) are host boilerplate with no logic beyond matching the names `swift-literal-normalize` and `swift-cc-normalize`.
- `appendToCompilerUsed` is LLVM library code. It is a parameter of `LiteralNormalize.Run`, called with the batch; its effect on the keep-alive list is whatever the host defines.
- LiteralNormalize.Run: says nothing about a literal appearing in the keep-alive list at most once, because de-duplication happens inside `appendToCompilerUsed`, which is not part of this model. A second run hands the same batch to the append again.
- `@llvm.compiler.used` is itself a global of the LLVM module, and `appendToCompilerUsed` may create it. The model keeps the keep-alive list apart from `globals`, so `globals` stands for the module's other global variables and `LiteralNormalize.Run`'s length clause is about them.
- Keep-alive list entries are modelled as indices of global variables; entries that name functions or other globals are opaque values the model never inspects.
- `isCString` is LLVM library code. The model states its documented meaning: the elements are `i8`, the array is non-empty, the last element is zero, and no earlier element is.
- LLVM's uniquing of constants is not modelled. For example, LLVM represents an all-zero array as a zero initializer rather than a data array. The kind of initializer is an input.
- `PreservedAnalyses` is modelled as a boolean: true where the source returns `none()`, false where it returns `all()`.
- User-list order is taken as given. The walk pops from the back as the source does, but the contracts do not depend on the order of visits.
- Users other than call sites and constant expressions (instructions of other kinds, global initializers) are one `OtherUser` kind: the walk ignores them.
- Acyclicity of constant expressions is a precondition (`WellFormed`) of the calling-convention pass. LLVM guarantees it, and the source relies on it for termination.
- `tests/tests.rs` loads the compiled program into a Solana VM simulator and checks its log output. That is execution and I/O, not pass logic.
- `src/entrypoint.swift` is the sample program the passes are applied to: a foreign call through a raw syscall address. It has no behaviour to model.
