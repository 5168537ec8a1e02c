/** The small slice of an LLVM module that the two preparation passes read and write:
    global variables with the attributes the literal check inspects, functions with a
    calling convention and a list of users, and the table of user nodes (call sites,
    constant expressions and everything else) that those users point into. */
module Ir {

  /** First-class IR types, as far as the literal check distinguishes them. */
  datatype Type =
    | IntegerTy(bits: nat)
    | ArrayTy(elem: Type, count: nat)
    | PointerTy
    | OtherTy

  /** An initializer: a `ConstantDataArray` with its element type and element values,
      or any other kind of constant. */
  datatype Constant =
    | DataArray(elemTy: Type, elems: seq<int>)
    | OtherConstant

  /** LLVM's linkage kinds. */
  datatype Linkage =
    | External | AvailableExternally | LinkOnceAny | LinkOnceODR | WeakAny | WeakODR
    | Appending | Internal | Private | ExternalWeak | Common

  /** Address significance: `None` means the address is significant. */
  datatype UnnamedAddr = None | Local | Global

  datatype GlobalVariable = GlobalVariable(
    hasInitializer: bool,
    isConstant: bool,
    section: string,
    initializer: Constant,
    valueType: Type,
    name: string,
    linkage: Linkage,
    unnamedAddr: UnnamedAddr)

  /** Calling conventions are LLVM's numeric `CallingConv::ID`s. */
  type CallingConv = nat

  const C: CallingConv := 0
  const Swift: CallingConv := 16

  /** A function: definition (`hasBody`) or declaration, its own calling convention, and
      the indices of its users in the module's node table. */
  datatype Function = Function(hasBody: bool, cc: CallingConv, users: seq<nat>)

  /** A user of a value. Only constant expressions are looked through, so only they
      carry their own users. */
  datatype User =
    | CallSite(cc: CallingConv)
    | ConstExpr(users: seq<nat>)
    | OtherUser

  /** `compilerUsed` is the keep-alive list (`llvm.compiler.used`), as indices of
      global variables. */
  datatype Module = Module(
    globals: seq<GlobalVariable>,
    compilerUsed: seq<nat>,
    functions: seq<Function>,
    nodes: seq<User>)

  /** Every index in `ws` names a node of a table of size `n`. */
  predicate InRange(ws: seq<nat>, n: nat) {
    forall i :: 0 <= i < |ws| ==> ws[i] < n
  }

  /** Every index in `ws` lies strictly between `floor` and `n`. */
  predicate Between(ws: seq<nat>, floor: int, n: nat) {
    forall i :: 0 <= i < |ws| ==> floor < ws[i] < n
  }

  /** The users of a constant expression at index `j` all come after it: the table is
      numbered in a topological order of the constant-expression user edges, which is
      how the acyclicity of LLVM constants is stated here. */
  predicate UsersAbove(u: User, j: nat, n: nat) {
    u.ConstExpr? ==> Between(u.users, j, n)
  }

  predicate WellFormedNodes(nodes: seq<User>) {
    forall j :: 0 <= j < |nodes| ==> UsersAbove(nodes[j], j, |nodes|)
  }

  predicate WellFormed(m: Module) {
    && WellFormedNodes(m.nodes)
    && forall i :: 0 <= i < |m.functions| ==> InRange(m.functions[i].users, |m.nodes|)
  }
}
