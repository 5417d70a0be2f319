/** The evaluator (class Environment, Environment.h:107-486): the call stack
    of frames, the heap, the intrinsic handles, and the value semantics of
    every node kind. Standard input and output are sequences, the host
    allocator is a parameter, and printed diagnostics are kept as a log. */
module Env {
  import opened Ast
  import opened Arith
  import opened Frames
  import opened HeapSim

  /** The diagnostics the evaluator prints, or the assertions it trips. */
  datatype Diag =
    | InvalidGet(addr: int)
    | InvalidUpdate(addr: int)
    | InvalidFree(addr: int)
    | UnboundDecl(decl: int)
    | UnevaluatedNode(node: int)
    | ExprNotHandled(node: int)
    | ArrayRefUnknown(node: int)
    | InvalidArraySize(decl: int)
    | BadAssignTarget(node: int)
    | DivisionByZero(node: int)

  /** The branches of call(). */
  datatype Intrinsic = Input | Output | Malloc | Free | User

  /** Parameter k is not rebound by a later one among the first n. */
  predicate LastBinding(params: seq<VarDecl>, k: int, n: int)
    requires 0 <= k < n <= |params|
  {
    forall j | k < j < n :: params[j].decl != params[k].decl
  }

  /** The map a new frame holds after parameter k is bound to args[k], for
      every k in order. */
  function Bindings(params: seq<VarDecl>, args: seq<int>): map<int, int>
    requires |params| == |args|
  {
    if |params| == 0 then map[]
    else Bindings(params[..|params| - 1], args[..|args| - 1])[params[|params| - 1].decl := args[|args| - 1]]
  }

  /** The frame binds exactly the parameters. */
  lemma {:induction false} BindingsKeys(params: seq<VarDecl>, args: seq<int>)
    requires |params| == |args|
    ensures Bindings(params, args).Keys == set k | 0 <= k < |params| :: params[k].decl
  {
    if |params| > 0 {
      var n := |params| - 1;
      BindingsKeys(params[..n], args[..n]);
      assert forall k | 0 <= k < n :: params[..n][k] == params[k];
      assert (set k | 0 <= k < |params| :: params[k].decl) == (set k | 0 <= k < n :: params[..n][k].decl) + {params[n].decl};
    }
  }

  /** A parameter not rebound later holds its own argument. */
  lemma {:induction false} BindingsValue(params: seq<VarDecl>, args: seq<int>, k: int)
    requires |params| == |args| && 0 <= k < |params| && LastBinding(params, k, |params|)
    ensures params[k].decl in Bindings(params, args) && Bindings(params, args)[params[k].decl] == args[k]
  {
    var n := |params| - 1;
    if k < n {
      assert params[..n][k] == params[k] && args[..n][k] == args[k];
      assert LastBinding(params[..n], k, n) by {
        forall j | k < j < n ensures params[..n][j].decl != params[..n][k].decl {
          assert params[..n][j] == params[j];
        }
      }
      BindingsValue(params[..n], args[..n], k);
    }
  }

  predicate Named(d: TopDecl, name: string)
  {
    d.Function? && d.name == name
  }

  /** The handle init keeps for a name: the last function declaration of
      the unit that carries it, or none. */
  function FindFunction(unit: seq<TopDecl>, name: string): (r: Option<int>)
    ensures r.None? <==> forall i | 0 <= i < |unit| :: !Named(unit[i], name)
    ensures r.Some? ==> exists i | 0 <= i < |unit| ::
      Named(unit[i], name) && unit[i].fn == r.value &&
      forall j | i < j < |unit| :: !Named(unit[j], name)
  {
    if |unit| == 0 then None
    else if Named(unit[|unit| - 1], name) then Some(unit[|unit| - 1].fn)
    else
      var r := FindFunction(unit[..|unit| - 1], name);
      assert forall i | 0 <= i < |unit| - 1 :: unit[..|unit| - 1][i] == unit[i];
      r
  }

  predicate Defines(d: TopDecl, f: int)
  {
    d.Function? && d.fn == f && d.body.Some?
  }

  /** The body of every function the unit defines (clang's getBody()): the
      one given by the last declaration of the function that has a body. */
  function Bodies(unit: seq<TopDecl>): (m: map<int, Node>)
    ensures forall f :: f in m <==> exists i | 0 <= i < |unit| :: Defines(unit[i], f)
  {
    if |unit| == 0 then map[]
    else
      var m := Bodies(unit[..|unit| - 1]);
      var d := unit[|unit| - 1];
      assert forall i | 0 <= i < |unit| - 1 :: unit[..|unit| - 1][i] == unit[i];
      if d.Function? && d.body.Some? then m[d.fn := d.body.value] else m
  }

  /** The body Bodies records for f is the one of the last declaration of f
      that has a body. */
  lemma {:induction false} BodiesLast(unit: seq<TopDecl>, f: int)
    requires f in Bodies(unit)
    ensures exists i | 0 <= i < |unit| ::
      Defines(unit[i], f) && unit[i].body == Some(Bodies(unit)[f]) &&
      forall j | i < j < |unit| :: !Defines(unit[j], f)
  {
    var n := |unit| - 1;
    var init := unit[..n];
    if Defines(unit[n], f) {
      assert unit[n].body == Some(Bodies(unit)[f]);
    } else {
      assert f in Bodies(init) && Bodies(unit)[f] == Bodies(init)[f];
      BodiesLast(init, f);
      var i :| 0 <= i < n && Defines(init[i], f) && init[i].body == Some(Bodies(init)[f]) &&
        forall j | i < j < n :: !Defines(init[j], f);
      assert Defines(unit[i], f) && unit[i].body == Some(Bodies(unit)[f]) &&
        forall j | i < j < |unit| :: !Defines(unit[j], f)
      by {
        assert forall j | 0 <= j < n :: init[j] == unit[j];
      }
    }
  }

  /** The binding a reference to d reads: the current frame's (locals) when
      it has one, else the global frame's, else 0. */
  function Resolve(locals: map<int, int>, globals: map<int, int>, d: int): int
  {
    if d in locals then locals[d] else if d in globals then globals[d] else 0
  }

  /** The current frame's bindings after an assignment of v to d through
      the two-tier lookup: they change when the frame binds d. */
  function StoreLocals(locals: map<int, int>, d: int, v: int): map<int, int>
  {
    if d in locals then locals[d := v] else locals
  }

  /** The global frame's bindings after the same assignment: they change
      when the current frame does not bind d. */
  function StoreGlobals(locals: map<int, int>, globals: map<int, int>, d: int, v: int): map<int, int>
  {
    if d in locals then globals else globals[d := v]
  }

  /** A memo entry, 0 when absent. */
  function MemoIn(memo: map<int, int>, id: int): int
  {
    if id in memo then memo[id] else 0
  }

  /** What binop memoizes for an arithmetic or comparison operator, with the
      corrected kernels; a zero divisor yields 0. */
  function BinaryValue(op: BinOp, lptr: bool, rptr: bool, l: int, r: int): int
    requires op.IsAdditive() || op.IsMultiplicative() || op.IsComparison()
  {
    if op.IsAdditive() then Additive(op, lptr, rptr, l, r)
    else if op.IsMultiplicative() then (if op != Mul && r == 0 then 0 else Multiplicative(op, l, r))
    else Compare(op, l, r)
  }

  /** An operator binop evaluates (not an assignment, not unhandled). */
  predicate Arithmetic(op: BinOp)
  {
    op.IsAdditive() || op.IsMultiplicative() || op.IsComparison()
  }

  /** The value expr() gives e, read off the current frame's bindings, the
      global frame's and the current frame's memo: literals are their
      value, an integer or pointer reference is looked up, an arithmetic or
      comparison operator is computed again from its operands, a cast is its
      operand, every other expression is its memo, and a statement is -1. */
  function Value(e: Node, locals: map<int, int>, globals: map<int, int>, memo: map<int, int>): int
  {
    match e
    case IntLit(_, v) => v
    case CharLit(_, v) => v
    case Ref(id, ty, d) =>
      if ty.IsInteger() || ty.IsPointer() then Resolve(locals, globals, d) else MemoIn(memo, id)
    case Binary(id, _, bop, l, r) =>
      if Arithmetic(bop) then
        BinaryValue(bop, OperandTy(l).IsPointer(), OperandTy(r).IsPointer(),
          Value(l, locals, globals, memo), Value(r, locals, globals, memo))
      else MemoIn(memo, id)
    case Cast(_, _, sub) => Value(sub, locals, globals, memo)
    case Paren(id, _, _) => MemoIn(memo, id)
    case Unary(id, _, _, _) => MemoIn(memo, id)
    case Index(id, _, _, _) => MemoIn(memo, id)
    case SizeOf(id) => MemoIn(memo, id)
    case Call(id, _, _, _) => MemoIn(memo, id)
    case _ => -1
  }

  /** The memo entries Value reads for e. */
  function Reads(e: Node): set<int>
  {
    match e
    case Ref(id, ty, _) => if ty.IsInteger() || ty.IsPointer() then {} else {id}
    case Binary(id, _, bop, l, r) => if Arithmetic(bop) then Reads(l) + Reads(r) else {id}
    case Cast(_, _, sub) => Reads(sub)
    case Paren(id, _, _) => {id}
    case Unary(id, _, _, _) => {id}
    case Index(id, _, _, _) => {id}
    case SizeOf(id) => {id}
    case Call(id, _, _, _) => {id}
    case _ => {}
  }

  /** The memo entries expr() writes for e when e contains no assignment:
      every reference it looks up again and every operator it computes again. */
  function Writes(e: Node): set<int>
  {
    match e
    case Ref(id, ty, _) => if ty.IsInteger() || ty.IsPointer() then {id} else {}
    case Binary(id, _, bop, l, r) => if Arithmetic(bop) then {id} + Writes(l) + Writes(r) else {}
    case Cast(_, _, sub) => Writes(sub)
    case _ => {}
  }

  /** The declarations Value looks up for e. */
  function Names(e: Node): set<int>
  {
    match e
    case Ref(_, ty, d) => if ty.IsInteger() || ty.IsPointer() then {d} else {}
    case Binary(_, _, bop, l, r) => if Arithmetic(bop) then Names(l) + Names(r) else {}
    case Cast(_, _, sub) => Names(sub)
    case _ => {}
  }

  /** expr() of e reaches no assignment, so it changes no binding and no host
      word, and it writes no memo entry it reads: evaluating e again gives
      the same value. */
  predicate Rereadable(e: Node)
  {
    Reads(e) !! Writes(e) &&
    match e
    case Binary(_, _, bop, l, r) => !bop.IsAssignment() && (Arithmetic(bop) ==> Rereadable(l) && Rereadable(r))
    case Cast(_, _, sub) => Rereadable(sub)
    case _ => true
  }

  /** The value of e depends on the memo only through Reads(e). */
  lemma {:induction false} ValueReadsOnly(e: Node, locals: map<int, int>, globals: map<int, int>, m1: map<int, int>, m2: map<int, int>)
    requires forall id | id in Reads(e) :: MemoIn(m1, id) == MemoIn(m2, id)
    ensures Value(e, locals, globals, m1) == Value(e, locals, globals, m2)
  {
    match e {
      case Binary(_, _, bop, l, r) =>
        if Arithmetic(bop) {
          ValueReadsOnly(l, locals, globals, m1, m2);
          ValueReadsOnly(r, locals, globals, m1, m2);
        }
      case Cast(_, _, sub) =>
        ValueReadsOnly(sub, locals, globals, m1, m2);
      case _ =>
    }
  }

  /** A rereadable expression keeps its value when only memo entries it
      does not read are overwritten. */
  lemma ValueOutsideWrites(e: Node, locals: map<int, int>, globals: map<int, int>, m1: map<int, int>, m2: map<int, int>, w: set<int>)
    requires Reads(e) !! w
    requires forall id | id !in w :: MemoIn(m2, id) == MemoIn(m1, id)
    ensures Value(e, locals, globals, m1) == Value(e, locals, globals, m2)
  {
    ValueReadsOnly(e, locals, globals, m1, m2);
  }

  /** The value of e depends on the bindings only through Names(e). */
  lemma {:induction false} ValueNamesOnly(e: Node, l1: map<int, int>, g1: map<int, int>, l2: map<int, int>, g2: map<int, int>, memo: map<int, int>)
    requires forall d | d in Names(e) :: Resolve(l1, g1, d) == Resolve(l2, g2, d)
    ensures Value(e, l1, g1, memo) == Value(e, l2, g2, memo)
  {
    match e {
      case Binary(_, _, bop, l, r) =>
        if Arithmetic(bop) {
          ValueNamesOnly(l, l1, g1, l2, g2, memo);
          ValueNamesOnly(r, l1, g1, l2, g2, memo);
        }
      case Cast(_, _, sub) =>
        ValueNamesOnly(sub, l1, g1, l2, g2, memo);
      case _ =>
    }
  }

  /** What a side-effect-free expression means in C, with the evaluator's
      conventions: a load from an invalid address is -1, a zero divisor
      gives 0, an element is read from the host word with no check. */
  ghost function Meaning(e: Node, locals: map<int, int>, globals: map<int, int>, blocks: map<int, int>, words: map<int, int>): int
  {
    match e
    case IntLit(_, v) => v
    case CharLit(_, v) => v
    case SizeOf(_) => WORD
    case Ref(_, _, d) => Resolve(locals, globals, d)
    case Paren(_, _, sub) => Meaning(sub, locals, globals, blocks, words)
    case Cast(_, _, sub) => Meaning(sub, locals, globals, blocks, words)
    case Unary(_, _, uop, sub) =>
      var a := Meaning(sub, locals, globals, blocks, words);
      if uop == Minus then -a
      else if uop == Deref then (if InBlocks(blocks, a) then MemoIn(words, a) else -1)
      else a
    case Binary(_, _, bop, l, r) =>
      if Arithmetic(bop) then
        BinaryValue(bop, OperandTy(l).IsPointer(), OperandTy(r).IsPointer(),
          Meaning(l, locals, globals, blocks, words), Meaning(r, locals, globals, blocks, words))
      else 0
    case Index(_, _, b, i) =>
      if b.Ref? then MemoIn(words, Resolve(locals, globals, b.decl) + WORD * Meaning(i, locals, globals, blocks, words)) else 0
    case _ => 0
  }

  /** vardecl evaluates the initializer: an integer, char or pointer with one. */
  predicate EvaluatesInit(v: VarDecl)
  {
    v.init.Some? && (v.ty.IsInteger() || v.ty.IsPointer())
  }

  /** Declaring v changes no binding but its own. */
  predicate Quiet(v: VarDecl)
  {
    !EvaluatesInit(v) || Rereadable(v.init.value)
  }

  /** v is not an array and its initial value is a constant: a literal
      initializer, or none. */
  predicate ConstInit(v: VarDecl)
  {
    !v.ty.ArrTy? && (EvaluatesInit(v) ==> v.init.value.IntLit? || v.init.value.CharLit?)
  }

  function ConstValue(v: VarDecl): int
    requires ConstInit(v)
  {
    if EvaluatesInit(v) then v.init.value.value else 0
  }

  /** The i-th argument of a call, if present, is rereadable. */
  predicate ArgRereadable(call: Node, i: nat)
    requires call.Call?
  {
    i < |call.args| ==> Rereadable(call.args[i])
  }

  /** The memo entries evaluating the i-th argument writes. */
  function ArgWrites(call: Node, i: nat): set<int>
    requires call.Call?
  {
    if i < |call.args| then Writes(call.args[i]) else {}
  }

  /** Every global variable of the unit is quiet. */
  predicate QuietGlobals(unit: seq<TopDecl>)
  {
    forall i | 0 <= i < |unit| && unit[i].GlobalVar? :: Quiet(unit[i].v)
  }

  /** Global i is not declared again among the first n declarations. */
  predicate LastGlobal(unit: seq<TopDecl>, i: int, n: int)
    requires 0 <= i < n <= |unit| && unit[i].GlobalVar?
  {
    forall j | i < j < n :: !(unit[j].GlobalVar? && unit[j].v.decl == unit[i].v.decl)
  }

  /** Every declaration in vars is quiet. */
  predicate AllQuiet(vars: seq<VarDecl>)
  {
    forall i | 0 <= i < |vars| :: Quiet(vars[i])
  }

  /** e looks up none of the variables vars declares. */
  predicate LooksUpNone(vars: seq<VarDecl>, e: Node)
  {
    forall j | 0 <= j < |vars| :: vars[j].decl !in Names(e)
  }

  /** Variable k of a declaration statement has an initializer that
      vardecl evaluates, that looks up none of the statement's variables and
      that reads no memo entry another initializer of the statement writes:
      declaring the others leaves its value as it was before the statement. */
  predicate Independent(vars: seq<VarDecl>, k: int)
    requires 0 <= k < |vars|
  {
    EvaluatesInit(vars[k]) && LooksUpNone(vars, vars[k].init.value) &&
    forall j | 0 <= j < |vars| && j != k && EvaluatesInit(vars[j]) ::
      Writes(vars[j].init.value) !! Reads(vars[k].init.value)
  }

  /** Declaring variable i, which rebinds its own declaration only and
      overwrites only the memo entries its initializer writes, leaves the
      value of every later independent initializer as it was. */
  lemma DeclareKeeps(vars: seq<VarDecl>, i: int, l1: map<int, int>, g1: map<int, int>, m1: map<int, int>,
                     l2: map<int, int>, g2: map<int, int>, m2: map<int, int>)
    requires 0 <= i < |vars|
    requires forall x | x != vars[i].decl :: Resolve(l2, g2, x) == Resolve(l1, g1, x)
    requires EvaluatesInit(vars[i]) ==> forall id | id !in Writes(vars[i].init.value) :: MemoIn(m2, id) == MemoIn(m1, id)
    requires !EvaluatesInit(vars[i]) ==> m2 == m1
    ensures forall k | i < k < |vars| && Independent(vars, k) ::
      Value(vars[k].init.value, l2, g2, m2) == Value(vars[k].init.value, l1, g1, m1)
  {
    forall k | i < k < |vars| && Independent(vars, k)
      ensures Value(vars[k].init.value, l2, g2, m2) == Value(vars[k].init.value, l1, g1, m1)
    {
      var e := vars[k].init.value;
      ValueNamesOnly(e, l1, g1, l2, g2, m1);
      var w := if EvaluatesInit(vars[i]) then Writes(vars[i].init.value) else {};
      ValueOutsideWrites(e, l2, g2, m1, m2, w);
    }
  }

  /** Some declaration in vars declares d. */
  predicate Declares(vars: seq<VarDecl>, d: int)
  {
    exists i | 0 <= i < |vars| :: vars[i].decl == d
  }

  /** A call whose arguments assign nothing and do not disturb each other's
      values, and whose parameters have no initializer. */
  predicate PlainCall(call: Node)
    requires call.Call?
  {
    (forall k | 0 <= k < |call.args| :: Rereadable(call.args[k])) &&
    (forall j, k | 0 <= j < k < |call.args| :: Reads(call.args[k]) !! Writes(call.args[j])) &&
    forall k | 0 <= k < |call.callee.params| :: call.callee.params[k].init.None?
  }

  /** Whether vardecl binds a variable of this type: everything except an
      array whose elements are neither integers nor pointers. */
  predicate Bindable(t: Ty)
  {
    !t.ArrTy? || t.elem.IsInteger() || t.elem.IsPointer()
  }

  /** Address a is one of the n words of the buffer at base. */
  predicate InArray(a: int, base: int, n: int)
  {
    base <= a < base + WORD * n && (a - base) % WORD == 0
  }

  /** Element k of an n-word buffer (the address arrayref and an array
      assignment compute) lies in the buffer exactly when 0 <= k < n; so
      every in-range element of a fresh array reads 0. */
  lemma {:induction false} ElementInArray(base: int, n: int, k: int)
    ensures InArray(base + WORD * k, base, n) <==> 0 <= k < n
  {
    assert (base + WORD * k - base) % WORD == 0;
  }

  lemma InArrayStep(a: int, base: int, i: nat)
    ensures InArray(a, base, i + 1) <==> InArray(a, base, i) || a == base + WORD * i
  {
  }

  class Environment {
    var stack: seq<StackFrame>
    const heap: Heap
    const freeFn: Option<int>
    const mallocFn: Option<int>
    const inputFn: Option<int>
    const outputFn: Option<int>
    const entry: Option<int>
    const bodies: map<int, Node>
    /** The host allocator (malloc and new[]): its n-th call returns hostAlloc(n). */
    const hostAlloc: nat -> int
    var allocs: nat
    var input: seq<int>
    var output: seq<int>
    var diags: seq<Diag>

    /** There is a current frame, and no frame object sits twice on the stack. */
    ghost predicate Valid()
      reads this`stack
    {
      |stack| > 0 && forall i, j | 0 <= i < j < |stack| :: stack[i] != stack[j]
    }

    /** The current frame, mStack.back(). */
    function Top(): StackFrame
      reads this`stack
      requires |stack| > 0
    {
      stack[|stack| - 1]
    }

    /** The global frame, mStack.front(). */
    function Global(): StackFrame
      reads this`stack
      requires |stack| > 0
    {
      stack[0]
    }

    /** The frame below the current one. */
    function Caller(): StackFrame
      reads this`stack
      requires |stack| > 1
    {
      stack[|stack| - 2]
    }

    /** The value a reference to d reads: the current frame's binding when
        it has one, else the global frame's (0 when neither binds d). */
    function Lookup(d: int): int
      reads this, Top(), stack[0]
      requires |stack| > 0
    {
      Resolve(Top().vars, stack[0].vars, d)
    }

    /** The memoized value of a node in the current frame (0 when absent). */
    function Memo(id: int): int
      reads this, Top()
      requires |stack| > 0
    {
      MemoIn(Top().exprs, id)
    }

    /** What expr(e) yields in the current state. */
    function Val(e: Node): int
      reads this, Top(), stack[0]
      requires |stack| > 0
    {
      Value(e, Top().vars, stack[0].vars, Top().exprs)
    }

    /** The value expr() gives the i-th argument of a call, 0 when missing. */
    function ArgVal(call: Node, i: nat): int
      reads this, Top(), stack[0]
      requires |stack| > 0 && call.Call?
    {
      if i < |call.args| then Val(call.args[i]) else 0
    }

    /** What e means in the current state. */
    ghost function Denote(e: Node): int
      reads this, Top(), stack[0], heap
      requires |stack| > 0
    {
      Meaning(e, Top().vars, stack[0].vars, heap.blocks, heap.words)
    }

    /** The most recent diagnostic is d. */
    predicate Logged(d: Diag)
      reads this
    {
      diags != [] && diags[|diags| - 1] == d
    }

    /** isExternalCall: the callee is one of the four intrinsics. */
    predicate IsExternalCall(fn: int)
      reads this
    {
      Some(fn) == freeFn || Some(fn) == mallocFn || Some(fn) == inputFn || Some(fn) == outputFn
    }

    /** Which branch of call() a callee takes; the tests run in the source's
        order, so a function that holds two handles is the first one. */
    function Dispatch(fn: int): (k: Intrinsic)
      reads this
      ensures k == User <==> !IsExternalCall(fn)
      ensures k == Input <==> Some(fn) == inputFn
      ensures k == Output ==> Some(fn) == outputFn
      ensures k == Malloc ==> Some(fn) == mallocFn
      ensures k == Free ==> Some(fn) == freeFn
    {
      if Some(fn) == inputFn then Input
      else if Some(fn) == outputFn then Output
      else if Some(fn) == mallocFn then Malloc
      else if Some(fn) == freeFn then Free
      else User
    }

    /** Environment() followed by init(unit): pushes the global frame, binds
        every global in it, records the intrinsic handles and the entry
        point, then pushes the frame main's body runs in. */
    constructor Init(unit: seq<TopDecl>, input: seq<int>, hostAlloc: nat -> int)
      ensures Valid() && |stack| == 2 && fresh(stack[0]) && fresh(stack[1]) && fresh(heap)
      ensures freeFn == FindFunction(unit, "FREE") && mallocFn == FindFunction(unit, "MALLOC")
      ensures inputFn == FindFunction(unit, "GET") && outputFn == FindFunction(unit, "PRINT")
      ensures entry == FindFunction(unit, "main") && bodies == Bodies(unit)
      ensures forall i | 0 <= i < |unit| && unit[i].GlobalVar? && Bindable(unit[i].v.ty) ::
        unit[i].v.decl in stack[0].vars
      ensures QuietGlobals(unit) ==>
        forall i | 0 <= i < |unit| && unit[i].GlobalVar? && ConstInit(unit[i].v) && LastGlobal(unit, i, |unit|) ::
          unit[i].v.decl in stack[0].vars && stack[0].vars[unit[i].v.decl] == ConstValue(unit[i].v)
      ensures stack[1].vars == map[] && stack[1].exprs == map[]
      ensures stack[1].retValue == 0 && !stack[1].returned
      ensures this.input == input && output == []
    {
      heap := new Heap();
      freeFn := FindFunction(unit, "FREE");
      mallocFn := FindFunction(unit, "MALLOC");
      inputFn := FindFunction(unit, "GET");
      outputFn := FindFunction(unit, "PRINT");
      entry := FindFunction(unit, "main");
      bodies := Bodies(unit);
      this.hostAlloc := hostAlloc;
      this.input := input;
      output := [];
      diags := [];
      allocs := 0;
      stack := [];
      new;
      var global := new StackFrame();
      stack := [global];
      DeclareGlobals(unit);
      var mainFrame := new StackFrame();
      stack := stack + [mainFrame];
    }

    /** The global-variable loop of init: every global of the unit, in
        order, declared in the global frame, the only frame there is. */
    method DeclareGlobals(unit: seq<TopDecl>)
      requires Valid() && |stack| == 1
      modifies this`diags, this`allocs, heap`words, Global()`vars, Global()`exprs
      ensures forall i | 0 <= i < |unit| && unit[i].GlobalVar? && Bindable(unit[i].v.ty) ::
        unit[i].v.decl in stack[0].vars
      ensures QuietGlobals(unit) ==>
        forall i | 0 <= i < |unit| && unit[i].GlobalVar? && ConstInit(unit[i].v) && LastGlobal(unit, i, |unit|) ::
          unit[i].v.decl in stack[0].vars && stack[0].vars[unit[i].v.decl] == ConstValue(unit[i].v)
    {
      var global := stack[0];
      for i := 0 to |unit|
        invariant forall k | 0 <= k < i && unit[k].GlobalVar? && Bindable(unit[k].v.ty) ::
          unit[k].v.decl in global.vars
        invariant QuietGlobals(unit) ==>
          forall k | 0 <= k < i && unit[k].GlobalVar? && ConstInit(unit[k].v) && LastGlobal(unit, k, i) ::
            unit[k].v.decl in global.vars && global.vars[unit[k].v.decl] == ConstValue(unit[k].v)
      {
        if unit[i].GlobalVar? {
          var _ := VarDeclare(unit[i].v, global);
        }
      }
    }


    /** getStmtVal on the current frame. A node without a memo trips the
        source's assertion; the model logs it and reads 0. */
    method MemoOf(id: int) returns (v: int)
      requires Valid()
      modifies this`diags
      ensures v == Memo(id)
      ensures diags == old(diags) + (if id in Top().exprs then [] else [UnevaluatedNode(id)])
    {
      if id in Top().exprs {
        v := Top().GetStmtVal(id);
      } else {
        diags := diags + [UnevaluatedNode(id)];
        v := 0;
      }
    }

    /** The two-tier getDeclVal: the current frame if it binds d, else the
        global frame, whose getDeclVal asserts the binding (logged, read as 0). */
    method LookupDecl(d: int) returns (v: int)
      requires Valid()
      modifies this`diags
      ensures v == Lookup(d)
      ensures diags == old(diags) + (if d in Top().vars || d in stack[0].vars then [] else [UnboundDecl(d)])
    {
      if Top().FindDecl(d) {
        v := Top().GetDeclVal(d);
      } else if stack[0].FindDecl(d) {
        v := stack[0].GetDeclVal(d);
      } else {
        diags := diags + [UnboundDecl(d)];
        v := 0;
      }
    }

    method IntegerLiteral(e: Node)
      requires Valid() && e.IntLit?
      modifies Top()`exprs
      ensures Top().exprs == old(Top().exprs)[e.id := e.value]
    {
      Top().BindStmt(e.id, e.value);
    }

    method CharacterLiteral(e: Node)
      requires Valid() && e.CharLit?
      modifies Top()`exprs
      ensures Top().exprs == old(Top().exprs)[e.id := e.value]
    {
      Top().BindStmt(e.id, e.value);
    }

    /** expr(): the value of an expression for its parent. Literals are
        recomputed, a binary operator is evaluated again, a reference is
        looked up again, a cast yields its operand, and every other kind
        reads the memo its visit left in the current frame. */
    method Eval(e: Node) returns (v: int)
      requires Valid()
      modifies this`diags, heap`words, Global()`vars, Global()`exprs, Top()`vars, Top()`exprs
      decreases e, 4
      ensures Valid()
      ensures old(Top().vars.Keys) <= Top().vars.Keys && old(stack[0].vars.Keys) <= stack[0].vars.Keys
      ensures e.Binary? || e.Ref? ==> v == Memo(e.id)
      ensures e.Binary? && e.bop.IsComparison() ==> v == 0 || v == 1
      ensures !e.Binary? && !e.Ref? && !e.Cast? ==> unchanged(heap, stack[0], Top())
      ensures e.Compound? || e.Decls? || e.If? || e.While? || e.For? || e.Return? ==>
        v == -1 && diags == old(diags) + [ExprNotHandled(e.id)]
      ensures Rereadable(e) ==> v == old(Val(e)) && Val(e) == v
      ensures Rereadable(e) ==>
        Top().vars == old(Top().vars) && stack[0].vars == old(stack[0].vars) && heap.words == old(heap.words)
      ensures Rereadable(e) ==> forall id | id !in Writes(e) :: Memo(id) == old(Memo(id))
    {
      match e {
        case Binary(_, _, _, _, _) =>
          v := EvalBinary(e);
        case Ref(_, _, _) =>
          v := EvalRef(e);
        case Cast(_, _, sub) =>
          v := Eval(sub);
        case _ =>
          v := EvalStored(e);
      }
    }

    /** The remaining cases of expr(): a literal is recomputed, a call,
        unary operator, parenthesis, subscript or sizeof reads its memo, and
        a statement is not handled. */
    method EvalStored(e: Node) returns (v: int)
      requires Valid() && !e.Binary? && !e.Ref? && !e.Cast?
      modifies this`diags
      ensures v == Val(e)
      ensures e.Compound? || e.Decls? || e.If? || e.While? || e.For? || e.Return? ==>
        diags == old(diags) + [ExprNotHandled(e.id)]
    {
      match e {
        case IntLit(_, value) =>
          v := value;
        case CharLit(_, value) =>
          v := value;
        case Call(_, _, _, _) | Unary(_, _, _, _) | Paren(_, _, _) | Index(_, _, _, _) | SizeOf(_) =>
          v := MemoOf(e.id);
        case Compound(_, _) | Decls(_, _) | If(_, _, _, _) | While(_, _, _) | For(_, _, _, _, _) | Return(_, _) =>
          diags := diags + [ExprNotHandled(e.id)];
          v := -1;
      }
    }

    /** The binary case of expr(): binop runs again and its memo is read. */
    method EvalBinary(e: Node) returns (v: int)
      requires Valid() && e.Binary?
      modifies this`diags, heap`words, Global()`vars, Global()`exprs, Top()`vars, Top()`exprs
      decreases e, 3
      ensures Valid()
      ensures old(Top().vars.Keys) <= Top().vars.Keys && old(stack[0].vars.Keys) <= stack[0].vars.Keys
      ensures v == Memo(e.id)
      ensures e.bop.IsComparison() ==> v == 0 || v == 1
      ensures Rereadable(e) ==> v == old(Val(e)) && Val(e) == v
      ensures Rereadable(e) ==>
        Top().vars == old(Top().vars) && stack[0].vars == old(stack[0].vars) && heap.words == old(heap.words)
      ensures Rereadable(e) ==> forall id | id !in Writes(e) :: Memo(id) == old(Memo(id))
    {
      var _, _ := BinaryOp(e);
      v := MemoOf(e.id);
    }

    /** The reference case of expr(): declref runs again and its memo is read. */
    method EvalRef(e: Node) returns (v: int)
      requires Valid() && e.Ref?
      modifies this`diags, Top()`exprs
      ensures v == Memo(e.id)
      ensures e.ty.IsInteger() || e.ty.IsPointer() ==> v == old(Lookup(e.decl))
      ensures !e.ty.IsInteger() && !e.ty.IsPointer() ==> Top().exprs == old(Top().exprs)
      ensures forall id | id != e.id :: Memo(id) == old(Memo(id))
    {
      DeclRef(e);
      v := MemoOf(e.id);
    }

    /** parenexpr: the parenthesis node memoizes its operand's value. */
    method ParenExpr(e: Node) returns (ghost inner: int)
      requires Valid() && e.Paren?
      modifies this`diags, heap`words, Global()`vars, Global()`exprs, Top()`vars, Top()`exprs
      ensures Valid()
      ensures old(Top().vars.Keys) <= Top().vars.Keys && old(stack[0].vars.Keys) <= stack[0].vars.Keys
      ensures e.id in Top().exprs && Top().exprs[e.id] == inner
      ensures Rereadable(e.sub) ==> inner == old(Val(e.sub))
      ensures Rereadable(e.sub) ==>
        Top().vars == old(Top().vars) && stack[0].vars == old(stack[0].vars) && heap.words == old(heap.words)
      ensures Rereadable(e.sub) ==> forall id | id !in Writes(e.sub) && id != e.id :: Memo(id) == old(Memo(id))
    {
      var val := Eval(e.sub);
      Top().BindStmt(e.id, val);
      inner := val;
    }

    /** sizeofexpr: every sizeof is the size of a long. */
    method SizeOfExpr(e: Node)
      requires Valid() && e.SizeOf?
      modifies Top()`exprs
      ensures Top().exprs == old(Top().exprs)[e.id := WORD]
    {
      Top().BindStmt(e.id, WORD);
    }

    /** unaryop: `+` keeps, `-` negates, and `*` loads through the heap,
        where an address outside every block reads -1. Other operators
        memoize nothing. */
    method UnaryOp(e: Node) returns (ghost operand: int)
      requires Valid() && e.Unary?
      modifies this`diags, heap`words, Global()`vars, Global()`exprs, Top()`vars, Top()`exprs
      ensures Valid()
      ensures old(Top().vars.Keys) <= Top().vars.Keys && old(stack[0].vars.Keys) <= stack[0].vars.Keys
      ensures e.uop != OtherUnOp ==> e.id in Top().exprs
      ensures e.uop == Plus ==> Top().exprs[e.id] == operand
      ensures e.uop == Minus ==> Top().exprs[e.id] == -operand
      ensures e.uop == Deref ==>
        Top().exprs[e.id] == (if InBlocks(heap.blocks, operand) then heap.Word(operand) else -1)
      ensures e.uop == Deref && !InBlocks(heap.blocks, operand) ==> Logged(InvalidGet(operand))
      ensures Rereadable(e.sub) ==> operand == old(Val(e.sub))
      ensures Rereadable(e.sub) ==>
        Top().vars == old(Top().vars) && stack[0].vars == old(stack[0].vars) && heap.words == old(heap.words)
      ensures Rereadable(e.sub) ==> forall id | id !in Writes(e.sub) && id != e.id :: Memo(id) == old(Memo(id))
    {
      var value := Eval(e.sub);
      operand := value;
      match e.uop {
        case Plus =>
          Top().BindStmt(e.id, value);
        case Minus =>
          Top().BindStmt(e.id, -value);
        case Deref =>
          var val, reported := heap.Get(value);
          if reported {
            diags := diags + [InvalidGet(value)];
          }
          Top().BindStmt(e.id, val);
        case OtherUnOp =>
      }
    }

    /** Assignment to a variable: the left node's memo and the binding the
        two-tier lookup resolves to take the value, and no other binding
        changes; reading the variable back gives the value. */
    method AssignVar(lhs: Node, val: int)
      requires Valid() && lhs.Ref?
      modifies Global()`vars, Top()`vars, Top()`exprs
      ensures Top().exprs == old(Top().exprs)[lhs.id := val]
      ensures lhs.decl in old(Top().vars) ==> Top().vars == old(Top().vars)[lhs.decl := val]
      ensures lhs.decl !in old(Top().vars) ==> stack[0].vars == old(stack[0].vars)[lhs.decl := val]
      ensures |stack| > 1 && lhs.decl in old(Top().vars) ==> stack[0].vars == old(stack[0].vars)
      ensures |stack| > 1 && lhs.decl !in old(Top().vars) ==> Top().vars == old(Top().vars)
      ensures Lookup(lhs.decl) == val
    {
      assert |stack| > 1 ==> stack[0] != stack[|stack| - 1];
      Top().BindStmt(lhs.id, val);
      if Top().FindDecl(lhs.decl) {
        Top().BindDecl(lhs.decl, val);
      } else {
        stack[0].BindDecl(lhs.decl, val);
      }
    }

    /** Assignment to an array element: the index is evaluated, the array
        variable is looked up, and the host word of the element takes the
        value, with no bounds or validity check. */
    method AssignIndex(lhs: Node, val: int) returns (ghost index: int)
      requires Valid() && lhs.Index?
      modifies this`diags, heap`words, Global()`vars, Global()`exprs, Top()`vars, Top()`exprs
      decreases lhs, 0
      ensures Valid()
      ensures old(Top().vars.Keys) <= Top().vars.Keys && old(stack[0].vars.Keys) <= stack[0].vars.Keys
      ensures lhs.base.Ref? ==> heap.Word(Lookup(lhs.base.decl) + WORD * index) == val
      ensures !lhs.base.Ref? ==> Logged(ArrayRefUnknown(lhs.id))
      ensures Rereadable(lhs.index) ==> index == old(Val(lhs.index))
      ensures Rereadable(lhs.index) ==> Top().vars == old(Top().vars) && stack[0].vars == old(stack[0].vars)
      ensures Rereadable(lhs.index) ==> forall id | id !in Writes(lhs.index) :: Memo(id) == old(Memo(id))
      ensures Rereadable(lhs.index) ==>
        heap.words == if lhs.base.Ref? then old(heap.words)[Lookup(lhs.base.decl) + WORD * index := val] else old(heap.words)
    {
      var idx := Eval(lhs.index);
      index := idx;
      if !lhs.base.Ref? {
        diags := diags + [ArrayRefUnknown(lhs.id)];
        return;
      }
      var base := LookupDecl(lhs.base.decl);
      heap.words := heap.words[base + WORD * idx := val];
    }

    /** Assignment through `*p`: the heap stores the value when the address
        is valid and reports otherwise. */
    method AssignDeref(lhs: Node, val: int) returns (ghost addr: int)
      requires Valid() && lhs.Unary?
      modifies this`diags, heap`words, Global()`vars, Global()`exprs, Top()`vars, Top()`exprs
      decreases lhs, 0
      ensures Valid()
      ensures old(Top().vars.Keys) <= Top().vars.Keys && old(stack[0].vars.Keys) <= stack[0].vars.Keys
      ensures InBlocks(heap.blocks, addr) ==> heap.Word(addr) == val
      ensures !InBlocks(heap.blocks, addr) ==> Logged(InvalidUpdate(addr))
      ensures Rereadable(lhs.sub) ==> addr == old(Val(lhs.sub))
      ensures Rereadable(lhs.sub) ==> Top().vars == old(Top().vars) && stack[0].vars == old(stack[0].vars)
      ensures Rereadable(lhs.sub) ==> forall id | id !in Writes(lhs.sub) :: Memo(id) == old(Memo(id))
      ensures Rereadable(lhs.sub) ==>
        heap.words == if InBlocks(heap.blocks, addr) then old(heap.words)[addr := val] else old(heap.words)
    {
      var lval := Eval(lhs.sub);
      addr := lval;
      var reported := heap.Update(lval, val);
      if reported {
        diags := diags + [InvalidUpdate(lval)];
      }
    }

    /** binop. An assignment (`=` or any `op=`) evaluates its right side and
        stores it through the left; it memoizes the left node, not itself.
        The other operators evaluate the right operand, then the left, and
        memoize the result of the corrected arithmetic kernels on the node.
        A zero divisor traps on the host; the model logs it and yields 0. */
    method BinaryOp(e: Node) returns (ghost vl: int, ghost vr: int)
      requires Valid() && e.Binary?
      modifies this`diags, heap`words, Global()`vars, Global()`exprs, Top()`vars, Top()`exprs
      decreases e, 2
      ensures Valid()
      ensures old(Top().vars.Keys) <= Top().vars.Keys && old(stack[0].vars.Keys) <= stack[0].vars.Keys
      ensures (e.bop.IsAssignment() || Arithmetic(e.bop)) && Rereadable(e.rhs) ==> vr == old(Val(e.rhs))
      ensures Arithmetic(e.bop) && Rereadable(e) ==> vl == old(Val(e.lhs))
      ensures e.bop.IsAssignment() && Rereadable(e.rhs) && e.lhs.Index? && Rereadable(e.lhs.index) &&
              Reads(e.lhs.index) !! Writes(e.rhs) ==>
        vl == old(Val(e.lhs.index))
      ensures e.bop.IsAssignment() && Rereadable(e.rhs) && e.lhs.Unary? && Rereadable(e.lhs.sub) &&
              Reads(e.lhs.sub) !! Writes(e.rhs) ==>
        vl == old(Val(e.lhs.sub))
      ensures e.bop.IsAssignment() && e.lhs.Ref? ==>
        e.lhs.id in Top().exprs && Top().exprs[e.lhs.id] == vr && Lookup(e.lhs.decl) == vr
      ensures e.bop.IsAssignment() && e.lhs.Ref? && Rereadable(e.rhs) ==> heap.words == old(heap.words)
      ensures e.bop.IsAssignment() && e.lhs.Ref? && Rereadable(e.rhs) && |stack| > 1 ==>
        Top().vars == StoreLocals(old(Top().vars), e.lhs.decl, vr) &&
        stack[0].vars == StoreGlobals(old(Top().vars), old(stack[0].vars), e.lhs.decl, vr)
      ensures e.bop.IsAssignment() && e.lhs.Index? && e.lhs.base.Ref? ==>
        heap.Word(Lookup(e.lhs.base.decl) + WORD * vl) == vr
      ensures e.bop.IsAssignment() && e.lhs.Unary? && InBlocks(heap.blocks, vl) ==> heap.Word(vl) == vr
      ensures e.bop.IsAssignment() && !e.lhs.Ref? && !e.lhs.Index? && !e.lhs.Unary? ==>
        Logged(BadAssignTarget(e.id))
      ensures !e.bop.IsAssignment() && !e.bop.OtherBinOp? ==> e.id in Top().exprs
      ensures e.bop.IsAdditive() ==>
        Top().exprs[e.id] == Additive(e.bop, OperandTy(e.lhs).IsPointer(), OperandTy(e.rhs).IsPointer(), vl, vr)
      ensures e.bop.IsMultiplicative() && (e.bop == Mul || vr != 0) ==>
        Top().exprs[e.id] == Multiplicative(e.bop, vl, vr)
      ensures e.bop.IsMultiplicative() && e.bop != Mul && vr == 0 ==>
        Top().exprs[e.id] == 0 && Logged(DivisionByZero(e.id))
      ensures e.bop.IsComparison() ==> Top().exprs[e.id] == Compare(e.bop, vl, vr)
      ensures e.bop.OtherBinOp? ==> unchanged(heap, stack[0], Top()) && diags == old(diags)
      ensures Arithmetic(e.bop) && Rereadable(e) ==> Memo(e.id) == old(Val(e))
      ensures Rereadable(e) ==> Val(e) == old(Val(e))
      ensures Rereadable(e) ==>
        Top().vars == old(Top().vars) && stack[0].vars == old(stack[0].vars) && heap.words == old(heap.words)
      ensures Rereadable(e) ==> forall id | id !in Writes(e) :: Memo(id) == old(Memo(id))
    {
      if e.bop.IsAssignment() {
        vl, vr := AssignOp(e);
      } else {
        vl, vr := ArithOp(e);
      }
    }

    /** The assignment branch of binop. */
    method AssignOp(e: Node) returns (ghost vl: int, ghost vr: int)
      requires Valid() && e.Binary? && e.bop.IsAssignment()
      modifies this`diags, heap`words, Global()`vars, Global()`exprs, Top()`vars, Top()`exprs
      decreases e, 1
      ensures Valid()
      ensures old(Top().vars.Keys) <= Top().vars.Keys && old(stack[0].vars.Keys) <= stack[0].vars.Keys
      ensures e.lhs.Ref? ==>
        e.lhs.id in Top().exprs && Top().exprs[e.lhs.id] == vr && Lookup(e.lhs.decl) == vr
      ensures e.lhs.Index? && e.lhs.base.Ref? ==> heap.Word(Lookup(e.lhs.base.decl) + WORD * vl) == vr
      ensures e.lhs.Unary? && InBlocks(heap.blocks, vl) ==> heap.Word(vl) == vr
      ensures !e.lhs.Ref? && !e.lhs.Index? && !e.lhs.Unary? ==> Logged(BadAssignTarget(e.id))
      ensures Rereadable(e.rhs) ==> vr == old(Val(e.rhs))
      ensures Rereadable(e.rhs) && e.lhs.Index? && Rereadable(e.lhs.index) && Reads(e.lhs.index) !! Writes(e.rhs) ==>
        vl == old(Val(e.lhs.index))
      ensures Rereadable(e.rhs) && e.lhs.Unary? && Rereadable(e.lhs.sub) && Reads(e.lhs.sub) !! Writes(e.rhs) ==>
        vl == old(Val(e.lhs.sub))
      ensures Rereadable(e.rhs) && e.lhs.Ref? ==> heap.words == old(heap.words)
      ensures Rereadable(e.rhs) && e.lhs.Ref? && |stack| > 1 ==>
        Top().vars == StoreLocals(old(Top().vars), e.lhs.decl, vr) &&
        stack[0].vars == StoreGlobals(old(Top().vars), old(stack[0].vars), e.lhs.decl, vr)
    {
      ghost var m0 := Top().exprs;
      var val := Eval(e.rhs);
      vr := val;
      if Rereadable(e.rhs) && e.lhs.Index? && Reads(e.lhs.index) !! Writes(e.rhs) {
        ValueOutsideWrites(e.lhs.index, Top().vars, stack[0].vars, m0, Top().exprs, Writes(e.rhs));
      }
      if Rereadable(e.rhs) && e.lhs.Unary? && Reads(e.lhs.sub) !! Writes(e.rhs) {
        ValueOutsideWrites(e.lhs.sub, Top().vars, stack[0].vars, m0, Top().exprs, Writes(e.rhs));
      }
      vl := Store(e.lhs, e.id, val);
    }

    /** The store half of an assignment, chosen by the shape of the left side. */
    method Store(lhs: Node, id: int, val: int) returns (ghost vl: int)
      requires Valid()
      modifies this`diags, heap`words, Global()`vars, Global()`exprs, Top()`vars, Top()`exprs
      decreases lhs, 1
      ensures Valid()
      ensures old(Top().vars.Keys) <= Top().vars.Keys && old(stack[0].vars.Keys) <= stack[0].vars.Keys
      ensures lhs.Ref? ==>
        lhs.id in Top().exprs && Top().exprs[lhs.id] == val && Lookup(lhs.decl) == val && heap.words == old(heap.words)
      ensures lhs.Index? && lhs.base.Ref? ==> heap.Word(Lookup(lhs.base.decl) + WORD * vl) == val
      ensures lhs.Unary? && InBlocks(heap.blocks, vl) ==> heap.Word(vl) == val
      ensures !lhs.Ref? && !lhs.Index? && !lhs.Unary? ==> Logged(BadAssignTarget(id))
      ensures lhs.Index? && Rereadable(lhs.index) ==> vl == old(Val(lhs.index))
      ensures lhs.Unary? && Rereadable(lhs.sub) ==> vl == old(Val(lhs.sub))
      ensures lhs.Ref? && |stack| > 1 ==>
        Top().vars == StoreLocals(old(Top().vars), lhs.decl, val) &&
        stack[0].vars == StoreGlobals(old(Top().vars), old(stack[0].vars), lhs.decl, val)
    {
      vl := 0;
      match lhs {
        case Ref(_, _, _) =>
          AssignVar(lhs, val);
        case Index(_, _, _, _) =>
          vl := AssignIndex(lhs, val);
        case Unary(_, _, _, _) =>
          vl := AssignDeref(lhs, val);
        case _ =>
          diags := diags + [BadAssignTarget(id)];
      }
    }

    /** The additive, multiplicative and comparison branches of binop: right
        operand first, then left. */
    method ArithOp(e: Node) returns (ghost vl: int, ghost vr: int)
      requires Valid() && e.Binary? && !e.bop.IsAssignment()
      modifies this`diags, heap`words, Global()`vars, Global()`exprs, Top()`vars, Top()`exprs
      decreases e, 1
      ensures Valid()
      ensures old(Top().vars.Keys) <= Top().vars.Keys && old(stack[0].vars.Keys) <= stack[0].vars.Keys
      ensures !e.bop.OtherBinOp? ==> e.id in Top().exprs
      ensures e.bop.IsAdditive() ==>
        Top().exprs[e.id] == Additive(e.bop, OperandTy(e.lhs).IsPointer(), OperandTy(e.rhs).IsPointer(), vl, vr)
      ensures e.bop.IsMultiplicative() && (e.bop == Mul || vr != 0) ==>
        Top().exprs[e.id] == Multiplicative(e.bop, vl, vr)
      ensures e.bop.IsMultiplicative() && e.bop != Mul && vr == 0 ==>
        Top().exprs[e.id] == 0 && Logged(DivisionByZero(e.id))
      ensures e.bop.IsComparison() ==> Top().exprs[e.id] == Compare(e.bop, vl, vr)
      ensures e.bop.OtherBinOp? ==> unchanged(heap, stack[0], Top()) && diags == old(diags)
      ensures Arithmetic(e.bop) && Rereadable(e.rhs) ==> vr == old(Val(e.rhs))
      ensures Arithmetic(e.bop) && Rereadable(e) ==> vl == old(Val(e.lhs)) && Memo(e.id) == old(Val(e))
      ensures Rereadable(e) ==> Val(e) == old(Val(e))
      ensures Rereadable(e) ==>
        Top().vars == old(Top().vars) && stack[0].vars == old(stack[0].vars) && heap.words == old(heap.words)
      ensures Rereadable(e) ==> forall id | id !in Writes(e) :: Memo(id) == old(Memo(id))
    {
      vl, vr := 0, 0;
      if e.bop.OtherBinOp? {
        return;
      }
      ghost var m0 := Top().exprs;
      var vall, valr := Operands(e);
      vl, vr := vall, valr;
      ghost var m1 := Top().exprs;
      if Rereadable(e) {
        assert forall id | id !in Writes(e.lhs) + Writes(e.rhs) :: MemoIn(m1, id) == Memo(id) == MemoIn(m0, id);
      }
      if e.bop.IsMultiplicative() && e.bop != Mul && valr == 0 {
        diags := diags + [DivisionByZero(e.id)];
      }
      Top().BindStmt(e.id, BinaryValue(e.bop, OperandTy(e.lhs).IsPointer(), OperandTy(e.rhs).IsPointer(), vall, valr));
      if Rereadable(e) {
        assert Writes(e) == {e.id} + Writes(e.lhs) + Writes(e.rhs);
        assert Reads(e) !! Writes(e);
        assert forall id | id in Reads(e) :: MemoIn(m0, id) == MemoIn(m1, id);
        assert forall id | id in Reads(e) :: MemoIn(m1, id) == Memo(id);
        ValueReadsOnly(e, Top().vars, stack[0].vars, m0, Top().exprs);
      }
    }

    /** The operands of an arithmetic or comparison operator, evaluated as
        binop does: the right one first, then the left. */
    method Operands(e: Node) returns (vl: int, vr: int)
      requires Valid() && e.Binary? && Arithmetic(e.bop)
      modifies this`diags, heap`words, Global()`vars, Global()`exprs, Top()`vars, Top()`exprs
      decreases e, 0
      ensures Valid()
      ensures old(Top().vars.Keys) <= Top().vars.Keys && old(stack[0].vars.Keys) <= stack[0].vars.Keys
      ensures Rereadable(e.rhs) ==> vr == old(Val(e.rhs))
      ensures Rereadable(e) ==> vl == old(Val(e.lhs))
      ensures Rereadable(e) ==>
        Top().vars == old(Top().vars) && stack[0].vars == old(stack[0].vars) && heap.words == old(heap.words)
      ensures Rereadable(e) ==> forall id | id !in Writes(e.lhs) + Writes(e.rhs) :: Memo(id) == old(Memo(id))
    {
      ghost var m0 := Top().exprs;
      vr := Eval(e.rhs);
      if Rereadable(e) {
        assert Reads(e.lhs) <= Reads(e) && Writes(e.rhs) <= Writes(e);
        assert forall id | id in Reads(e.lhs) :: MemoIn(m0, id) == Memo(id);
        ValueReadsOnly(e.lhs, Top().vars, stack[0].vars, m0, Top().exprs);
      }
      vl := Eval(e.lhs);
    }

    /** new long[n] zero-filled: the next host allocation, its n words set
        to 0 one by one, all other host memory untouched. */
    method NewArray(n: nat) returns (base: int)
      modifies this`allocs, heap`words
      ensures base == hostAlloc(old(allocs)) && allocs == old(allocs) + 1
      ensures forall a | InArray(a, base, n) :: heap.Word(a) == 0
      ensures forall a | !InArray(a, base, n) :: heap.Word(a) == old(heap.Word(a))
    {
      base := hostAlloc(allocs);
      allocs := allocs + 1;
      var i := 0;
      while i < n
        invariant 0 <= i <= n && allocs == old(allocs) + 1
        invariant forall a | InArray(a, base, i) :: heap.Word(a) == 0
        invariant forall a | !InArray(a, base, i) :: heap.Word(a) == old(heap.Word(a))
      {
        ghost var prev := heap.words;
        heap.words := heap.words[base + WORD * i := 0];
        forall a | InArray(a, base, i + 1)
          ensures heap.Word(a) == 0
        {
          InArrayStep(a, base, i);
          if a != base + WORD * i {
            assert heap.Word(a) == if a in prev then prev[a] else 0;
          }
        }
        forall a | !InArray(a, base, i + 1)
          ensures heap.Word(a) == old(heap.Word(a))
        {
          InArrayStep(a, base, i);
          assert heap.Word(a) == if a in prev then prev[a] else 0;
        }
        i := i + 1;
      }
    }

    /** vardecl: binds a declared variable in frame sf. An integer, char or
        pointer gets its initializer's value (evaluated in the current
        frame) or 0; an array of integers or pointers gets a fresh
        zero-filled buffer, after a size of 0 is reported; an array of any
        other element type is not bound; every other type is bound to 0. */
    method VarDeclare(v: VarDecl, sf: StackFrame) returns (ghost val: int)
      requires Valid()
      modifies this`diags, this`allocs, heap`words, Global()`vars, Global()`exprs, Top()`vars, Top()`exprs, sf`vars
      ensures Valid()
      ensures old(Top().vars.Keys) <= Top().vars.Keys && old(stack[0].vars.Keys) <= stack[0].vars.Keys
      ensures old(sf.vars.Keys) <= sf.vars.Keys
      ensures Bindable(v.ty) ==> v.decl in sf.vars && sf.vars[v.decl] == val
      ensures sf !in old(stack) ==>
        sf.vars == if Bindable(v.ty) then old(sf.vars)[v.decl := val] else old(sf.vars)
      ensures EvaluatesInit(v) && Rereadable(v.init.value) ==> val == old(Val(v.init.value))
      ensures ConstInit(v) ==> val == ConstValue(v)
      ensures Quiet(v) ==> sf.vars == if Bindable(v.ty) then old(sf.vars)[v.decl := val] else old(sf.vars)
      ensures Quiet(v) && sf != Top() ==> Top().vars == old(Top().vars)
      ensures Quiet(v) && sf != stack[0] ==> stack[0].vars == old(stack[0].vars)
      ensures Quiet(v) && !v.ty.ArrTy? ==> heap.words == old(heap.words)
      ensures !EvaluatesInit(v) ==> Top().exprs == old(Top().exprs)
      ensures EvaluatesInit(v) && Rereadable(v.init.value) ==>
        forall id | id !in Writes(v.init.value) :: Memo(id) == old(Memo(id))
      ensures v.ty.ArrTy? && Bindable(v.ty) ==>
        val == hostAlloc(old(allocs)) && allocs == old(allocs) + 1 &&
        forall a | InArray(a, val, v.ty.size) :: heap.Word(a) == 0
      ensures v.ty.ArrTy? && v.ty.size == 0 ==> InvalidArraySize(v.decl) in diags
      ensures !Bindable(v.ty) || !v.ty.ArrTy? ==> allocs == old(allocs)
    {
      var value := 0;
      match v.ty {
        case IntTy =>
          if v.init.Some? {
            value := Eval(v.init.value);
          }
          sf.BindDecl(v.decl, value);
        case CharTy =>
          if v.init.Some? {
            value := Eval(v.init.value);
          }
          sf.BindDecl(v.decl, value);
        case ArrTy(elem, size) =>
          if size <= 0 {
            diags := diags + [InvalidArraySize(v.decl)];
          }
          if elem.IsInteger() || elem.IsPointer() {
            value := NewArray(size);
            sf.BindDecl(v.decl, value);
          }
        case PtrTy =>
          if v.init.Some? {
            value := Eval(v.init.value);
          }
          sf.BindDecl(v.decl, value);
        case OtherTy =>
          sf.BindDecl(v.decl, 0);
      }
      val := value;
    }

    /** decl: every variable of a declaration statement is bound in the
        current frame, in order. */
    method Decl(s: Node)
      requires Valid() && s.Decls?
      modifies this`diags, this`allocs, heap`words, Global()`vars, Global()`exprs, Top()`vars, Top()`exprs
      ensures Valid()
      ensures old(Top().vars.Keys) <= Top().vars.Keys && old(stack[0].vars.Keys) <= stack[0].vars.Keys
      ensures forall i | 0 <= i < |s.vars| && Bindable(s.vars[i].ty) :: s.vars[i].decl in Top().vars
      ensures AllQuiet(s.vars) && |stack| > 1 ==> stack[0].vars == old(stack[0].vars)
      ensures AllQuiet(s.vars) ==>
        forall d | d in old(Top().vars) && !Declares(s.vars, d) :: Top().vars[d] == old(Top().vars[d])
      ensures AllQuiet(s.vars) ==>
        forall i | 0 <= i < |s.vars| && ConstInit(s.vars[i]) && LastBinding(s.vars, i, |s.vars|) ::
          s.vars[i].decl in Top().vars && Top().vars[s.vars[i].decl] == ConstValue(s.vars[i])
      ensures AllQuiet(s.vars) ==>
        forall i | 0 <= i < |s.vars| && Independent(s.vars, i) && LastBinding(s.vars, i, |s.vars|) ::
          s.vars[i].decl in Top().vars && Top().vars[s.vars[i].decl] == old(Val(s.vars[i].init.value))
    {
      for i := 0 to |s.vars|
        invariant Valid() && stack == old(stack)
        invariant old(Top().vars.Keys) <= Top().vars.Keys && old(stack[0].vars.Keys) <= stack[0].vars.Keys
        invariant forall k | 0 <= k < i && Bindable(s.vars[k].ty) :: s.vars[k].decl in Top().vars
        invariant AllQuiet(s.vars) && |stack| > 1 ==> stack[0].vars == old(stack[0].vars)
        invariant AllQuiet(s.vars) ==>
          forall d | d in old(Top().vars) && !Declares(s.vars[..i], d) :: Top().vars[d] == old(Top().vars[d])
        invariant AllQuiet(s.vars) ==>
          forall k | 0 <= k < i && ConstInit(s.vars[k]) && LastBinding(s.vars, k, i) ::
            s.vars[k].decl in Top().vars && Top().vars[s.vars[k].decl] == ConstValue(s.vars[k])
        invariant AllQuiet(s.vars) ==>
          forall k | i <= k < |s.vars| && Independent(s.vars, k) :: Val(s.vars[k].init.value) == old(Val(s.vars[k].init.value))
        invariant AllQuiet(s.vars) ==>
          forall k | 0 <= k < i && Independent(s.vars, k) && LastBinding(s.vars, k, i) ::
            s.vars[k].decl in Top().vars && Top().vars[s.vars[k].decl] == old(Val(s.vars[k].init.value))
      {
        ghost var l1, g1, m1 := Top().vars, stack[0].vars, Top().exprs;
        var _ := VarDeclare(s.vars[i], Top());
        assert s.vars[..i + 1] == s.vars[..i] + [s.vars[i]];
        if AllQuiet(s.vars) {
          assert Quiet(s.vars[i]);
          assert forall x | x != s.vars[i].decl :: Resolve(Top().vars, stack[0].vars, x) == Resolve(l1, g1, x);
          DeclareKeeps(s.vars, i, l1, g1, m1, Top().vars, stack[0].vars, Top().exprs);
        }
      }
      assert s.vars[..|s.vars|] == s.vars;
    }

    /** declref: a reference of integer or pointer type memoizes the value
        the two-tier lookup finds; any other reference memoizes nothing. */
    method DeclRef(e: Node)
      requires Valid() && e.Ref?
      modifies this`diags, Top()`exprs
      ensures e.ty.IsInteger() || e.ty.IsPointer() ==> Top().exprs == old(Top().exprs)[e.id := old(Lookup(e.decl))]
      ensures !e.ty.IsInteger() && !e.ty.IsPointer() ==> Top().exprs == old(Top().exprs) && diags == old(diags)
    {
      if e.ty.IsInteger() || e.ty.IsPointer() {
        var val := LookupDecl(e.decl);
        Top().BindStmt(e.id, val);
      }
    }

    /** arrayref: the element's host word, read with no bounds or validity
        check, is memoized on the subscript node. */
    method ArrayRef(e: Node) returns (ghost index: int)
      requires Valid() && e.Index?
      modifies this`diags, heap`words, Global()`vars, Global()`exprs, Top()`vars, Top()`exprs
      ensures Valid()
      ensures old(Top().vars.Keys) <= Top().vars.Keys && old(stack[0].vars.Keys) <= stack[0].vars.Keys
      ensures e.base.Ref? ==> e.id in Top().exprs && Top().exprs[e.id] == heap.Word(Lookup(e.base.decl) + WORD * index)
      ensures !e.base.Ref? ==> Logged(ArrayRefUnknown(e.id))
      ensures Rereadable(e.index) ==> index == old(Val(e.index))
      ensures Rereadable(e.index) ==>
        Top().vars == old(Top().vars) && stack[0].vars == old(stack[0].vars) && heap.words == old(heap.words)
      ensures Rereadable(e.index) ==> forall id | id !in Writes(e.index) && id != e.id :: Memo(id) == old(Memo(id))
    {
      var idx := Eval(e.index);
      index := idx;
      if !e.base.Ref? {
        diags := diags + [ArrayRefUnknown(e.id)];
        return;
      }
      var base := LookupDecl(e.base.decl);
      Top().BindStmt(e.id, heap.Word(base + WORD * idx));
    }

    /** cast: a cast to an integer type memoizes the memo of the node under
        it; a cast to any other type memoizes nothing. Under a cast of a
        pointer lvalue lies an implicit cast of pointer type, which has no
        memo, so the read fails (the model logs it and memoizes 0). */
    method CastExpr(e: Node)
      requires Valid() && e.Cast?
      modifies this`diags, Top()`exprs
      ensures TypeOf(e).IsInteger() && !PointerLvalue(e.sub) ==>
        Top().exprs == old(Top().exprs)[e.id := old(Memo(e.sub.id))]
      ensures TypeOf(e).IsInteger() && PointerLvalue(e.sub) ==>
        Top().exprs == old(Top().exprs)[e.id := 0] && Logged(UnevaluatedNode(e.sub.id))
      ensures !TypeOf(e).IsInteger() ==> Top().exprs == old(Top().exprs) && diags == old(diags)
    {
      if TypeOf(e).IsInteger() {
        var val := 0;
        if PointerLvalue(e.sub) {
          diags := diags + [UnevaluatedNode(e.sub.id)];
        } else {
          val := MemoOf(e.sub.id);
        }
        Top().BindStmt(e.id, val);
      }
    }

    /** ret: pops exactly the callee's frame; unless the callee is noreturn
        the caller memoizes the callee's return value (0 when no return
        statement ran) on the call node. */
    method Ret(call: Node)
      requires Valid() && call.Call? && |stack| >= 2
      modifies this`stack, Caller()`exprs
      ensures Valid() && stack == old(stack[..|stack| - 1])
      ensures call.callee.noReturn ==> Top().exprs == old(stack[|stack| - 2].exprs)
      ensures !call.callee.noReturn ==>
        Top().exprs == old(stack[|stack| - 2].exprs)[call.id := old(Top().retValue)]
    {
      var rval := Top().retValue;
      stack := stack[..|stack| - 1];
      if !call.callee.noReturn {
        Top().BindStmt(call.id, rval);
      }
    }

    /** retstmt: records the value of the returned expression, if any, and
        marks the current frame returned. */
    method RetStmt(r: Node) returns (ghost val: int)
      requires Valid() && r.Return?
      modifies this`diags, heap`words, Global()`vars, Global()`exprs, Top()`vars, Top()`exprs,
        Top()`retValue, Top()`returned
      ensures Valid()
      ensures old(Top().vars.Keys) <= Top().vars.Keys && old(stack[0].vars.Keys) <= stack[0].vars.Keys
      ensures Top().returned
      ensures r.result.Some? ==> Top().retValue == val
      ensures r.result.Some? && Rereadable(r.result.value) ==> val == old(Val(r.result.value))
      ensures r.result.Some? && Rereadable(r.result.value) ==>
        Top().vars == old(Top().vars) && stack[0].vars == old(stack[0].vars) && heap.words == old(heap.words)
      ensures r.result.None? ==>
        (Top().retValue == old(Top().retValue) && unchanged(heap) &&
         Top().vars == old(Top().vars) && stack[0].vars == old(stack[0].vars) && Top().exprs == old(Top().exprs))
    {
      val := 0;
      if r.result.Some? {
        var rval := Eval(r.result.value);
        Top().SetRetValue(rval);
        val := rval;
      }
      Top().SetReturned();
    }

    /** call. GET memoizes the next input value (0 once input is exhausted);
        PRINT appends its argument to the output; MALLOC records a block of
        the requested size at the next host allocation and memoizes its
        address; FREE reports an address that is not a block's base. Any
        other callee gets a fresh frame, each parameter bound to its
        argument evaluated in the caller, pushed on top. */
    method CallExpr(call: Node) returns (ghost args: seq<int>)
      requires Valid() && call.Call?
      modifies this, heap, Global()`vars, Global()`exprs, Top()`vars, Top()`exprs
      ensures Valid()
      ensures old(stack[0].vars.Keys) <= stack[0].vars.Keys
      ensures IsExternalCall(call.callee.fn) ==> stack == old(stack)
      ensures Dispatch(call.callee.fn) == Input ==>
        Top().exprs == old(Top().exprs)[call.id := if old(input) == [] then 0 else old(input[0])] &&
        input == (if old(input) == [] then [] else old(input[1..]))
      ensures Dispatch(call.callee.fn) == Input ==>
        diags == old(diags) && unchanged(heap) && Top().vars == old(Top().vars) && stack[0].vars == old(stack[0].vars)
      ensures IsExternalCall(call.callee.fn) && Dispatch(call.callee.fn) != Input && ArgRereadable(call, 0) ==>
        args == [old(ArgVal(call, 0))] && heap.words == old(heap.words) &&
        Top().vars == old(Top().vars) && stack[0].vars == old(stack[0].vars)
      ensures IsExternalCall(call.callee.fn) && Dispatch(call.callee.fn) != Input && ArgRereadable(call, 0) ==>
        forall id | id !in ArgWrites(call, 0) && id != call.id :: Memo(id) == old(Memo(id))
      ensures Dispatch(call.callee.fn) != Input ==> input == old(input)
      ensures Dispatch(call.callee.fn) == Output ==> |args| == 1 && output == old(output) + args
      ensures Dispatch(call.callee.fn) != Output ==> output == old(output)
      ensures Dispatch(call.callee.fn) == Malloc ==>
        |args| == 1 && allocs == old(allocs) + 1 &&
        heap.blocks == old(heap.blocks)[hostAlloc(old(allocs)) := args[0]] &&
        call.id in Top().exprs && Top().exprs[call.id] == hostAlloc(old(allocs))
      ensures Dispatch(call.callee.fn) != Malloc ==> heap.blocks == old(heap.blocks)
      ensures Dispatch(call.callee.fn) == Free ==>
        |args| == 1 && (args[0] !in heap.blocks ==> Logged(InvalidFree(args[0])))
      ensures Dispatch(call.callee.fn) == User ==>
        |stack| == |old(stack)| + 1 && stack[..|stack| - 1] == old(stack) && fresh(Top()) &&
        Top().exprs == map[] && Top().retValue == 0 && !Top().returned &&
        |args| == |call.callee.params| && Top().vars == Bindings(call.callee.params, args) &&
        Top().vars.Keys == (set k | 0 <= k < |call.callee.params| :: call.callee.params[k].decl) &&
        forall k | 0 <= k < |call.callee.params| && LastBinding(call.callee.params, k, |call.callee.params|) ::
          Top().vars[call.callee.params[k].decl] == args[k]
      ensures Dispatch(call.callee.fn) == User && PlainCall(call) ==>
        (forall k | 0 <= k < |args| :: args[k] == old(ArgVal(call, k))) &&
        Caller().vars == old(Top().vars) && stack[0].vars == old(stack[0].vars)
      ensures IsExternalCall(call.callee.fn) ==> old(Top().vars.Keys) <= Top().vars.Keys
      ensures !IsExternalCall(call.callee.fn) ==> old(Top().vars.Keys) <= Caller().vars.Keys
    {
      args := [];
      match Dispatch(call.callee.fn) {
        case Input =>
          CallInput(call);
        case User =>
          args := PushFrame(call);
        case _ =>
          var val := CallBuiltin(call);
          args := [val];
      }
    }

    /** The GET branch of call: the next input value, 0 once input is
        exhausted, is memoized on the call node. */
    method CallInput(call: Node)
      requires Valid() && call.Call?
      modifies this`input, Top()`exprs
      ensures Top().exprs == old(Top().exprs)[call.id := if old(input) == [] then 0 else old(input[0])]
      ensures input == if old(input) == [] then [] else old(input[1..])
    {
      var val := 0;
      if input != [] {
        val := input[0];
        input := input[1..];
      }
      Top().BindStmt(call.id, val);
    }

    /** The PRINT, MALLOC and FREE branches of call: the first argument is
        evaluated in the current frame, then printed, allocated or freed. */
    method CallBuiltin(call: Node) returns (ghost val: int)
      requires Valid() && call.Call? && IsExternalCall(call.callee.fn) && Dispatch(call.callee.fn) != Input
      modifies this`diags, this`allocs, this`output, heap, Global()`vars, Global()`exprs, Top()`vars, Top()`exprs
      ensures Valid()
      ensures old(Top().vars.Keys) <= Top().vars.Keys && old(stack[0].vars.Keys) <= stack[0].vars.Keys
      ensures ArgRereadable(call, 0) ==>
        val == old(ArgVal(call, 0)) && heap.words == old(heap.words) &&
        Top().vars == old(Top().vars) && stack[0].vars == old(stack[0].vars)
      ensures ArgRereadable(call, 0) ==> forall id | id !in ArgWrites(call, 0) && id != call.id :: Memo(id) == old(Memo(id))
      ensures Dispatch(call.callee.fn) == Output ==> output == old(output) + [val]
      ensures Dispatch(call.callee.fn) != Output ==> output == old(output)
      ensures Dispatch(call.callee.fn) == Malloc ==>
        allocs == old(allocs) + 1 &&
        heap.blocks == old(heap.blocks)[hostAlloc(old(allocs)) := val] &&
        call.id in Top().exprs && Top().exprs[call.id] == hostAlloc(old(allocs))
      ensures Dispatch(call.callee.fn) != Malloc ==> heap.blocks == old(heap.blocks)
      ensures Dispatch(call.callee.fn) == Free ==> (val !in heap.blocks ==> Logged(InvalidFree(val)))
    {
      var v := Argument(call, 0);
      val := v;
      match Dispatch(call.callee.fn) {
        case Output =>
          output := output + [v];
        case Malloc =>
          var base := hostAlloc(allocs);
          allocs := allocs + 1;
          var addr := heap.Malloc(base, v);
          Top().BindStmt(call.id, addr);
        case Free =>
          var reported := heap.Free(v);
          if reported {
            diags := diags + [InvalidFree(v)];
          }
      }
    }

    /** The user-function branch of call: a fresh frame, each parameter
        declared in it and then bound to its argument evaluated in the
        caller, pushed on top. When a parameter repeats, the later one's
        binding wins. */
    method PushFrame(call: Node) returns (ghost args: seq<int>)
      requires Valid() && call.Call?
      modifies this`stack, this`diags, this`allocs, heap`words, Global()`vars, Global()`exprs, Top()`vars, Top()`exprs
      ensures Valid()
      ensures old(stack[0].vars.Keys) <= stack[0].vars.Keys
      ensures |stack| == |old(stack)| + 1 && stack[..|stack| - 1] == old(stack) && fresh(Top())
      ensures old(Top().vars.Keys) <= Caller().vars.Keys
      ensures Top().exprs == map[] && Top().retValue == 0 && !Top().returned
      ensures |args| == |call.callee.params| && Top().vars == Bindings(call.callee.params, args)
      ensures Top().vars.Keys == (set k | 0 <= k < |call.callee.params| :: call.callee.params[k].decl)
      ensures forall k | 0 <= k < |call.callee.params| && LastBinding(call.callee.params, k, |call.callee.params|) ::
        Top().vars[call.callee.params[k].decl] == args[k]
      ensures PlainCall(call) ==> forall k | 0 <= k < |args| :: args[k] == old(ArgVal(call, k))
      ensures PlainCall(call) ==> Caller().vars == old(Top().vars) && stack[0].vars == old(stack[0].vars)
    {
      var frame;
      frame, args := NewFrame(call);
      stack := stack + [frame];
    }

    /** PushFrame's frame before it is pushed: fresh, with the parameters
        bound to the arguments evaluated in the caller. */
    method NewFrame(call: Node) returns (frame: StackFrame, ghost args: seq<int>)
      requires Valid() && call.Call?
      modifies this`diags, this`allocs, heap`words, Global()`vars, Global()`exprs, Top()`vars, Top()`exprs
      ensures Valid() && stack == old(stack) && fresh(frame)
      ensures old(stack[0].vars.Keys) <= stack[0].vars.Keys && old(Top().vars.Keys) <= Top().vars.Keys
      ensures frame.exprs == map[] && frame.retValue == 0 && !frame.returned
      ensures |args| == |call.callee.params| && frame.vars == Bindings(call.callee.params, args)
      ensures frame.vars.Keys == (set k | 0 <= k < |call.callee.params| :: call.callee.params[k].decl)
      ensures forall k | 0 <= k < |call.callee.params| && LastBinding(call.callee.params, k, |call.callee.params|) ::
        frame.vars[call.callee.params[k].decl] == args[k]
      ensures PlainCall(call) ==> forall k | 0 <= k < |args| :: args[k] == old(ArgVal(call, k))
      ensures PlainCall(call) ==> Top().vars == old(Top().vars) && stack[0].vars == old(stack[0].vars)
    {
      frame := new StackFrame();
      args := BindParams(call, frame);
      BindingsKeys(call.callee.params, args);
      forall k | 0 <= k < |call.callee.params| && LastBinding(call.callee.params, k, |call.callee.params|)
        ensures frame.vars[call.callee.params[k].decl] == args[k]
      {
        BindingsValue(call.callee.params, args, k);
      }
    }

    /** The parameter loop of call: every parameter of the callee, in order,
        bound in the new frame to its argument. */
    method BindParams(call: Node, frame: StackFrame) returns (ghost args: seq<int>)
      requires Valid() && call.Call? && frame !in stack && frame.vars == map[]
      modifies this`diags, this`allocs, heap`words, Global()`vars, Global()`exprs, Top()`vars, Top()`exprs, frame`vars
      ensures Valid()
      ensures old(Top().vars.Keys) <= Top().vars.Keys && old(stack[0].vars.Keys) <= stack[0].vars.Keys
      ensures |args| == |call.callee.params|
      ensures frame.vars == Bindings(call.callee.params, args)
      ensures PlainCall(call) ==> forall k | 0 <= k < |args| :: args[k] == old(ArgVal(call, k))
      ensures PlainCall(call) ==> Top().vars == old(Top().vars) && stack[0].vars == old(stack[0].vars)
    {
      var params := call.callee.params;
      args := [];
      for i := 0 to |params|
        invariant Valid() && stack == old(stack)
        invariant old(Top().vars.Keys) <= Top().vars.Keys && old(stack[0].vars.Keys) <= stack[0].vars.Keys
        invariant |args| == i
        invariant frame.vars == Bindings(params[..i], args)
        invariant PlainCall(call) ==> Top().vars == old(Top().vars) && stack[0].vars == old(stack[0].vars)
        invariant PlainCall(call) ==> forall k | i <= k < |call.args| :: Val(call.args[k]) == old(Val(call.args[k]))
        invariant PlainCall(call) ==> forall k | 0 <= k < i :: args[k] == old(ArgVal(call, k))
      {
        ghost var before := args;
        var val := BindParam(call, i, frame);
        args := args + [val];
        assert forall k | 0 <= k < i :: args[k] == before[k];
        assert params[..i + 1][..i] == params[..i] && args[..i] == before;
      }
      assert params[..|params|] == params;
    }

    /** One step of the parameter loop: the i-th argument is evaluated in
        the current frame, then the i-th parameter is declared in the new
        frame and bound to it. In a plain call this changes no binding of
        the current frame and no value of a later argument. */
    method BindParam(call: Node, i: nat, frame: StackFrame) returns (v: int)
      requires Valid() && call.Call? && frame !in stack && i < |call.callee.params|
      modifies this`diags, this`allocs, heap`words, Global()`vars, Global()`exprs, Top()`vars, Top()`exprs, frame`vars
      ensures Valid()
      ensures old(Top().vars.Keys) <= Top().vars.Keys && old(stack[0].vars.Keys) <= stack[0].vars.Keys
      ensures frame.vars == old(frame.vars)[call.callee.params[i].decl := v]
      ensures i >= |call.args| ==> v == 0
      ensures PlainCall(call) ==> v == old(ArgVal(call, i))
      ensures PlainCall(call) ==> Top().vars == old(Top().vars) && stack[0].vars == old(stack[0].vars)
      ensures PlainCall(call) ==> forall k | i < k < |call.args| :: Val(call.args[k]) == old(Val(call.args[k]))
    {
      ghost var m0 := Top().exprs;
      v := Argument(call, i);
      if PlainCall(call) {
        forall k | i < k < |call.args|
          ensures Value(call.args[k], Top().vars, stack[0].vars, m0) == Val(call.args[k])
        {
          ValueOutsideWrites(call.args[k], Top().vars, stack[0].vars, m0, Top().exprs, ArgWrites(call, i));
        }
      }
      DeclareParam(call.callee.params[i], frame, v);
    }

    /** One parameter of a new frame: declared there (vardecl), then bound to
        the argument's value. */
    method DeclareParam(p: VarDecl, frame: StackFrame, val: int)
      requires Valid() && frame !in stack
      modifies this`diags, this`allocs, heap`words, Global()`vars, Global()`exprs, Top()`vars, Top()`exprs, frame`vars
      ensures Valid()
      ensures old(Top().vars.Keys) <= Top().vars.Keys && old(stack[0].vars.Keys) <= stack[0].vars.Keys
      ensures frame.vars == old(frame.vars)[p.decl := val]
      ensures p.init.None? ==>
        Top().vars == old(Top().vars) && stack[0].vars == old(stack[0].vars) && Top().exprs == old(Top().exprs)
    {
      var _ := VarDeclare(p, frame);
      frame.BindDecl(p.decl, val);
    }

    /** The i-th argument of a call, evaluated in the current frame; a
        missing argument reads 0. */
    method Argument(call: Node, i: nat) returns (v: int)
      requires Valid() && call.Call?
      modifies this`diags, heap`words, Global()`vars, Global()`exprs, Top()`vars, Top()`exprs
      ensures Valid()
      ensures old(Top().vars.Keys) <= Top().vars.Keys && old(stack[0].vars.Keys) <= stack[0].vars.Keys
      ensures i >= |call.args| ==> v == 0 && diags == old(diags) && unchanged(heap, stack[0], Top())
      ensures ArgRereadable(call, i) ==> v == old(ArgVal(call, i))
      ensures ArgRereadable(call, i) ==>
        Top().vars == old(Top().vars) && stack[0].vars == old(stack[0].vars) && heap.words == old(heap.words)
      ensures ArgRereadable(call, i) ==> forall id | id !in ArgWrites(call, i) :: Memo(id) == old(Memo(id))
    {
      v := 0;
      if i < |call.args| {
        v := Eval(call.args[i]);
      }
    }
  }
}
