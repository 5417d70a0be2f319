/** The control-flow walker (class InterpreterVisitor, ASTInterpreter.cpp:15-197)
    and the entry sequence (HandleTranslationUnit, ASTInterpreter.cpp:205-211).
    Every visit first checks whether the current function has returned and
    then does nothing. The interpreted program need not terminate, so every
    walk carries fuel: a loop runs at most `fuel` iterations and a call body
    is walked with one unit less; once fuel runs out `exhausted` is set and
    every further visit does nothing. */
module Walker {
  import opened Ast
  import opened Arith
  import opened Frames
  import opened HeapSim
  import opened Env

  /** An expression whose visit only memoizes, and after whose visit expr()
      reads back its C meaning: literals, sizeof, integer and pointer
      references, and `+`, `-`, `*`, parentheses, casts, arithmetic and
      comparison operators and subscripts of a named array built from them.
      A cast and an operator must not share a node id with their operands,
      nor the two operands of an operator with each other, since their value
      is computed again from the operands' memo. */
  predicate PureExpr(e: Node)
  {
    match e
    case IntLit(_, _) => true
    case CharLit(_, _) => true
    case SizeOf(_) => true
    case Ref(_, ty, _) => ty.IsInteger() || ty.IsPointer()
    case Paren(_, _, sub) => PureExpr(sub)
    case Unary(_, _, uop, sub) => uop != OtherUnOp && PureExpr(sub)
    case Cast(id, _, sub) => PureExpr(sub) && id !in Ids(sub)
    case Binary(id, _, bop, l, r) =>
      Arithmetic(bop) && PureExpr(l) && PureExpr(r) && Ids(l) !! Ids(r) && id !in Ids(l) + Ids(r)
    case Index(_, _, b, i) => b.Ref? && PureExpr(i)
    case _ => false
  }

  /** A pure expression can be evaluated again, reads and writes only memo
      entries of its own nodes, and holds no loop or call. */
  lemma {:induction false} PureFacts(e: Node)
    requires PureExpr(e)
    ensures Rereadable(e) && Reads(e) <= Ids(e) && Writes(e) <= Ids(e) && e.id in Ids(e) && Straight(e)
  {
    match e {
      case Paren(_, _, sub) => PureFacts(sub);
      case Unary(_, _, _, sub) => PureFacts(sub);
      case Cast(_, _, sub) => PureFacts(sub);
      case Binary(_, _, _, l, r) => PureFacts(l); PureFacts(r);
      case Index(_, _, _, i) => PureFacts(i);
      case _ =>
    }
  }

  /** Every child is pure and no two children share a node id. */
  predicate PureChildren(n: Node)
  {
    (forall c | c in Children(n) :: PureExpr(c)) && DisjointIds(Children(n))
  }

  /** The operands of a pure expression other than a subscript are pure
      children whose ids are among the expression's. */
  lemma PureParts(e: Node)
    requires PureExpr(e) && !e.Index?
    ensures PureChildren(e) && IdsOf(Children(e)) <= Ids(e)
  {
    match e {
      case Binary(_, _, _, l, r) =>
        assert Children(e)[..1] == [l] && [l][..0] == [];
        assert IdsOf([l]) == Ids(l);
        assert IdsOf(Children(e)) == Ids(l) + Ids(r);
      case Paren(_, _, sub) => assert Children(e)[..0] == [];
      case Unary(_, _, _, sub) => assert Children(e)[..0] == [];
      case Cast(_, _, sub) => assert Children(e)[..0] == [];
      case _ =>
    }
  }

  /** Visiting one of several pure siblings with disjoint ids leaves the
      values of the others as they were. */
  lemma SiblingsKept(cs: seq<Node>, i: nat, locals: map<int, int>, globals: map<int, int>, m1: map<int, int>, m2: map<int, int>)
    requires i < |cs| && (forall c | c in cs :: PureExpr(c)) && DisjointIds(cs)
    requires forall id | id !in Ids(cs[i]) :: MemoIn(m2, id) == MemoIn(m1, id)
    ensures forall k | 0 <= k < i :: Value(cs[k], locals, globals, m2) == Value(cs[k], locals, globals, m1)
  {
    forall k | 0 <= k < i
      ensures Value(cs[k], locals, globals, m2) == Value(cs[k], locals, globals, m1)
    {
      assert cs[k] in cs;
      PureFacts(cs[k]);
      ValueOutsideWrites(cs[k], locals, globals, m1, m2, Ids(cs[i]));
    }
  }

  /** Two pure initializers of disjoint ids: neither writes a memo entry
      the other reads. */
  lemma InitsSeparate(vars: seq<VarDecl>, j: int, k: int)
    requires 0 <= j < |vars| && 0 <= k < |vars| && j != k && vars[j].init.Some? && vars[k].init.Some?
    requires (forall c | c in Inits(vars) :: PureExpr(c)) && DisjointIds(Inits(vars))
    ensures Writes(vars[j].init.value) !! Reads(vars[k].init.value)
  {
    InitIn(vars, j);
    InitIn(vars, k);
    PureFacts(vars[j].init.value);
    PureFacts(vars[k].init.value);
    if j < k {
      InitsDisjoint(vars, j, k);
    } else {
      InitsDisjoint(vars, k, j);
    }
  }

  /** In a declaration statement with pure initializers of disjoint ids,
      an initializer that looks up none of the statement's variables is
      independent of the others. */
  lemma PureInitIndependent(n: Node, i: int)
    requires n.Decls? && PureChildren(n) && 0 <= i < |n.vars|
    requires EvaluatesInit(n.vars[i]) && LooksUpNone(n.vars, n.vars[i].init.value)
    ensures Independent(n.vars, i)
  {
    assert Children(n) == Inits(n.vars);
    forall j | 0 <= j < |n.vars| && j != i && EvaluatesInit(n.vars[j])
      ensures Writes(n.vars[j].init.value) !! Reads(n.vars[i].init.value)
    {
      InitsSeparate(n.vars, j, i);
    }
  }

  /** When the visit of pure initializers left each with its meaning, the
      values decl binds for those that look up none of the statement's
      variables are their meanings before the statement. */
  lemma DeclaredMeanings(n: Node, l0: map<int, int>, g0: map<int, int>, b0: map<int, int>, w0: map<int, int>,
                         locals: map<int, int>, globals: map<int, int>, memo: map<int, int>, bound: map<int, int>)
    requires n.Decls? && PureChildren(n)
    requires forall k | 0 <= k < |Children(n)| :: Value(Children(n)[k], locals, globals, memo) == Meaning(Children(n)[k], l0, g0, b0, w0)
    requires forall i | 0 <= i < |n.vars| && Independent(n.vars, i) && LastBinding(n.vars, i, |n.vars|) ::
      n.vars[i].decl in bound && bound[n.vars[i].decl] == Value(n.vars[i].init.value, locals, globals, memo)
    ensures forall i | 0 <= i < |n.vars| && EvaluatesInit(n.vars[i]) && LooksUpNone(n.vars, n.vars[i].init.value) &&
                       LastBinding(n.vars, i, |n.vars|) ::
      n.vars[i].decl in bound && bound[n.vars[i].decl] == Meaning(n.vars[i].init.value, l0, g0, b0, w0)
  {
    forall i | 0 <= i < |n.vars| && EvaluatesInit(n.vars[i]) && LooksUpNone(n.vars, n.vars[i].init.value) &&
               LastBinding(n.vars, i, |n.vars|)
      ensures n.vars[i].decl in bound && bound[n.vars[i].decl] == Meaning(n.vars[i].init.value, l0, g0, b0, w0)
    {
      PureInitIndependent(n, i);
      InitIn(n.vars, i);
    }
  }

  /** A call whose arguments are pure and own disjoint ids, to a callee
      whose parameters have no initializer (as always in C). */
  predicate PureArgs(call: Node)
    requires call.Call?
  {
    PureChildren(call) && forall k | 0 <= k < |call.callee.params| :: call.callee.params[k].init.None?
  }

  /** Pure arguments make a plain call. */
  lemma PureArgsPlain(call: Node)
    requires call.Call? && PureArgs(call)
    ensures PlainCall(call)
  {
    forall k | 0 <= k < |call.args|
      ensures Rereadable(call.args[k]) && Reads(call.args[k]) <= Ids(call.args[k]) && Writes(call.args[k]) <= Ids(call.args[k])
    {
      PureFacts(call.args[k]);
    }
  }

  /** The part of the state a simple statement changes: the current
      frame's bindings, the global frame's, and the current frame's
      returned flag and return value. */
  datatype Flow = Flow(locals: map<int, int>, globals: map<int, int>, returned: bool, retValue: int)

  /** A statement built from pure parts, with no declaration, loop or call:
      a pure expression, an assignment of a pure right side to a variable,
      a return of a pure value or of none, an if on a pure condition, or a
      block of such statements. */
  predicate Simple(s: Node)
  {
    match s
    case Compound(_, stmts) => forall c | c in stmts :: Simple(c)
    case If(_, cond, thn, els) => PureExpr(cond) && Simple(thn) && (els.Some? ==> Simple(els.value))
    case Return(_, r) => r.Some? ==> PureExpr(r.value)
    case Binary(_, _, bop, lhs, _) => PureExpr(s) || (bop.IsAssignment() && lhs.Ref? && PureChildren(s))
    case _ => PureExpr(s)
  }

  /** Every child of n is simple: a function body or block the statement
      semantics covers. */
  predicate SimpleBody(n: Node)
  {
    forall c | c in Children(n) :: Simple(c)
  }

  /** What a simple statement does to the flow under the program's
      statement semantics, memory being blocks and words (other statements
      are outside its scope and leave the flow as it is): nothing once the
      frame has returned; a block runs its statements in order; an if runs
      the then-branch exactly when the condition means 1, else the
      else-branch if there is one; an assignment, `=` or any `op=`, stores
      the right side's meaning through the two-tier lookup; a return marks
      the frame returned, with its value's meaning when it has one; an
      expression changes nothing. */
  ghost function Exec(s: Node, f: Flow, blocks: map<int, int>, words: map<int, int>): Flow
    decreases s, 1, 0
  {
    if f.returned then f
    else match s
      case Compound(_, _) => ExecFrom(s, 0, f, blocks, words)
      case If(_, cond, thn, els) =>
        if Meaning(cond, f.locals, f.globals, blocks, words) == 1 then Exec(thn, f, blocks, words)
        else if els.Some? then Exec(els.value, f, blocks, words)
        else f
      case Return(_, r) =>
        if r.Some? then f.(returned := true, retValue := Meaning(r.value, f.locals, f.globals, blocks, words))
        else f.(returned := true)
      case Binary(_, _, bop, lhs, rhs) =>
        if bop.IsAssignment() && lhs.Ref? then
          var v := Meaning(rhs, f.locals, f.globals, blocks, words);
          f.(locals := StoreLocals(f.locals, lhs.decl, v), globals := StoreGlobals(f.locals, f.globals, lhs.decl, v))
        else f
      case _ => f
  }

  /** An `op=` assignment stores its right side as binop does, not the
      operator's result: `x += 2` with x == 5 leaves x == 2, not 7. */
  lemma CompoundAssignStoresRight(f: Flow, blocks: map<int, int>, words: map<int, int>)
    requires !f.returned && 7 in f.locals && f.locals[7] == 5
    ensures var s := Binary(0, IntTy, CompoundAssign, Ref(1, IntTy, 7), IntLit(2, 2));
      Simple(s) && Exec(s, f, blocks, words).locals[7] == 2 != f.locals[7] + 2
  {
  }

  /** The children of s from the i-th on, run in order. */
  ghost function ExecFrom(s: Node, i: nat, f: Flow, blocks: map<int, int>, words: map<int, int>): Flow
    requires i <= |Children(s)|
    decreases s, 0, |Children(s)| - i
  {
    if i == |Children(s)| then f
    else
      assert Children(s)[i] in Children(s);
      ExecFrom(s, i + 1, Exec(Children(s)[i], f, blocks, words), blocks, words)
  }

  /** A simple statement holds no loop or call. */
  lemma {:induction false} SimpleStraight(s: Node)
    requires Simple(s)
    ensures Straight(s)
  {
    match s {
      case Compound(_, stmts) =>
        forall c | c in stmts ensures Straight(c) { SimpleStraight(c); }
      case If(_, cond, thn, els) =>
        PureFacts(cond);
        SimpleStraight(thn);
        if els.Some? { SimpleStraight(els.value); }
      case Return(_, r) =>
        if r.Some? { PureFacts(r.value); }
      case Binary(_, _, _, l, r) =>
        if !PureExpr(s) {
          assert l in Children(s) && r in Children(s);
          PureFacts(l);
          PureFacts(r);
        } else {
          PureFacts(s);
        }
      case _ => PureFacts(s);
    }
  }

  /** A pure expression is a simple statement that changes nothing. */
  lemma PureExec(e: Node, f: Flow, blocks: map<int, int>, words: map<int, int>)
    requires PureExpr(e)
    ensures Simple(e) && Exec(e, f, blocks, words) == f
  {
  }

  /** Pure children form a simple block. */
  lemma PureChildrenSimple(s: Node)
    requires PureChildren(s)
    ensures SimpleBody(s)
  {
    forall c | c in Children(s) ensures Simple(c) { PureExec(c, Flow(map[], map[], false, 0), map[], map[]); }
  }

  /** Pure children form a simple block, and running them leaves the flow
      as it is. */
  lemma {:induction false} PureChildrenExec(s: Node, i: nat, f: Flow, blocks: map<int, int>, words: map<int, int>)
    requires PureChildren(s) && i <= |Children(s)|
    ensures SimpleBody(s) && ExecFrom(s, i, f, blocks, words) == f
    decreases |Children(s)| - i
  {
    PureChildrenSimple(s);
    if i < |Children(s)| {
      var c := Children(s)[i];
      assert c in Children(s);
      PureExec(c, f, blocks, words);
      PureChildrenExec(s, i + 1, f, blocks, words);
    }
  }

  /** A loop whose condition, if any, is pure and whose other parts are
      simple. */
  predicate SimpleLoop(n: Node)
  {
    match n
    case While(_, cond, body) => PureExpr(cond) && Simple(body)
    case For(_, init, test, inc, body) =>
      (init.Some? ==> Simple(init.value)) && (test.Some? ==> PureExpr(test.value)) &&
      (inc.Some? ==> Simple(inc.value)) && Simple(body)
    case _ => false
  }

  /** The parts of a simple loop are straight: they cannot run out of fuel. */
  lemma SimpleLoopStraight(n: Node)
    requires SimpleLoop(n)
    ensures StraightParts(n)
  {
    forall c | c in Children(n) ensures Straight(c) {
      if PureExpr(c) { PureFacts(c); } else { SimpleStraight(c); }
    }
  }

  /** The condition of a loop; a for loop may have none. */
  function LoopTest(n: Node): Option<Node>
    requires n.While? || n.For?
  {
    if n.While? then Some(n.cond) else n.test
  }

  /** The loop does not start another round: the frame has returned, or the
      condition does not mean 1. Without a condition only a return stops it. */
  ghost predicate Stops(n: Node, f: Flow, blocks: map<int, int>, words: map<int, int>)
    requires n.While? || n.For?
  {
    f.returned || (LoopTest(n).Some? && Meaning(LoopTest(n).value, f.locals, f.globals, blocks, words) != 1)
  }

  /** One round of a loop: the body, then a for loop's increment. */
  ghost function RoundExec(n: Node, f: Flow, blocks: map<int, int>, words: map<int, int>): Flow
    requires n.While? || n.For?
  {
    var g := Exec(n.body, f, blocks, words);
    if n.For? && n.inc.Some? then Exec(n.inc.value, g, blocks, words) else g
  }

  /** The flow after at most k rounds of the loop from f, ending early once
      the loop stops. */
  ghost function Iterate(n: Node, f: Flow, blocks: map<int, int>, words: map<int, int>, k: nat): Flow
    requires n.While? || n.For?
    decreases k
  {
    if k == 0 || Stops(n, f, blocks, words) then f
    else Iterate(n, RoundExec(n, f, blocks, words), blocks, words, k - 1)
  }

  /** Once the frame has returned, the rest of a block changes nothing. */
  lemma {:induction false} ReturnedSkips(s: Node, i: nat, f: Flow, blocks: map<int, int>, words: map<int, int>)
    requires i <= |Children(s)| && f.returned
    ensures ExecFrom(s, i, f, blocks, words) == f
    decreases |Children(s)| - i
  {
    if i < |Children(s)| {
      ReturnedSkips(s, i + 1, f, blocks, words);
    }
  }

  /** A return decides what a block leaves: the statements after it
      change nothing. */
  lemma {:induction false} ReturnEndsBlock(s: Node, i: nat, f: Flow, blocks: map<int, int>, words: map<int, int>)
    requires i < |Children(s)| && Children(s)[i].Return?
    ensures ExecFrom(s, i, f, blocks, words) == Exec(Children(s)[i], f, blocks, words)
    ensures ExecFrom(s, i, f, blocks, words).returned
  {
    ReturnedSkips(s, i + 1, Exec(Children(s)[i], f, blocks, words), blocks, words);
  }

  /** A block holding a return, from the j-th statement on, ends with the
      frame returned. */
  lemma {:induction false} ReturnInBlock(s: Node, j: nat, i: nat, f: Flow, blocks: map<int, int>, words: map<int, int>)
    requires j <= i < |Children(s)| && Children(s)[i].Return?
    ensures ExecFrom(s, j, f, blocks, words).returned
    decreases i - j
  {
    if j == i {
      ReturnEndsBlock(s, i, f, blocks, words);
    } else {
      ReturnInBlock(s, j + 1, i, Exec(Children(s)[j], f, blocks, words), blocks, words);
    }
  }

  /** A loop that has stopped stays where it is, however many rounds are
      left. */
  lemma {:induction false} StoppedStays(n: Node, f: Flow, blocks: map<int, int>, words: map<int, int>, k: nat)
    requires (n.While? || n.For?) && Stops(n, f, blocks, words)
    ensures Iterate(n, f, blocks, words, k) == f
  {
  }

  /** Running a loop for a + b rounds is running it for a rounds, then for
      b more. */
  lemma {:induction false} IterateSplit(n: Node, f: Flow, blocks: map<int, int>, words: map<int, int>, a: nat, b: nat)
    requires n.While? || n.For?
    ensures Iterate(n, f, blocks, words, a + b) == Iterate(n, Iterate(n, f, blocks, words, a), blocks, words, b)
    decreases a
  {
    if a == 0 {
    } else if Stops(n, f, blocks, words) {
      StoppedStays(n, f, blocks, words, b);
    } else {
      IterateSplit(n, RoundExec(n, f, blocks, words), blocks, words, a - 1, b);
    }
  }

  /** The values a call passes its parameters: each argument's meaning, 0
      for a missing one. */
  ghost function ArgMeanings(n: Node, locals: map<int, int>, globals: map<int, int>, blocks: map<int, int>, words: map<int, int>): seq<int>
    requires n.Call?
  {
    seq(|n.callee.params|, k requires 0 <= k < |n.callee.params| =>
      if k < |n.args| then Meaning(n.args[k], locals, globals, blocks, words) else 0)
  }

  /** The flow a simple function body leaves, run in a fresh frame that
      binds entry and has not returned. */
  ghost function BodyRun(body: Node, entry: map<int, int>, globals: map<int, int>, blocks: map<int, int>, words: map<int, int>): Flow
  {
    ExecFrom(body, 0, Flow(entry, globals, false, 0), blocks, words)
  }

  class Visitor {
    const env: Environment
    /** The walk ran out of fuel: every later visit is a no-op. */
    var exhausted: bool

    constructor (env: Environment)
      ensures this.env == env && !exhausted
    {
      this.env := env;
      exhausted := false;
    }

    /** Fuel remains and the current function has not returned: a visit
        does its work. */
    predicate Live()
      reads this, env, env.Top()
      requires env.Valid()
    {
      !exhausted && !env.Top().returned
    }

    /** The flow of the current state. */
    ghost function Now(): Flow
      reads env, env.Top(), env.Global()
      requires env.Valid()
    {
      Flow(env.Top().vars, env.Global().vars, env.Top().returned, env.Top().retValue)
    }

    /** Visit: clang's dispatch on the node's kind, here in two steps:
        expressions, then statements. */
    method Visit(n: Node, fuel: nat)
      requires env.Valid()
      modifies this, env, env.heap, env.Global()`vars, env.Global()`exprs, env.Top()
      decreases fuel, n, 6
      ensures env.Valid() && env.stack == old(env.stack)
      ensures old(exhausted) ==> exhausted
      ensures !old(Live()) ==> unchanged(this, env, env.heap, env.Global(), env.Top())
      ensures !env.Top().returned ==> env.Top().retValue == old(env.Top().retValue)
      ensures old(env.Top().vars.Keys) <= env.Top().vars.Keys && old(env.Global().vars.Keys) <= env.Global().vars.Keys
      ensures old(env.output) <= env.output
      ensures IsLeaf(n) ==>
        env.Top().vars == old(env.Top().vars) && env.Global().vars == old(env.Global().vars) && unchanged(env.heap)
      ensures Straight(n) ==> exhausted == old(exhausted)
      ensures PureExpr(n) ==>
        unchanged(this, env.heap) && env.output == old(env.output) && env.Top().returned == old(env.Top().returned) &&
        env.Top().vars == old(env.Top().vars) && env.Global().vars == old(env.Global().vars)
      ensures PureExpr(n) ==> forall id | id !in Ids(n) :: env.Memo(id) == old(env.Memo(id))
      ensures old(Live()) && PureExpr(n) ==> env.Val(n) == old(env.Denote(n))
      ensures old(Live()) && PureExpr(n) && !n.Cast? ==> env.Memo(n.id) == old(env.Denote(n))
      ensures old(Live()) && n.Binary? && n.bop.IsAssignment() && n.lhs.Ref? && (n.rhs.IntLit? || n.rhs.CharLit?) ==>
        env.Lookup(n.lhs.decl) == n.rhs.value
      ensures old(Live()) && n.Binary? && n.bop.IsAssignment() && n.lhs.Ref? && PureChildren(n) ==>
        env.Lookup(n.lhs.decl) == old(env.Denote(n.rhs))
      ensures old(Live()) && n.Decls? ==>
        forall i | 0 <= i < |n.vars| && Bindable(n.vars[i].ty) :: n.vars[i].decl in env.Top().vars
      ensures Simple(n) ==> unchanged(env.heap) && env.output == old(env.output)
      ensures !old(exhausted) && |env.stack| > 1 && Simple(n) ==>
        Now() == Exec(n, old(Now()), old(env.heap.blocks), old(env.heap.words))
      ensures old(Live()) && n.Return? ==> env.Top().returned
      ensures old(Live()) && n.Return? && n.result.Some? && PureExpr(n.result.value) ==>
        env.Top().retValue == old(env.Denote(n.result.value))
      ensures old(Live()) && n.Call? && env.Dispatch(n.callee.fn) == Output && PureArgs(n) ==>
        env.output == old(env.output) + [if |n.args| > 0 then old(env.Denote(n.args[0])) else 0]
      ensures old(Live()) && n.Call? && env.Dispatch(n.callee.fn) == User && !n.callee.noReturn && PureArgs(n) &&
              fuel > 0 && n.callee.fn in env.bodies && SimpleBody(env.bodies[n.callee.fn]) ==>
        env.Memo(n.id) == BodyRun(env.bodies[n.callee.fn],
          Bindings(n.callee.params, ArgMeanings(n, old(env.Top().vars), old(env.Global().vars), old(env.heap.blocks), old(env.heap.words))),
          old(env.Global().vars), env.heap.blocks, env.heap.words).retValue
    {
      if n.Compound? || n.Decls? || n.If? || n.While? || n.For? || n.Return? {
        VisitStatement(n, fuel);
      } else {
        VisitExpression(n, fuel);
      }
    }

    /** The dispatch on the kind of an expression. */
    method VisitExpression(n: Node, fuel: nat)
      requires !(n.Compound? || n.Decls? || n.If? || n.While? || n.For? || n.Return?)
      requires env.Valid()
      modifies this, env, env.heap, env.Global()`vars, env.Global()`exprs, env.Top()
      decreases fuel, n, 5
      ensures env.Valid() && env.stack == old(env.stack)
      ensures old(exhausted) ==> exhausted
      ensures !old(Live()) ==> unchanged(this, env, env.heap, env.Global(), env.Top())
      ensures !env.Top().returned ==> env.Top().retValue == old(env.Top().retValue)
      ensures old(env.Top().vars.Keys) <= env.Top().vars.Keys && old(env.Global().vars.Keys) <= env.Global().vars.Keys
      ensures old(env.output) <= env.output
      ensures IsLeaf(n) ==>
        env.Top().vars == old(env.Top().vars) && env.Global().vars == old(env.Global().vars) && unchanged(env.heap)
      ensures Straight(n) ==> exhausted == old(exhausted)
      ensures PureExpr(n) ==>
        unchanged(this, env.heap) && env.output == old(env.output) && env.Top().returned == old(env.Top().returned) &&
        env.Top().vars == old(env.Top().vars) && env.Global().vars == old(env.Global().vars)
      ensures PureExpr(n) ==> forall id | id !in Ids(n) :: env.Memo(id) == old(env.Memo(id))
      ensures old(Live()) && PureExpr(n) ==> env.Val(n) == old(env.Denote(n))
      ensures old(Live()) && PureExpr(n) && !n.Cast? ==> env.Memo(n.id) == old(env.Denote(n))
      ensures old(Live()) && n.Binary? && n.bop.IsAssignment() && n.lhs.Ref? && (n.rhs.IntLit? || n.rhs.CharLit?) ==>
        env.Lookup(n.lhs.decl) == n.rhs.value
      ensures old(Live()) && n.Binary? && n.bop.IsAssignment() && n.lhs.Ref? && PureChildren(n) ==>
        env.Lookup(n.lhs.decl) == old(env.Denote(n.rhs))
      ensures Simple(n) ==> unchanged(env.heap) && env.output == old(env.output)
      ensures !old(exhausted) && |env.stack| > 1 && Simple(n) ==>
        Now() == Exec(n, old(Now()), old(env.heap.blocks), old(env.heap.words))
      ensures old(Live()) && n.Call? && env.Dispatch(n.callee.fn) == Output && PureArgs(n) ==>
        env.output == old(env.output) + [if |n.args| > 0 then old(env.Denote(n.args[0])) else 0]
      ensures old(Live()) && n.Call? && env.Dispatch(n.callee.fn) == User && !n.callee.noReturn && PureArgs(n) &&
              fuel > 0 && n.callee.fn in env.bodies && SimpleBody(env.bodies[n.callee.fn]) ==>
        env.Memo(n.id) == BodyRun(env.bodies[n.callee.fn],
          Bindings(n.callee.params, ArgMeanings(n, old(env.Top().vars), old(env.Global().vars), old(env.heap.blocks), old(env.heap.words))),
          old(env.Global().vars), env.heap.blocks, env.heap.words).retValue
    {
      match n {
        case IntLit(_, _) =>
          VisitIntegerLiteral(n);
        case CharLit(_, _) =>
          VisitCharacterLiteral(n);
        case Ref(_, _, _) =>
          VisitDeclRef(n);
        case Paren(_, _, _) =>
          var _ := VisitParen(n, fuel);
        case Unary(_, _, _, _) =>
          var _ := VisitUnary(n, fuel);
        case Binary(_, _, _, _, _) =>
          var _, _ := VisitBinary(n, fuel);
        case Index(_, _, _, _) =>
          var _ := VisitArraySubscript(n, fuel);
        case SizeOf(_) =>
          VisitSizeOf(n);
        case Cast(_, _, _) =>
          VisitCast(n, fuel);
        case Call(_, _, _, _) =>
          var _, _, _ := VisitCall(n, fuel);
      }
    }

    /** The dispatch on the kind of a statement. A compound statement has no
        visitor of its own and gets VisitStmt: its children in order. */
    method VisitStatement(n: Node, fuel: nat)
      requires n.Compound? || n.Decls? || n.If? || n.While? || n.For? || n.Return?
      requires env.Valid()
      modifies this, env, env.heap, env.Global()`vars, env.Global()`exprs, env.Top()
      decreases fuel, n, 5
      ensures env.Valid() && env.stack == old(env.stack)
      ensures old(exhausted) ==> exhausted
      ensures !old(Live()) ==> unchanged(this, env, env.heap, env.Global(), env.Top())
      ensures !env.Top().returned ==> env.Top().retValue == old(env.Top().retValue)
      ensures old(env.Top().vars.Keys) <= env.Top().vars.Keys && old(env.Global().vars.Keys) <= env.Global().vars.Keys
      ensures old(env.output) <= env.output
      ensures Straight(n) ==> exhausted == old(exhausted)
      ensures old(Live()) && n.Decls? ==>
        forall i | 0 <= i < |n.vars| && Bindable(n.vars[i].ty) :: n.vars[i].decl in env.Top().vars
      ensures Simple(n) ==> unchanged(env.heap) && env.output == old(env.output)
      ensures !old(exhausted) && |env.stack| > 1 && Simple(n) ==>
        Now() == Exec(n, old(Now()), old(env.heap.blocks), old(env.heap.words))
      ensures old(Live()) && n.Return? ==> env.Top().returned
      ensures old(Live()) && n.Return? && n.result.Some? && PureExpr(n.result.value) ==>
        env.Top().retValue == old(env.Denote(n.result.value))
    {
      match n {
        case Compound(_, _) =>
          VisitChildren(n, fuel);
        case Decls(_, _) =>
          VisitDeclStmt(n, fuel);
        case If(_, _, _, _) =>
          var _, _ := VisitIf(n, fuel);
        case While(_, _, _) =>
          var _ := VisitWhile(n, fuel);
        case For(_, _, _, _, _) =>
          var _ := VisitFor(n, fuel);
        case Return(_, _) =>
          var _ := VisitReturn(n, fuel);
      }
    }

    /** VisitStmt: visits the children in order. It does not test the
        returned flag itself; each child's visit does. When the children are
        pure, each one's value afterwards is its meaning before. The loop is
        proved apart for pure children (VisitPureChildren) and for any
        children (VisitEach). */
    method VisitChildren(n: Node, fuel: nat)
      requires env.Valid()
      modifies this, env, env.heap, env.Global()`vars, env.Global()`exprs, env.Top()
      decreases fuel, n, 2
      ensures env.Valid() && env.stack == old(env.stack)
      ensures old(exhausted) ==> exhausted
      ensures !old(Live()) ==> unchanged(this, env, env.heap, env.Global(), env.Top())
      ensures !env.Top().returned ==> env.Top().retValue == old(env.Top().retValue)
      ensures old(env.Top().vars.Keys) <= env.Top().vars.Keys && old(env.Global().vars.Keys) <= env.Global().vars.Keys
      ensures old(env.output) <= env.output
      ensures (forall c | c in Children(n) :: IsLeaf(c)) ==>
        env.Top().vars == old(env.Top().vars) && env.Global().vars == old(env.Global().vars) && unchanged(env.heap)
      ensures StraightParts(n) ==> exhausted == old(exhausted)
      ensures PureChildren(n) ==>
        unchanged(this, env.heap) && env.output == old(env.output) && env.Top().returned == old(env.Top().returned) &&
        env.Top().vars == old(env.Top().vars) && env.Global().vars == old(env.Global().vars)
      ensures PureChildren(n) ==> forall id | id !in IdsOf(Children(n)) :: env.Memo(id) == old(env.Memo(id))
      ensures old(Live()) && PureChildren(n) ==>
        forall k | 0 <= k < |Children(n)| :: env.Val(Children(n)[k]) == old(env.Denote(Children(n)[k]))
      ensures SimpleBody(n) ==> unchanged(env.heap) && env.output == old(env.output)
      ensures !old(exhausted) && |env.stack| > 1 && SimpleBody(n) ==>
        Now() == ExecFrom(n, 0, old(Now()), old(env.heap.blocks), old(env.heap.words))
    {
      if PureChildren(n) {
        PureChildrenExec(n, 0, Now(), env.heap.blocks, env.heap.words);
        VisitPureChildren(n, fuel);
      } else {
        VisitEach(n, fuel);
      }
    }

    /** VisitStmt's loop over children of any kind. */
    method VisitEach(n: Node, fuel: nat)
      requires env.Valid()
      modifies this, env, env.heap, env.Global()`vars, env.Global()`exprs, env.Top()
      decreases fuel, n, 1
      ensures env.Valid() && env.stack == old(env.stack)
      ensures old(exhausted) ==> exhausted
      ensures !old(Live()) ==> unchanged(this, env, env.heap, env.Global(), env.Top())
      ensures !env.Top().returned ==> env.Top().retValue == old(env.Top().retValue)
      ensures old(env.Top().vars.Keys) <= env.Top().vars.Keys && old(env.Global().vars.Keys) <= env.Global().vars.Keys
      ensures old(env.output) <= env.output
      ensures (forall c | c in Children(n) :: IsLeaf(c)) ==>
        env.Top().vars == old(env.Top().vars) && env.Global().vars == old(env.Global().vars) && unchanged(env.heap)
      ensures StraightParts(n) ==> exhausted == old(exhausted)
      ensures SimpleBody(n) ==> unchanged(env.heap) && env.output == old(env.output)
      ensures !old(exhausted) && |env.stack| > 1 && SimpleBody(n) ==>
        Now() == ExecFrom(n, 0, old(Now()), old(env.heap.blocks), old(env.heap.words))
    {
      var cs := Children(n);
      if SimpleBody(n) {
        forall c | c in cs ensures Straight(c) { SimpleStraight(c); }
      }
      for i := 0 to |cs|
        invariant env.Valid() && env.stack == old(env.stack)
        invariant old(exhausted) ==> exhausted
        invariant !old(Live()) ==> unchanged(this, env, env.heap, env.Global(), env.Top())
        invariant !env.Top().returned ==> env.Top().retValue == old(env.Top().retValue)
        invariant old(env.Top().vars.Keys) <= env.Top().vars.Keys && old(env.Global().vars.Keys) <= env.Global().vars.Keys
        invariant old(env.output) <= env.output
        invariant (forall c | c in cs :: IsLeaf(c)) ==>
          env.Top().vars == old(env.Top().vars) && env.Global().vars == old(env.Global().vars) && unchanged(env.heap)
        invariant StraightParts(n) ==> exhausted == old(exhausted)
        invariant SimpleBody(n) ==> unchanged(env.heap) && env.output == old(env.output)
        invariant !old(exhausted) && |env.stack| > 1 && SimpleBody(n) ==>
          ExecFrom(n, i, Now(), old(env.heap.blocks), old(env.heap.words)) ==
          ExecFrom(n, 0, old(Now()), old(env.heap.blocks), old(env.heap.words))
      {
        assert cs[i] in cs;
        Clause(cs[i], fuel);
      }
    }

    /** VisitStmt's loop over pure children with disjoint ids: only memo
        entries of the children's own nodes change, and visiting a child
        leaves the values of the earlier ones as they were. */
    method VisitPureChildren(n: Node, fuel: nat)
      requires env.Valid() && PureChildren(n)
      modifies this, env, env.heap, env.Global()`vars, env.Global()`exprs, env.Top()
      decreases fuel, n, 1
      ensures env.Valid() && env.stack == old(env.stack)
      ensures !old(Live()) ==> unchanged(this, env, env.heap, env.Global(), env.Top())
      ensures env.Top().retValue == old(env.Top().retValue)
      ensures unchanged(this, env.heap) && env.output == old(env.output) && env.Top().returned == old(env.Top().returned)
      ensures env.Top().vars == old(env.Top().vars) && env.Global().vars == old(env.Global().vars)
      ensures forall id | id !in IdsOf(Children(n)) :: env.Memo(id) == old(env.Memo(id))
      ensures old(Live()) ==>
        forall k | 0 <= k < |Children(n)| :: env.Val(Children(n)[k]) == old(env.Denote(Children(n)[k]))
    {
      var cs := Children(n);
      for i := 0 to |cs|
        invariant env.Valid() && env.stack == old(env.stack)
        invariant !old(Live()) ==> unchanged(this, env, env.heap, env.Global(), env.Top())
        invariant env.Top().retValue == old(env.Top().retValue)
        invariant unchanged(this, env.heap) && env.output == old(env.output) && env.Top().returned == old(env.Top().returned)
        invariant env.Top().vars == old(env.Top().vars) && env.Global().vars == old(env.Global().vars)
        invariant forall id | id !in IdsOf(cs[..i]) :: env.Memo(id) == old(env.Memo(id))
        invariant old(Live()) ==> forall k | 0 <= k < i :: env.Val(cs[k]) == old(env.Denote(cs[k]))
      {
        assert cs[i] in cs;
        ghost var before := env.Top().exprs;
        Visit(cs[i], fuel);
        assert cs[..i + 1][..i] == cs[..i];
        if old(Live()) {
          SiblingsKept(cs, i, env.Top().vars, env.Global().vars, before, env.Top().exprs);
        }
      }
      assert cs[..|cs|] == cs;
    }

    /** A literal memoizes its value. */
    method VisitIntegerLiteral(n: Node)
      requires env.Valid()
      requires n.IntLit?
      modifies this, env, env.heap, env.Global()`vars, env.Global()`exprs, env.Top()
      ensures env.Valid() && env.stack == old(env.stack)
      ensures !old(Live()) ==> unchanged(this, env, env.heap, env.Global(), env.Top())
      ensures old(Live()) ==> env.Top().exprs == old(env.Top().exprs)[n.id := n.value]
      ensures unchanged(this) && env.output == old(env.output) && env.Top().returned == old(env.Top().returned)
      ensures env.Top().retValue == old(env.Top().retValue)
      ensures env.Top().vars == old(env.Top().vars) && env.Global().vars == old(env.Global().vars) && unchanged(env.heap)
      ensures !old(exhausted) && |env.stack| > 1 && Simple(n) ==>
        Now() == Exec(n, old(Now()), old(env.heap.blocks), old(env.heap.words))
    {
      if PureExpr(n) {
        PureExec(n, Now(), env.heap.blocks, env.heap.words);
      }
      if !Live() {
        return;
      }
      env.IntegerLiteral(n);
    }

    method VisitCharacterLiteral(n: Node)
      requires env.Valid()
      requires n.CharLit?
      modifies this, env, env.heap, env.Global()`vars, env.Global()`exprs, env.Top()
      ensures env.Valid() && env.stack == old(env.stack)
      ensures !old(Live()) ==> unchanged(this, env, env.heap, env.Global(), env.Top())
      ensures old(Live()) ==> env.Top().exprs == old(env.Top().exprs)[n.id := n.value]
      ensures unchanged(this) && env.output == old(env.output) && env.Top().returned == old(env.Top().returned)
      ensures env.Top().retValue == old(env.Top().retValue)
      ensures env.Top().vars == old(env.Top().vars) && env.Global().vars == old(env.Global().vars) && unchanged(env.heap)
      ensures !old(exhausted) && |env.stack| > 1 && Simple(n) ==>
        Now() == Exec(n, old(Now()), old(env.heap.blocks), old(env.heap.words))
    {
      if PureExpr(n) {
        PureExec(n, Now(), env.heap.blocks, env.heap.words);
      }
      if !Live() {
        return;
      }
      env.CharacterLiteral(n);
    }

    /** sizeof memoizes the size of a long; its operand is not modelled. */
    method VisitSizeOf(n: Node)
      requires env.Valid()
      requires n.SizeOf?
      modifies this, env, env.heap, env.Global()`vars, env.Global()`exprs, env.Top()
      ensures env.Valid() && env.stack == old(env.stack)
      ensures !old(Live()) ==> unchanged(this, env, env.heap, env.Global(), env.Top())
      ensures old(Live()) ==> env.Top().exprs == old(env.Top().exprs)[n.id := WORD]
      ensures unchanged(this) && env.output == old(env.output) && env.Top().returned == old(env.Top().returned)
      ensures env.Top().retValue == old(env.Top().retValue)
      ensures env.Top().vars == old(env.Top().vars) && env.Global().vars == old(env.Global().vars) && unchanged(env.heap)
      ensures !old(exhausted) && |env.stack| > 1 && Simple(n) ==>
        Now() == Exec(n, old(Now()), old(env.heap.blocks), old(env.heap.words))
    {
      if PureExpr(n) {
        PureExec(n, Now(), env.heap.blocks, env.heap.words);
      }
      if !Live() {
        return;
      }
      env.SizeOfExpr(n);
    }

    /** A reference memoizes the value the two-tier lookup finds. */
    method VisitDeclRef(n: Node)
      requires env.Valid()
      requires n.Ref?
      modifies this, env, env.heap, env.Global()`vars, env.Global()`exprs, env.Top()
      ensures env.Valid() && env.stack == old(env.stack)
      ensures !old(Live()) ==> unchanged(this, env, env.heap, env.Global(), env.Top())
      ensures old(Live()) && (n.ty.IsInteger() || n.ty.IsPointer()) ==>
        env.Top().exprs == old(env.Top().exprs)[n.id := old(env.Lookup(n.decl))]
      ensures !n.ty.IsInteger() && !n.ty.IsPointer() ==> env.Top().exprs == old(env.Top().exprs)
      ensures unchanged(this) && env.output == old(env.output) && env.Top().returned == old(env.Top().returned)
      ensures env.Top().retValue == old(env.Top().retValue)
      ensures env.Top().vars == old(env.Top().vars) && env.Global().vars == old(env.Global().vars) && unchanged(env.heap)
      ensures !old(exhausted) && |env.stack| > 1 && Simple(n) ==>
        Now() == Exec(n, old(Now()), old(env.heap.blocks), old(env.heap.words))
    {
      if PureExpr(n) {
        PureExec(n, Now(), env.heap.blocks, env.heap.words);
      }
      if !Live() {
        return;
      }
      env.DeclRef(n);
    }

    /** Post-order: the operand is visited, then the parenthesis memoizes
        its value. */
    method VisitParen(n: Node, fuel: nat) returns (ghost inner: int)
      requires env.Valid()
      requires n.Paren?
      modifies this, env, env.heap, env.Global()`vars, env.Global()`exprs, env.Top()
      decreases fuel, n, 3
      ensures env.Valid() && env.stack == old(env.stack)
      ensures old(exhausted) ==> exhausted
      ensures !old(Live()) ==> unchanged(this, env, env.heap, env.Global(), env.Top())
      ensures !env.Top().returned ==> env.Top().retValue == old(env.Top().retValue)
      ensures old(env.Top().vars.Keys) <= env.Top().vars.Keys && old(env.Global().vars.Keys) <= env.Global().vars.Keys
      ensures old(env.output) <= env.output
      ensures Straight(n) ==> exhausted == old(exhausted)
      ensures PureExpr(n) ==>
        unchanged(this, env.heap) && env.output == old(env.output) && env.Top().returned == old(env.Top().returned) &&
        env.Top().vars == old(env.Top().vars) && env.Global().vars == old(env.Global().vars)
      ensures PureExpr(n) ==> forall id | id !in Ids(n) :: env.Memo(id) == old(env.Memo(id))
      ensures old(Live()) ==> n.id in env.Top().exprs && env.Top().exprs[n.id] == inner
      ensures old(Live()) && PureExpr(n) ==> inner == old(env.Denote(n.sub))
      ensures Simple(n) ==> unchanged(env.heap) && env.output == old(env.output)
      ensures !old(exhausted) && |env.stack| > 1 && Simple(n) ==>
        Now() == Exec(n, old(Now()), old(env.heap.blocks), old(env.heap.words))
    {
      if PureExpr(n) {
        PureExec(n, Now(), env.heap.blocks, env.heap.words);
      }
      inner := 0;
      if !Live() {
        return;
      }
      VisitChildren(n, fuel);
      if PureExpr(n) {
        PureParts(n);
        PureFacts(n.sub);
      }
      inner := env.ParenExpr(n);
    }

    /** The operand is visited, then the operator applied. */
    method VisitUnary(n: Node, fuel: nat) returns (ghost operand: int)
      requires env.Valid()
      requires n.Unary?
      modifies this, env, env.heap, env.Global()`vars, env.Global()`exprs, env.Top()
      decreases fuel, n, 3
      ensures env.Valid() && env.stack == old(env.stack)
      ensures old(exhausted) ==> exhausted
      ensures !old(Live()) ==> unchanged(this, env, env.heap, env.Global(), env.Top())
      ensures !env.Top().returned ==> env.Top().retValue == old(env.Top().retValue)
      ensures old(env.Top().vars.Keys) <= env.Top().vars.Keys && old(env.Global().vars.Keys) <= env.Global().vars.Keys
      ensures old(env.output) <= env.output
      ensures Straight(n) ==> exhausted == old(exhausted)
      ensures PureExpr(n) ==>
        unchanged(this, env.heap) && env.output == old(env.output) && env.Top().returned == old(env.Top().returned) &&
        env.Top().vars == old(env.Top().vars) && env.Global().vars == old(env.Global().vars)
      ensures PureExpr(n) ==> forall id | id !in Ids(n) :: env.Memo(id) == old(env.Memo(id))
      ensures old(Live()) && n.uop != OtherUnOp ==> n.id in env.Top().exprs
      ensures old(Live()) && n.uop == Minus ==> env.Top().exprs[n.id] == -operand
      ensures old(Live()) && n.uop == Plus ==> env.Top().exprs[n.id] == operand
      ensures old(Live()) && n.uop == Deref ==>
        env.Top().exprs[n.id] == (if InBlocks(env.heap.blocks, operand) then env.heap.Word(operand) else -1)
      ensures old(Live()) && PureExpr(n) ==> operand == old(env.Denote(n.sub)) && env.Memo(n.id) == old(env.Denote(n))
      ensures Simple(n) ==> unchanged(env.heap) && env.output == old(env.output)
      ensures !old(exhausted) && |env.stack| > 1 && Simple(n) ==>
        Now() == Exec(n, old(Now()), old(env.heap.blocks), old(env.heap.words))
    {
      if PureExpr(n) {
        PureExec(n, Now(), env.heap.blocks, env.heap.words);
      }
      operand := 0;
      if !Live() {
        return;
      }
      VisitChildren(n, fuel);
      if PureExpr(n) {
        PureParts(n);
        PureFacts(n.sub);
      }
      operand := env.UnaryOp(n);
    }

    /** Both operands are visited, left then right (the left side of an
        assignment included), then binop runs. */
    method VisitBinary(n: Node, fuel: nat) returns (ghost vl: int, ghost vr: int)
      requires env.Valid()
      requires n.Binary?
      modifies this, env, env.heap, env.Global()`vars, env.Global()`exprs, env.Top()
      decreases fuel, n, 3
      ensures env.Valid() && env.stack == old(env.stack)
      ensures old(exhausted) ==> exhausted
      ensures !old(Live()) ==> unchanged(this, env, env.heap, env.Global(), env.Top())
      ensures !env.Top().returned ==> env.Top().retValue == old(env.Top().retValue)
      ensures old(env.Top().vars.Keys) <= env.Top().vars.Keys && old(env.Global().vars.Keys) <= env.Global().vars.Keys
      ensures old(env.output) <= env.output
      ensures Straight(n) ==> exhausted == old(exhausted)
      ensures PureExpr(n) ==>
        unchanged(this, env.heap) && env.output == old(env.output) && env.Top().returned == old(env.Top().returned) &&
        env.Top().vars == old(env.Top().vars) && env.Global().vars == old(env.Global().vars)
      ensures PureExpr(n) ==> forall id | id !in Ids(n) :: env.Memo(id) == old(env.Memo(id))
      ensures old(Live()) && PureExpr(n) ==>
        vl == old(env.Denote(n.lhs)) && vr == old(env.Denote(n.rhs)) &&
        env.Val(n) == old(env.Denote(n)) && env.Memo(n.id) == old(env.Denote(n))
      ensures old(Live()) && n.bop.IsAssignment() && (n.rhs.IntLit? || n.rhs.CharLit?) ==> vr == n.rhs.value
      ensures old(Live()) && n.bop.IsAssignment() && PureChildren(n) ==> vr == old(env.Denote(n.rhs))
      ensures old(Live()) && n.bop.IsAssignment() && n.lhs.Ref? ==> env.Lookup(n.lhs.decl) == vr
      ensures old(Live()) && n.bop.IsAdditive() ==>
        n.id in env.Top().exprs && env.Top().exprs[n.id] == Additive(n.bop, OperandTy(n.lhs).IsPointer(), OperandTy(n.rhs).IsPointer(), vl, vr)
      ensures old(Live()) && n.bop.IsComparison() ==>
        n.id in env.Top().exprs && env.Top().exprs[n.id] == Compare(n.bop, vl, vr)
      ensures old(Live()) && n.bop.IsMultiplicative() && (n.bop == Mul || vr != 0) ==>
        n.id in env.Top().exprs && env.Top().exprs[n.id] == Multiplicative(n.bop, vl, vr)
      ensures Simple(n) ==> unchanged(env.heap) && env.output == old(env.output)
      ensures !old(exhausted) && |env.stack| > 1 && Simple(n) ==>
        Now() == Exec(n, old(Now()), old(env.heap.blocks), old(env.heap.words))
    {
      vl, vr := 0, 0;
      if !Live() {
        return;
      }
      VisitChildren(n, fuel);
      if PureExpr(n) {
        PureParts(n);
        PureFacts(n);
      }
      if PureChildren(n) {
        assert n.rhs == Children(n)[1];
        PureFacts(n.rhs);
      }
      vl, vr := env.BinaryOp(n);
    }

    /** The array, then the index, is visited; then the element is read. A
        reference base goes straight to its own visitor, as Visit would
        send it. */
    method VisitArraySubscript(n: Node, fuel: nat) returns (ghost index: int)
      requires env.Valid()
      requires n.Index?
      modifies this, env, env.heap, env.Global()`vars, env.Global()`exprs, env.Top()
      decreases fuel, n, 3
      ensures env.Valid() && env.stack == old(env.stack)
      ensures old(exhausted) ==> exhausted
      ensures !old(Live()) ==> unchanged(this, env, env.heap, env.Global(), env.Top())
      ensures !env.Top().returned ==> env.Top().retValue == old(env.Top().retValue)
      ensures old(env.Top().vars.Keys) <= env.Top().vars.Keys && old(env.Global().vars.Keys) <= env.Global().vars.Keys
      ensures old(env.output) <= env.output
      ensures Straight(n) ==> exhausted == old(exhausted)
      ensures PureExpr(n) ==>
        unchanged(this, env.heap) && env.output == old(env.output) && env.Top().returned == old(env.Top().returned) &&
        env.Top().vars == old(env.Top().vars) && env.Global().vars == old(env.Global().vars)
      ensures PureExpr(n) ==> forall id | id !in Ids(n) :: env.Memo(id) == old(env.Memo(id))
      ensures old(Live()) && n.base.Ref? ==>
        n.id in env.Top().exprs && env.Top().exprs[n.id] == env.heap.Word(env.Lookup(n.base.decl) + WORD * index)
      ensures old(Live()) && PureExpr(n) ==> index == old(env.Denote(n.index)) && env.Memo(n.id) == old(env.Denote(n))
      ensures Simple(n) ==> unchanged(env.heap) && env.output == old(env.output)
      ensures !old(exhausted) && |env.stack| > 1 && Simple(n) ==>
        Now() == Exec(n, old(Now()), old(env.heap.blocks), old(env.heap.words))
    {
      if PureExpr(n) {
        PureExec(n, Now(), env.heap.blocks, env.heap.words);
      }
      index := 0;
      if !Live() {
        return;
      }
      assert n.base in Children(n) && n.index in Children(n);
      if n.base.Ref? {
        VisitDeclRef(n.base);
      } else {
        Visit(n.base, fuel);
      }
      Visit(n.index, fuel);
      if PureExpr(n) {
        PureFacts(n.index);
      }
      index := env.ArrayRef(n);
    }

    /** The operand, the cast's one child, is visited; then a cast to an
        integer type memoizes the operand's memo. */
    method VisitCast(n: Node, fuel: nat)
      requires env.Valid()
      requires n.Cast?
      modifies this, env, env.heap, env.Global()`vars, env.Global()`exprs, env.Top()
      decreases fuel, n, 3
      ensures env.Valid() && env.stack == old(env.stack)
      ensures old(exhausted) ==> exhausted
      ensures !old(Live()) ==> unchanged(this, env, env.heap, env.Global(), env.Top())
      ensures !env.Top().returned ==> env.Top().retValue == old(env.Top().retValue)
      ensures old(env.Top().vars.Keys) <= env.Top().vars.Keys && old(env.Global().vars.Keys) <= env.Global().vars.Keys
      ensures old(env.output) <= env.output
      ensures Straight(n) ==> exhausted == old(exhausted)
      ensures PureExpr(n) ==>
        unchanged(this, env.heap) && env.output == old(env.output) && env.Top().returned == old(env.Top().returned) &&
        env.Top().vars == old(env.Top().vars) && env.Global().vars == old(env.Global().vars)
      ensures PureExpr(n) ==> forall id | id !in Ids(n) :: env.Memo(id) == old(env.Memo(id))
      ensures old(Live()) && PureExpr(n) ==> env.Val(n) == old(env.Denote(n))
      ensures old(Live()) && TypeOf(n).IsInteger() ==> n.id in env.Top().exprs
      ensures old(Live()) && TypeOf(n).IsInteger() && PointerLvalue(n.sub) ==>
        env.Memo(n.id) == 0 && env.Logged(UnevaluatedNode(n.sub.id))
      ensures old(Live()) && TypeOf(n).IsInteger() && !PointerLvalue(n.sub) && PureExpr(n) && !n.sub.Cast? ==>
        env.Memo(n.id) == old(env.Denote(n))
      ensures Simple(n) ==> unchanged(env.heap) && env.output == old(env.output)
      ensures !old(exhausted) && |env.stack| > 1 && Simple(n) ==>
        Now() == Exec(n, old(Now()), old(env.heap.blocks), old(env.heap.words))
    {
      if PureExpr(n) {
        PureExec(n, Now(), env.heap.blocks, env.heap.words);
      }
      if !Live() {
        return;
      }
      assert n.sub in Children(n);
      Visit(n.sub, fuel);
      ghost var before := env.Top().exprs;
      env.CastExpr(n);
      if PureExpr(n) {
        PureFacts(n.sub);
        ValueOutsideWrites(n.sub, env.Top().vars, env.Global().vars, before, env.Top().exprs, {n.id});
      }
    }

    /** Every initializer is visited first, then every variable declared. */
    method VisitDeclStmt(n: Node, fuel: nat)
      requires env.Valid()
      requires n.Decls?
      modifies this, env, env.heap, env.Global()`vars, env.Global()`exprs, env.Top()
      decreases fuel, n, 3
      ensures env.Valid() && env.stack == old(env.stack)
      ensures old(exhausted) ==> exhausted
      ensures !old(Live()) ==> unchanged(this, env, env.heap, env.Global(), env.Top())
      ensures !env.Top().returned ==> env.Top().retValue == old(env.Top().retValue)
      ensures old(env.Top().vars.Keys) <= env.Top().vars.Keys && old(env.Global().vars.Keys) <= env.Global().vars.Keys
      ensures old(env.output) <= env.output
      ensures Straight(n) ==> exhausted == old(exhausted)
      ensures old(Live()) ==>
        forall i | 0 <= i < |n.vars| && Bindable(n.vars[i].ty) :: n.vars[i].decl in env.Top().vars
      ensures old(Live()) && AllQuiet(n.vars) ==>
        forall i | 0 <= i < |n.vars| && ConstInit(n.vars[i]) && LastBinding(n.vars, i, |n.vars|) ::
          n.vars[i].decl in env.Top().vars && env.Top().vars[n.vars[i].decl] == ConstValue(n.vars[i])
      ensures old(Live()) && AllQuiet(n.vars) && PureChildren(n) ==>
        forall d | d in old(env.Top().vars) && !Declares(n.vars, d) :: env.Top().vars[d] == old(env.Top().vars[d])
      ensures old(Live()) && AllQuiet(n.vars) && PureChildren(n) && |env.stack| > 1 ==>
        env.Global().vars == old(env.Global().vars)
      ensures old(Live()) && AllQuiet(n.vars) && PureChildren(n) ==>
        forall i | 0 <= i < |n.vars| && EvaluatesInit(n.vars[i]) && LooksUpNone(n.vars, n.vars[i].init.value) &&
                   LastBinding(n.vars, i, |n.vars|) ::
          n.vars[i].decl in env.Top().vars && env.Top().vars[n.vars[i].decl] == old(env.Denote(n.vars[i].init.value))
    {
      if !Live() {
        return;
      }
      ghost var l0, g0, b0, w0 := env.Top().vars, env.Global().vars, env.heap.blocks, env.heap.words;
      VisitChildren(n, fuel);
      ghost var locals, globals, memo := env.Top().vars, env.Global().vars, env.Top().exprs;
      env.Decl(n);
      if AllQuiet(n.vars) && PureChildren(n) {
        DeclaredMeanings(n, l0, g0, b0, w0, locals, globals, memo, env.Top().vars);
      }
    }

    /** The returned expression is visited, then its value recorded and the
        frame marked returned; from then on the function's remaining
        statements are skipped. */
    method VisitReturn(n: Node, fuel: nat) returns (ghost val: int)
      requires env.Valid()
      requires n.Return?
      modifies this, env, env.heap, env.Global()`vars, env.Global()`exprs, env.Top()
      decreases fuel, n, 3
      ensures env.Valid() && env.stack == old(env.stack)
      ensures old(exhausted) ==> exhausted
      ensures !old(Live()) ==> unchanged(this, env, env.heap, env.Global(), env.Top())
      ensures !env.Top().returned ==> env.Top().retValue == old(env.Top().retValue)
      ensures old(env.Top().vars.Keys) <= env.Top().vars.Keys && old(env.Global().vars.Keys) <= env.Global().vars.Keys
      ensures old(env.output) <= env.output
      ensures Straight(n) ==> exhausted == old(exhausted)
      ensures old(Live()) ==> env.Top().returned
      ensures old(Live()) && n.result.Some? ==> env.Top().retValue == val
      ensures old(Live()) && n.result.Some? && PureExpr(n.result.value) ==> val == old(env.Denote(n.result.value))
      ensures Simple(n) ==> unchanged(env.heap) && env.output == old(env.output)
      ensures !old(exhausted) && |env.stack| > 1 && Simple(n) ==>
        Now() == Exec(n, old(Now()), old(env.heap.blocks), old(env.heap.words))
    {
      val := 0;
      if !Live() {
        return;
      }
      if n.result.Some? {
        assert n.result.value in Children(n);
        Visit(n.result.value, fuel);
        if PureExpr(n.result.value) {
          PureFacts(n.result.value);
        }
      }
      val := env.RetStmt(n);
    }

    /** The condition is visited and evaluated; the then-branch is visited
        when it equals 1 exactly, otherwise the else-branch if there is one.
        `taken` names the branch visited. */
    method VisitIf(n: Node, fuel: nat) returns (ghost cond: int, ghost taken: Option<Node>)
      requires env.Valid()
      requires n.If?
      modifies this, env, env.heap, env.Global()`vars, env.Global()`exprs, env.Top()
      decreases fuel, n, 3
      ensures env.Valid() && env.stack == old(env.stack)
      ensures old(exhausted) ==> exhausted
      ensures !old(Live()) ==> unchanged(this, env, env.heap, env.Global(), env.Top())
      ensures !env.Top().returned ==> env.Top().retValue == old(env.Top().retValue)
      ensures old(env.Top().vars.Keys) <= env.Top().vars.Keys && old(env.Global().vars.Keys) <= env.Global().vars.Keys
      ensures old(env.output) <= env.output
      ensures Straight(n) ==> exhausted == old(exhausted)
      ensures !old(Live()) ==> taken == None
      ensures old(Live()) ==> taken == (if cond == 1 then Some(n.thn) else n.els)
      ensures old(Live()) && n.cond.Binary? && n.cond.bop.IsComparison() ==> cond == 0 || cond == 1
      ensures old(Live()) && PureExpr(n.cond) ==> cond == old(env.Denote(n.cond))
      ensures old(Live()) && PureExpr(n.cond) && taken == None ==>
        env.Top().vars == old(env.Top().vars) && env.Global().vars == old(env.Global().vars) &&
        unchanged(env.heap) && env.output == old(env.output)
      ensures old(Live()) && PureExpr(n.cond) && taken.Some? && taken.value.Return? ==> env.Top().returned
      ensures Simple(n) ==> unchanged(env.heap) && env.output == old(env.output)
      ensures !old(exhausted) && |env.stack| > 1 && Simple(n) ==>
        Now() == Exec(n, old(Now()), old(env.heap.blocks), old(env.heap.words))
    {
      cond, taken := 0, None;
      if !Live() {
        return;
      }
      assert n.cond in Children(n) && n.thn in Children(n);
      assert n.els.Some? ==> n.els.value in Children(n);
      var res := Test(n.cond, fuel);
      cond := res;
      if res == 1 {
        taken := Some(n.thn);
        Clause(n.thn, fuel);
      } else if n.els.Some? {
        taken := n.els;
        Clause(n.els.value, fuel);
      }
    }

    /** The condition is visited and evaluated; while it equals 1 the body
        is visited and the condition visited and evaluated again, stopping
        early once the function has returned. `conds` lists the values the
        condition took: the body ran once after each 1, and the last value
        is not 1 unless the function returned or fuel ran out. Fuel runs out
        only after `fuel` rounds, unless a loop or call inside runs out. */
    method VisitWhile(n: Node, fuel: nat) returns (ghost conds: seq<int>)
      requires env.Valid()
      requires n.While?
      modifies this, env, env.heap, env.Global()`vars, env.Global()`exprs, env.Top()
      decreases fuel, n, 4
      ensures env.Valid() && env.stack == old(env.stack)
      ensures old(exhausted) ==> exhausted
      ensures !old(Live()) ==> unchanged(this, env, env.heap, env.Global(), env.Top())
      ensures !env.Top().returned ==> env.Top().retValue == old(env.Top().retValue)
      ensures old(env.Top().vars.Keys) <= env.Top().vars.Keys && old(env.Global().vars.Keys) <= env.Global().vars.Keys
      ensures old(env.output) <= env.output
      ensures !old(Live()) ==> conds == []
      ensures |conds| <= fuel + 1
      ensures forall i | 0 <= i < |conds| - 1 :: conds[i] == 1
      ensures old(Live()) && !exhausted && !env.Top().returned ==> |conds| > 0 && conds[|conds| - 1] != 1
      ensures old(Live()) && PureExpr(n.cond) ==> |conds| > 0 && conds[0] == old(env.Denote(n.cond))
      ensures old(Live()) && PureExpr(n.cond) && !exhausted && !env.Top().returned ==>
        conds[|conds| - 1] == env.Denote(n.cond)
      ensures old(Live()) && exhausted && StraightParts(n) ==> |conds| == fuel + 1
      ensures SimpleLoop(n) ==> unchanged(env.heap) && env.output == old(env.output)
      ensures !old(exhausted) && |env.stack| > 1 && SimpleLoop(n) ==>
        Now() == Iterate(n, old(Now()), old(env.heap.blocks), old(env.heap.words), fuel) &&
        (exhausted <==> !Stops(n, Now(), old(env.heap.blocks), old(env.heap.words)))
    {
      conds := [];
      if !Live() {
        return;
      }
      conds := RunLoop(n, fuel);
    }

    /** A loop with a condition: the condition is tested a first time, then
        the loop runs. */
    method RunLoop(n: Node, fuel: nat) returns (ghost conds: seq<int>)
      requires env.Valid()
      requires (n.While? || n.For?) && LoopTest(n).Some? && Live()
      modifies this, env, env.heap, env.Global()`vars, env.Global()`exprs, env.Top()
      decreases fuel, n, 3
      ensures env.Valid() && env.stack == old(env.stack)
      ensures !env.Top().returned ==> env.Top().retValue == old(env.Top().retValue)
      ensures old(env.Top().vars.Keys) <= env.Top().vars.Keys && old(env.Global().vars.Keys) <= env.Global().vars.Keys
      ensures old(env.output) <= env.output
      ensures |conds| <= fuel + 1
      ensures forall i | 0 <= i < |conds| - 1 :: conds[i] == 1
      ensures !exhausted && !env.Top().returned ==> |conds| > 0 && conds[|conds| - 1] != 1
      ensures PureExpr(LoopTest(n).value) ==> |conds| > 0 && conds[0] == old(env.Denote(LoopTest(n).value))
      ensures PureExpr(LoopTest(n).value) && !exhausted && !env.Top().returned ==>
        conds[|conds| - 1] == env.Denote(LoopTest(n).value)
      ensures exhausted && StraightParts(n) ==> |conds| == fuel + 1
      ensures SimpleLoop(n) ==> unchanged(env.heap) && env.output == old(env.output)
      ensures |env.stack| > 1 && SimpleLoop(n) ==>
        Now() == Iterate(n, old(Now()), old(env.heap.blocks), old(env.heap.words), fuel) &&
        (exhausted <==> !Stops(n, Now(), old(env.heap.blocks), old(env.heap.words)))
    {
      var test := LoopTest(n).value;
      assert test in Children(n);
      if SimpleLoop(n) { SimpleLoopStraight(n); }
      var res := Test(test, fuel);
      conds := Loop(n, fuel, res);
    }

    /** The init clause of a for loop, visited as a statement of its own:
        `i = 0` assigns and `int i = 0` declares. */
    method ForInit(init: Node, fuel: nat)
      requires env.Valid()
      modifies this, env, env.heap, env.Global()`vars, env.Global()`exprs, env.Top()
      decreases fuel, init, 7
      ensures env.Valid() && env.stack == old(env.stack)
      ensures old(exhausted) ==> exhausted
      ensures !old(Live()) ==> unchanged(this, env, env.heap, env.Global(), env.Top())
      ensures !env.Top().returned ==> env.Top().retValue == old(env.Top().retValue)
      ensures old(env.Top().vars.Keys) <= env.Top().vars.Keys && old(env.Global().vars.Keys) <= env.Global().vars.Keys
      ensures old(env.output) <= env.output
      ensures Straight(init) ==> exhausted == old(exhausted)
      ensures old(Live()) && init.Binary? && init.bop.IsAssignment() &&
              init.lhs.Ref? && (init.rhs.IntLit? || init.rhs.CharLit?) ==>
        env.Lookup(init.lhs.decl) == init.rhs.value
      ensures old(Live()) && init.Binary? && init.bop.IsAssignment() && init.lhs.Ref? && PureChildren(init) ==>
        env.Lookup(init.lhs.decl) == old(env.Denote(init.rhs))
      ensures old(Live()) && init.Decls? ==>
        forall i | 0 <= i < |init.vars| && Bindable(init.vars[i].ty) :: init.vars[i].decl in env.Top().vars
      ensures Simple(init) ==> unchanged(env.heap) && env.output == old(env.output)
      ensures !old(exhausted) && |env.stack| > 1 && Simple(init) ==>
        Now() == Exec(init, old(Now()), old(env.heap.blocks), old(env.heap.words))
    {
      Visit(init, fuel);
    }

    /** The init clause as the source visits it, with VisitStmt: only its
        children are visited, so an assignment `i = 0` never assigns and a
        declaration `int i = 0` never declares. */
    method ForInitAsWritten(init: Node, fuel: nat)
      requires env.Valid()
      modifies this, env, env.heap, env.Global()`vars, env.Global()`exprs, env.Top()
      decreases fuel, init, 3
      ensures env.Valid() && env.stack == old(env.stack)
      ensures old(exhausted) ==> exhausted
      ensures !old(Live()) ==> unchanged(this, env, env.heap, env.Global(), env.Top())
      ensures !env.Top().returned ==> env.Top().retValue == old(env.Top().retValue)
      ensures old(env.Top().vars.Keys) <= env.Top().vars.Keys && old(env.Global().vars.Keys) <= env.Global().vars.Keys
      ensures old(env.output) <= env.output
      ensures (forall c | c in Children(init) :: IsLeaf(c)) ==>
        env.Top().vars == old(env.Top().vars) && env.Global().vars == old(env.Global().vars)
      ensures init.Binary? && init.lhs.Ref? && (init.rhs.IntLit? || init.rhs.CharLit?) ==>
        env.Lookup(init.lhs.decl) == old(env.Lookup(init.lhs.decl))
      ensures init.Decls? && (forall c | c in Children(init) :: IsLeaf(c)) ==>
        forall i | 0 <= i < |init.vars| :: (init.vars[i].decl in env.Top().vars <==> init.vars[i].decl in old(env.Top().vars))
    {
      VisitChildren(init, fuel);
    }

    /** The init clause is visited once (as corrected, see ForInit), then the
        loop runs like a while loop whose body is followed by the increment.
        Without a condition the loop only ends when the function returns. */
    method VisitFor(n: Node, fuel: nat) returns (ghost conds: seq<int>)
      requires env.Valid()
      requires n.For?
      modifies this, env, env.heap, env.Global()`vars, env.Global()`exprs, env.Top()
      decreases fuel, n, 4
      ensures env.Valid() && env.stack == old(env.stack)
      ensures old(exhausted) ==> exhausted
      ensures !old(Live()) ==> unchanged(this, env, env.heap, env.Global(), env.Top())
      ensures !env.Top().returned ==> env.Top().retValue == old(env.Top().retValue)
      ensures old(env.Top().vars.Keys) <= env.Top().vars.Keys && old(env.Global().vars.Keys) <= env.Global().vars.Keys
      ensures old(env.output) <= env.output
      ensures !old(Live()) ==> conds == []
      ensures n.test.None? ==> conds == []
      ensures |conds| <= fuel + 1
      ensures forall i | 0 <= i < |conds| - 1 :: conds[i] == 1
      ensures old(Live()) && n.test.Some? && !exhausted && !env.Top().returned ==>
        |conds| > 0 && conds[|conds| - 1] != 1
      ensures old(Live()) && n.test.None? && !exhausted ==> env.Top().returned
      ensures old(Live()) && n.init.None? && n.test.Some? && PureExpr(n.test.value) ==>
        |conds| > 0 && conds[0] == old(env.Denote(n.test.value))
      ensures old(Live()) && n.test.Some? && PureExpr(n.test.value) && !exhausted && !env.Top().returned ==>
        conds[|conds| - 1] == env.Denote(n.test.value)
      ensures old(Live()) && exhausted && StraightParts(n) ==>
        if n.test.Some? then |conds| == fuel + 1 else !env.Top().returned
      ensures SimpleLoop(n) ==> unchanged(env.heap) && env.output == old(env.output)
      ensures !old(exhausted) && |env.stack| > 1 && SimpleLoop(n) ==>
        Now() == Iterate(n, if n.init.Some? then Exec(n.init.value, old(Now()), old(env.heap.blocks), old(env.heap.words)) else old(Now()),
          old(env.heap.blocks), old(env.heap.words), fuel) &&
        (exhausted <==> !Stops(n, Now(), old(env.heap.blocks), old(env.heap.words)))
    {
      conds := [];
      if !Live() {
        return;
      }
      if SimpleLoop(n) { SimpleLoopStraight(n); }
      if n.init.Some? {
        assert n.init.value in Children(n);
        ForInit(n.init.value, fuel);
      }
      if !Live() {
        return;
      }
      if n.test.Some? {
        conds := RunLoop(n, fuel);
      } else {
        var _ := ForEver(n, fuel);
      }
    }

    /** The loop of a while statement, or of a for statement with a
        condition, once its condition has been tested a first time with value
        `first`: while the last value equals 1 a round runs and the condition
        is tested again, stopping early once the function has returned. */
    method Loop(n: Node, fuel: nat, first: int) returns (ghost conds: seq<int>)
      requires env.Valid()
      requires (n.While? || n.For?) && LoopTest(n).Some?
      requires StraightParts(n) ==> !exhausted
      requires SimpleLoop(n) ==> !env.Top().returned
      requires PureExpr(LoopTest(n).value) && !env.Top().returned ==> first == env.Denote(LoopTest(n).value)
      modifies this, env, env.heap, env.Global()`vars, env.Global()`exprs, env.Top()
      decreases fuel, n, 2
      ensures env.Valid() && env.stack == old(env.stack)
      ensures old(env.Top().returned) ==> env.Top().returned && env.Top().retValue == old(env.Top().retValue)
      ensures !env.Top().returned ==> env.Top().retValue == old(env.Top().retValue)
      ensures old(env.Top().vars.Keys) <= env.Top().vars.Keys && old(env.Global().vars.Keys) <= env.Global().vars.Keys
      ensures old(env.output) <= env.output
      ensures |conds| <= fuel + 1
      ensures forall i | 0 <= i < |conds| - 1 :: conds[i] == 1
      ensures !exhausted && !env.Top().returned ==> |conds| > 0 && conds[|conds| - 1] != 1
      ensures |conds| > 0 && conds[0] == first
      ensures PureExpr(LoopTest(n).value) && !exhausted && !env.Top().returned ==>
        conds[|conds| - 1] == env.Denote(LoopTest(n).value)
      ensures exhausted && StraightParts(n) ==> |conds| == fuel + 1
      ensures SimpleLoop(n) ==> unchanged(env.heap) && env.output == old(env.output)
      ensures |env.stack| > 1 && SimpleLoop(n) ==>
        Now() == Iterate(n, old(Now()), old(env.heap.blocks), old(env.heap.words), fuel) &&
        (exhausted <==> !Stops(n, Now(), old(env.heap.blocks), old(env.heap.words)))
    {
      var test := LoopTest(n).value;
      if SimpleLoop(n) { SimpleLoopStraight(n); }
      ghost var B, W, f := env.heap.blocks, env.heap.words, Now();
      ghost var S := |env.stack| > 1 && SimpleLoop(n);
      var res := first;
      conds := [res];
      var k := 0;
      while res == 1
        invariant env.Valid() && env.stack == old(env.stack)
        invariant old(env.Top().returned) ==> env.Top().returned && env.Top().retValue == old(env.Top().retValue)
        invariant !env.Top().returned ==> env.Top().retValue == old(env.Top().retValue)
        invariant old(env.Top().vars.Keys) <= env.Top().vars.Keys && old(env.Global().vars.Keys) <= env.Global().vars.Keys
        invariant old(env.output) <= env.output
        invariant 0 <= k <= fuel && |conds| == k + 1 && conds[k] == res
        invariant forall i | 0 <= i < k :: conds[i] == 1
        invariant conds[0] == first
        invariant PureExpr(test) && !env.Top().returned ==> res == env.Denote(test)
        invariant StraightParts(n) ==> !exhausted
        invariant SimpleLoop(n) ==> unchanged(env.heap) && env.output == old(env.output) && !env.Top().returned
        invariant S ==> B == env.heap.blocks && W == env.heap.words && Now() == f
        invariant S ==> Iterate(n, f, B, W, fuel - k) == Iterate(n, old(Now()), B, W, fuel)
        invariant S ==> (Stops(n, f, B, W) <==> res != 1)
        decreases fuel - k
      {
        if k == fuel {
          exhausted := true;
          return;
        }
        var ran;
        res, ran := Step(n, fuel);
        if !ran {
          return;
        }
        if S {
          f := RoundExec(n, f, B, W);
        }
        conds := conds + [res];
        k := k + 1;
        if env.Top().returned {
          return;
        }
      }
    }

    /** One turn of a loop after a condition equal to 1: a round, then, unless
        fuel ran out during it (`ran` false), the condition tested again. */
    method Step(n: Node, fuel: nat) returns (res: int, ran: bool)
      requires env.Valid()
      requires (n.While? || n.For?) && LoopTest(n).Some?
      modifies this, env, env.heap, env.Global()`vars, env.Global()`exprs, env.Top()
      decreases fuel, n, 1
      ensures env.Valid() && env.stack == old(env.stack)
      ensures old(exhausted) ==> exhausted && !ran
      ensures !ran ==> exhausted
      ensures StraightParts(n) ==> exhausted == old(exhausted) && ran == !old(exhausted)
      ensures old(env.Top().returned) ==> env.Top().returned && env.Top().retValue == old(env.Top().retValue)
      ensures !env.Top().returned ==> env.Top().retValue == old(env.Top().retValue)
      ensures old(env.Top().vars.Keys) <= env.Top().vars.Keys && old(env.Global().vars.Keys) <= env.Global().vars.Keys
      ensures old(env.output) <= env.output
      ensures ran && PureExpr(LoopTest(n).value) && !env.Top().returned ==> res == env.Denote(LoopTest(n).value)
      ensures SimpleLoop(n) ==> unchanged(env.heap) && env.output == old(env.output)
      ensures !old(exhausted) && |env.stack| > 1 && SimpleLoop(n) ==>
        ran && Now() == RoundExec(n, old(Now()), old(env.heap.blocks), old(env.heap.words)) &&
        (Stops(n, Now(), old(env.heap.blocks), old(env.heap.words)) <==> env.Top().returned || res != 1)
    {
      res, ran := 0, false;
      if SimpleLoop(n) { SimpleLoopStraight(n); }
      Round(n, fuel);
      if exhausted {
        return;
      }
      ran := true;
      var test := LoopTest(n).value;
      assert test in Children(n);
      res := Test(test, fuel);
    }

    /** One round of a loop: the body, then a for loop's increment if any. */
    method Round(n: Node, fuel: nat)
      requires env.Valid() && (n.While? || n.For?)
      modifies this, env, env.heap, env.Global()`vars, env.Global()`exprs, env.Top()
      decreases fuel, n, 0
      ensures env.Valid() && env.stack == old(env.stack)
      ensures old(exhausted) ==> exhausted
      ensures StraightParts(n) ==> exhausted == old(exhausted)
      ensures old(env.Top().returned) ==> env.Top().returned && env.Top().retValue == old(env.Top().retValue)
      ensures !env.Top().returned ==> env.Top().retValue == old(env.Top().retValue)
      ensures old(env.Top().vars.Keys) <= env.Top().vars.Keys && old(env.Global().vars.Keys) <= env.Global().vars.Keys
      ensures old(env.output) <= env.output
      ensures SimpleLoop(n) ==> unchanged(env.heap) && env.output == old(env.output)
      ensures !old(exhausted) && |env.stack| > 1 && SimpleLoop(n) ==>
        Now() == RoundExec(n, old(Now()), old(env.heap.blocks), old(env.heap.words))
    {
      assert n.body in Children(n);
      assert n.For? && n.inc.Some? ==> n.inc.value in Children(n);
      if SimpleLoop(n) { SimpleLoopStraight(n); }
      Clause(n.body, fuel);
      if n.For? && n.inc.Some? {
        Clause(n.inc.value, fuel);
      }
    }

    /** A statement of a block, a loop's body or a for loop's increment,
        with only what every visit keeps. */
    method Clause(m: Node, fuel: nat)
      requires env.Valid()
      modifies this, env, env.heap, env.Global()`vars, env.Global()`exprs, env.Top()
      decreases fuel, m, 7
      ensures env.Valid() && env.stack == old(env.stack)
      ensures old(exhausted) ==> exhausted
      ensures !old(Live()) ==> unchanged(this, env, env.heap, env.Global(), env.Top())
      ensures IsLeaf(m) ==>
        env.Top().vars == old(env.Top().vars) && env.Global().vars == old(env.Global().vars) && unchanged(env.heap)
      ensures Straight(m) ==> exhausted == old(exhausted)
      ensures old(env.Top().returned) ==> env.Top().returned && env.Top().retValue == old(env.Top().retValue)
      ensures !env.Top().returned ==> env.Top().retValue == old(env.Top().retValue)
      ensures old(env.Top().vars.Keys) <= env.Top().vars.Keys && old(env.Global().vars.Keys) <= env.Global().vars.Keys
      ensures old(env.output) <= env.output
      ensures old(Live()) && m.Return? ==> env.Top().returned
      ensures Simple(m) ==> unchanged(env.heap) && env.output == old(env.output)
      ensures !old(exhausted) && |env.stack| > 1 && Simple(m) ==>
        Now() == Exec(m, old(Now()), old(env.heap.blocks), old(env.heap.words))
    {
      Visit(m, fuel);
    }

    /** A loop's condition: visited, then its value read back. A pure
        condition yields its meaning and changes nothing but memo entries. */
    method Test(test: Node, fuel: nat) returns (res: int)
      requires env.Valid()
      modifies this, env, env.heap, env.Global()`vars, env.Global()`exprs, env.Top()
      decreases fuel, test, 7
      ensures env.Valid() && env.stack == old(env.stack)
      ensures old(exhausted) ==> exhausted
      ensures Straight(test) ==> exhausted == old(exhausted)
      ensures old(env.Top().returned) ==> env.Top().returned && env.Top().retValue == old(env.Top().retValue)
      ensures !env.Top().returned ==> env.Top().retValue == old(env.Top().retValue)
      ensures old(env.Top().vars.Keys) <= env.Top().vars.Keys && old(env.Global().vars.Keys) <= env.Global().vars.Keys
      ensures old(env.output) <= env.output
      ensures test.Binary? && test.bop.IsComparison() ==> res == 0 || res == 1
      ensures PureExpr(test) ==>
        unchanged(this, env.heap) && env.output == old(env.output) && env.Top().returned == old(env.Top().returned) &&
        env.Top().vars == old(env.Top().vars) && env.Global().vars == old(env.Global().vars)
      ensures old(Live()) && PureExpr(test) ==> res == old(env.Denote(test))
    {
      Visit(test, fuel);
      res := ReadBack(test);
    }

    /** expr on a condition just visited: a pure condition's value is read
        back without changing any binding or heap word. */
    method ReadBack(test: Node) returns (res: int)
      requires env.Valid()
      modifies env`diags, env.heap`words, env.Global()`vars, env.Global()`exprs, env.Top()`vars, env.Top()`exprs
      ensures env.Valid()
      ensures old(env.Top().vars.Keys) <= env.Top().vars.Keys && old(env.Global().vars.Keys) <= env.Global().vars.Keys
      ensures test.Binary? && test.bop.IsComparison() ==> res == 0 || res == 1
      ensures PureExpr(test) ==>
        res == old(env.Val(test)) && env.heap.words == old(env.heap.words) &&
        env.Top().vars == old(env.Top().vars) && env.Global().vars == old(env.Global().vars)
    {
      if PureExpr(test) {
        PureFacts(test);
      }
      res := env.Eval(test);
    }

    /** The loop of a for statement without a condition: body and increment
        until the function returns. `rounds` counts the rounds that ran to
        their end; fuel runs out only after `fuel` of them, unless a loop or
        call inside runs out. */
    method ForEver(n: Node, fuel: nat) returns (ghost rounds: nat)
      requires env.Valid()
      requires n.For? && Live()
      modifies this, env, env.heap, env.Global()`vars, env.Global()`exprs, env.Top()
      decreases fuel, n, 1
      ensures env.Valid() && env.stack == old(env.stack)
      ensures !env.Top().returned ==> env.Top().retValue == old(env.Top().retValue)
      ensures old(env.Top().vars.Keys) <= env.Top().vars.Keys && old(env.Global().vars.Keys) <= env.Global().vars.Keys
      ensures old(env.output) <= env.output
      ensures rounds <= fuel
      ensures !exhausted ==> env.Top().returned
      ensures exhausted && StraightParts(n) ==> rounds == fuel && !env.Top().returned
      ensures SimpleLoop(n) ==> unchanged(env.heap) && env.output == old(env.output)
      ensures |env.stack| > 1 && SimpleLoop(n) && n.test.None? ==>
        Now() == Iterate(n, old(Now()), old(env.heap.blocks), old(env.heap.words), fuel) &&
        (exhausted <==> !Stops(n, Now(), old(env.heap.blocks), old(env.heap.words)))
    {
      rounds := 0;
      if SimpleLoop(n) { SimpleLoopStraight(n); }
      var k := 0;
      while k < fuel
        invariant env.Valid() && env.stack == old(env.stack)
        invariant !env.Top().returned ==> env.Top().retValue == old(env.Top().retValue)
        invariant old(env.Top().vars.Keys) <= env.Top().vars.Keys && old(env.Global().vars.Keys) <= env.Global().vars.Keys
        invariant old(env.output) <= env.output
        invariant !exhausted && !env.Top().returned
        invariant 0 <= k <= fuel && rounds == k
        invariant SimpleLoop(n) ==> unchanged(env.heap) && env.output == old(env.output)
        invariant |env.stack| > 1 && SimpleLoop(n) && n.test.None? ==>
          Iterate(n, Now(), old(env.heap.blocks), old(env.heap.words), fuel - k) == Iterate(n, old(Now()), old(env.heap.blocks), old(env.heap.words), fuel)
        decreases fuel - k
      {
        Round(n, fuel);
        if env.Top().returned || exhausted {
          return;
        }
        k := k + 1;
        rounds := k;
      }
      exhausted := true;
    }

    /** The arguments are visited, then call runs. An intrinsic is done at
        that point; a user function has its body walked in the frame call
        pushed, and ret pops it again, so the stack ends as it began.
        `callee` is the frame the body ran in, `entry` its bindings when the
        body began, and `args` the argument values call computed. */
    method VisitCall(n: Node, fuel: nat) returns (ghost callee: StackFrame?, ghost args: seq<int>, ghost entry: map<int, int>)
      requires env.Valid()
      requires n.Call?
      modifies this, env, env.heap, env.Global()`vars, env.Global()`exprs, env.Top()
      decreases fuel, n, 3
      ensures env.Valid() && env.stack == old(env.stack)
      ensures old(exhausted) ==> exhausted
      ensures !old(Live()) ==> unchanged(this, env, env.heap, env.Global(), env.Top())
      ensures !env.Top().returned ==> env.Top().retValue == old(env.Top().retValue)
      ensures old(env.Top().vars.Keys) <= env.Top().vars.Keys && old(env.Global().vars.Keys) <= env.Global().vars.Keys
      ensures old(env.output) <= env.output
      ensures old(Live()) && env.Dispatch(n.callee.fn) == Input ==> n.id in env.Top().exprs
      ensures old(Live()) && env.Dispatch(n.callee.fn) == User ==>
        callee != null && fresh(callee) &&
        |args| == |n.callee.params| && entry == Bindings(n.callee.params, args)
      ensures old(Live()) && env.Dispatch(n.callee.fn) == User && !n.callee.noReturn ==>
        n.id in env.Top().exprs && env.Top().exprs[n.id] == callee.retValue &&
        (!callee.returned ==> callee.retValue == 0)
      ensures old(Live()) && env.Dispatch(n.callee.fn) != Input && PureArgs(n) ==>
        forall k | 0 <= k < |args| :: args[k] == if k < |n.args| then old(env.Denote(n.args[k])) else 0
      ensures old(Live()) && env.Dispatch(n.callee.fn) == Output && PureArgs(n) ==>
        env.output == old(env.output) + [if |n.args| > 0 then old(env.Denote(n.args[0])) else 0]
      ensures old(Live()) && env.Dispatch(n.callee.fn) == User && PureArgs(n) ==>
        args == ArgMeanings(n, old(env.Top().vars), old(env.Global().vars), old(env.heap.blocks), old(env.heap.words))
      ensures old(Live()) && env.Dispatch(n.callee.fn) == User && PureArgs(n) &&
              fuel > 0 && n.callee.fn in env.bodies && SimpleBody(env.bodies[n.callee.fn]) ==>
        var F := BodyRun(env.bodies[n.callee.fn], entry, old(env.Global().vars), env.heap.blocks, env.heap.words);
        callee.vars == F.locals && callee.returned == F.returned && callee.retValue == F.retValue &&
        env.Global().vars == F.globals
      ensures old(Live()) && env.Dispatch(n.callee.fn) == User && !n.callee.noReturn && PureArgs(n) &&
              fuel > 0 && n.callee.fn in env.bodies && SimpleBody(env.bodies[n.callee.fn]) ==>
        env.Memo(n.id) == BodyRun(env.bodies[n.callee.fn],
          Bindings(n.callee.params, ArgMeanings(n, old(env.Top().vars), old(env.Global().vars), old(env.heap.blocks), old(env.heap.words))),
          old(env.Global().vars), env.heap.blocks, env.heap.words).retValue
    {
      callee, args, entry := null, [], map[];
      if !Live() {
        return;
      }
      VisitChildren(n, fuel);
      if PureArgs(n) {
        PureArgsPlain(n);
      }
      callee, args, entry := CallAndReturn(n, fuel);
    }

    /** call, and for a user function the walk of its body and ret; with
        arguments that can be read again, `args` are their values before. */
    method CallAndReturn(n: Node, fuel: nat) returns (ghost callee: StackFrame?, ghost args: seq<int>, ghost entry: map<int, int>)
      requires env.Valid() && n.Call?
      modifies this, env, env.heap, env.Global()`vars, env.Global()`exprs, env.Top()
      decreases fuel, n, 2
      ensures env.Valid() && env.stack == old(env.stack)
      ensures old(exhausted) ==> exhausted
      ensures env.Top().returned == old(env.Top().returned)
      ensures !env.Top().returned ==> env.Top().retValue == old(env.Top().retValue)
      ensures old(env.Top().vars.Keys) <= env.Top().vars.Keys && old(env.Global().vars.Keys) <= env.Global().vars.Keys
      ensures old(env.output) <= env.output
      ensures env.Dispatch(n.callee.fn) == Input ==> n.id in env.Top().exprs
      ensures env.Dispatch(n.callee.fn) == User ==>
        callee != null && fresh(callee) &&
        |args| == |n.callee.params| && entry == Bindings(n.callee.params, args)
      ensures env.Dispatch(n.callee.fn) == User && !n.callee.noReturn ==>
        n.id in env.Top().exprs && env.Top().exprs[n.id] == callee.retValue &&
        (!callee.returned ==> callee.retValue == 0)
      ensures env.Dispatch(n.callee.fn) != Input && PlainCall(n) ==>
        forall k | 0 <= k < |args| :: args[k] == old(env.ArgVal(n, k))
      ensures env.Dispatch(n.callee.fn) == Output && PlainCall(n) ==>
        env.output == old(env.output) + [old(env.ArgVal(n, 0))]
      ensures env.Dispatch(n.callee.fn) == User && PlainCall(n) && !old(exhausted) &&
              fuel > 0 && n.callee.fn in env.bodies && SimpleBody(env.bodies[n.callee.fn]) ==>
        var F := BodyRun(env.bodies[n.callee.fn], entry, old(env.Global().vars), env.heap.blocks, env.heap.words);
        callee.vars == F.locals && callee.returned == F.returned && callee.retValue == F.retValue &&
        env.Global().vars == F.globals
    {
      callee, entry := null, map[];
      if env.IsExternalCall(n.callee.fn) {
        args := env.CallExpr(n);
      } else {
        callee, args, entry := CallUser(n, fuel);
      }
    }

    /** call to a user function: the frame it pushes, then the body and ret. */
    method CallUser(n: Node, fuel: nat) returns (ghost callee: StackFrame, ghost args: seq<int>, ghost entry: map<int, int>)
      requires env.Valid() && n.Call? && !env.IsExternalCall(n.callee.fn)
      modifies this, env, env.heap, env.Global()`vars, env.Global()`exprs, env.Top()
      decreases fuel, n, 1
      ensures env.Valid() && env.stack == old(env.stack)
      ensures old(exhausted) ==> exhausted
      ensures env.Top().returned == old(env.Top().returned) && env.Top().retValue == old(env.Top().retValue)
      ensures old(env.Top().vars.Keys) <= env.Top().vars.Keys && old(env.Global().vars.Keys) <= env.Global().vars.Keys
      ensures old(env.output) <= env.output
      ensures fresh(callee) && |args| == |n.callee.params| && entry == Bindings(n.callee.params, args)
      ensures !n.callee.noReturn ==>
        n.id in env.Top().exprs && env.Top().exprs[n.id] == callee.retValue &&
        (!callee.returned ==> callee.retValue == 0)
      ensures PlainCall(n) ==> forall k | 0 <= k < |args| :: args[k] == old(env.ArgVal(n, k))
      ensures PlainCall(n) && !old(exhausted) && fuel > 0 && n.callee.fn in env.bodies && SimpleBody(env.bodies[n.callee.fn]) ==>
        var F := BodyRun(env.bodies[n.callee.fn], entry, old(env.Global().vars), env.heap.blocks, env.heap.words);
        callee.vars == F.locals && callee.returned == F.returned && callee.retValue == F.retValue &&
        env.Global().vars == F.globals
    {
      args := Enter(n);
      callee, entry := RunCallee(n, fuel);
    }

    /** call to a user function: the frame it pushes over the caller's. */
    method Enter(n: Node) returns (ghost args: seq<int>)
      requires env.Valid() && n.Call? && !env.IsExternalCall(n.callee.fn)
      modifies env, env.heap, env.Global()`vars, env.Global()`exprs, env.Top()`vars, env.Top()`exprs
      ensures env.Valid() && |env.stack| >= 2 && env.stack[..|env.stack| - 1] == old(env.stack)
      ensures env.Caller() == old(env.Top()) && env.stack[0] == old(env.stack[0])
      ensures env.Caller().returned == old(env.Top().returned) && env.Caller().retValue == old(env.Top().retValue)
      ensures fresh(env.Top()) && env.Top().retValue == 0 && !env.Top().returned
      ensures PlainCall(n) ==> env.Global().vars == old(env.Global().vars)
      ensures |args| == |n.callee.params| && env.Top().vars == Bindings(n.callee.params, args)
      ensures PlainCall(n) ==> forall k | 0 <= k < |args| :: args[k] == old(env.ArgVal(n, k))
      ensures old(env.Top().vars.Keys) <= env.Caller().vars.Keys && old(env.Global().vars.Keys) <= env.Global().vars.Keys
      ensures env.output == old(env.output)
    {
      args := env.CallExpr(n);
    }

    /** The rest of a call to a user function, once call has pushed its
        frame: the body is walked there with one unit less fuel, then ret
        pops the frame and memoizes its return value on the call node. */
    method RunCallee(n: Node, fuel: nat) returns (ghost callee: StackFrame, ghost entry: map<int, int>)
      requires env.Valid() && |env.stack| >= 2 && n.Call?
      requires env.Top().retValue == 0
      modifies this, env, env.heap, env.Global()`vars, env.Global()`exprs, env.Top(), env.Caller()`exprs
      decreases fuel, n, 0
      ensures env.Valid() && env.stack == old(env.stack[..|env.stack| - 1])
      ensures callee == old(env.Top()) && entry == old(env.Top().vars)
      ensures env.Top() == old(env.Caller()) && env.Top().returned == old(env.Caller().returned)
      ensures env.Top().retValue == old(env.Caller().retValue)
      ensures old(exhausted) ==> exhausted
      ensures old(env.Global().vars.Keys) <= env.Global().vars.Keys
      ensures old(env.output) <= env.output
      ensures !n.callee.noReturn ==>
        n.id in env.Top().exprs && env.Top().exprs[n.id] == callee.retValue && (!callee.returned ==> callee.retValue == 0)
      ensures !old(exhausted) && fuel > 0 && n.callee.fn in env.bodies && SimpleBody(env.bodies[n.callee.fn]) ==>
        unchanged(env.heap) && env.output == old(env.output) &&
        var F := ExecFrom(env.bodies[n.callee.fn], 0, old(Now()), old(env.heap.blocks), old(env.heap.words));
        callee.vars == F.locals && callee.returned == F.returned && callee.retValue == F.retValue &&
        env.Global().vars == F.globals
    {
      callee, entry := env.Top(), env.Top().vars;
      if n.callee.fn in env.bodies {
        if fuel == 0 {
          exhausted := true;
        } else {
          VisitChildren(env.bodies[n.callee.fn], fuel - 1);
        }
      }
      env.Ret(n);
    }

  }

  /** HandleTranslationUnit: init, then a walk of main's body in the frame
      init pushed for it. `main` is the body walked, that of the last
      definition of main, and `globals` the global frame's bindings as init
      left them. */
  method Interpret(unit: seq<TopDecl>, input: seq<int>, hostAlloc: nat -> int, fuel: nat)
    returns (env: Environment, walker: Visitor, ghost main: Option<Node>, ghost globals: map<int, int>)
    ensures env.Valid() && |env.stack| == 2 && walker.env == env
    ensures env.entry == FindFunction(unit, "main")
    ensures main == if env.entry.Some? && env.entry.value in Bodies(unit) then Some(Bodies(unit)[env.entry.value]) else None
    ensures main.Some? ==>
      exists i | 0 <= i < |unit| ::
        Defines(unit[i], env.entry.value) && unit[i].body == main &&
        forall j | i < j < |unit| :: !Defines(unit[j], env.entry.value)
    ensures forall i | 0 <= i < |unit| && unit[i].GlobalVar? && Bindable(unit[i].v.ty) :: unit[i].v.decl in globals
    ensures QuietGlobals(unit) ==>
      forall i | 0 <= i < |unit| && unit[i].GlobalVar? && ConstInit(unit[i].v) && LastGlobal(unit, i, |unit|) ::
        unit[i].v.decl in globals && globals[unit[i].v.decl] == ConstValue(unit[i].v)
    ensures globals.Keys <= env.stack[0].vars.Keys
    ensures main.None? ==>
      env.stack[0].vars == globals && env.stack[1].vars == map[] && env.output == [] && !walker.exhausted
    ensures main.Some? && StraightParts(main.value) ==> !walker.exhausted
    ensures main.Some? && SimpleBody(main.value) ==>
      env.output == [] &&
      walker.Now() == BodyRun(main.value, map[], globals, env.heap.blocks, env.heap.words)
    ensures main.Some? && SimpleBody(main.value) ==>
      forall i | 0 <= i < |Children(main.value)| && Children(main.value)[i].Return? :: env.Top().returned
  {
    env := new Environment.Init(unit, input, hostAlloc);
    walker := new Visitor(env);
    globals := env.stack[0].vars;
    main := None;
    if env.entry.Some? && env.entry.value in env.bodies {
      main := Some(env.bodies[env.entry.value]);
      BodiesLast(unit, env.entry.value);
      walker.VisitChildren(env.bodies[env.entry.value], fuel);
      if SimpleBody(main.value) {
        forall i | 0 <= i < |Children(main.value)| && Children(main.value)[i].Return?
          ensures env.Top().returned
        {
          ReturnInBlock(main.value, 0, i, Flow(map[], globals, false, 0), env.heap.blocks, env.heap.words);
        }
      }
    }
  }
}
