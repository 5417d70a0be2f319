/** The abstract syntax the evaluator walks.
    The clang front end is replaced by this datatype: every node carries a
    unique id (the key of a frame's memo), expression nodes carry the static
    type the front end gave them (after implicit conversions, which are
    dropped from the tree), and a variable reference carries the id of the
    declaration it resolves to. */
module Ast {

  /** sizeof(long) on the host: the size in bytes of every value. */
  const WORD: int := 8

  datatype Option<+T> = None | Some(value: T)

  /** Static type classification of a declaration or an expression. */
  datatype Ty = IntTy | CharTy | PtrTy | ArrTy(elem: Ty, size: nat) | OtherTy
  {
    /** clang's isIntegerType(): true for int and for char. */
    predicate IsInteger() { IntTy? || CharTy? }
    predicate IsPointer() { PtrTy? }
  }

  datatype UnOp = Plus | Minus | Deref | OtherUnOp

  /** CompoundAssign stands for every `op=` operator: clang's isAssignmentOp()
      holds for all of them. */
  datatype BinOp =
    | Assign | CompoundAssign
    | Add | Sub
    | Mul | Div | Rem
    | Gt | Lt | Eq | Ge | Le | Ne
    | OtherBinOp
  {
    predicate IsAssignment() { Assign? || CompoundAssign? }
    predicate IsAdditive() { Add? || Sub? }
    /** clang's isMultiplicativeOp(): `*`, `/` and `%`. */
    predicate IsMultiplicative() { Mul? || Div? || Rem? }
    predicate IsComparison() { Gt? || Lt? || Eq? || Ge? || Le? || Ne? }
  }

  /** A variable or parameter declaration. */
  datatype VarDecl = VarDecl(decl: int, ty: Ty, init: Option<Node>)

  /** What a call node knows of its direct callee: the function's identity,
      its parameter declarations and whether it is declared noreturn.
      The body is found through the translation unit. */
  datatype Callee = Callee(fn: int, params: seq<VarDecl>, noReturn: bool)

  datatype Node =
    // expressions
    | IntLit(id: int, value: int)
    | CharLit(id: int, value: int)
    | Ref(id: int, ty: Ty, decl: int)
    | Paren(id: int, ty: Ty, sub: Node)
    | Unary(id: int, ty: Ty, uop: UnOp, sub: Node)
    | Binary(id: int, ty: Ty, bop: BinOp, lhs: Node, rhs: Node)
    | Index(id: int, ty: Ty, base: Node, index: Node)
    | SizeOf(id: int)
    | Cast(id: int, ty: Ty, sub: Node)
    | Call(id: int, ty: Ty, callee: Callee, args: seq<Node>)
    // statements
    | Compound(id: int, stmts: seq<Node>)
    | Decls(id: int, vars: seq<VarDecl>)
    | If(id: int, cond: Node, thn: Node, els: Option<Node>)
    | While(id: int, cond: Node, body: Node)
    | For(id: int, init: Option<Node>, test: Option<Node>, inc: Option<Node>, body: Node)
    | Return(id: int, result: Option<Node>)

  /** The static type of an expression node; literals and sizeof are
      integers, statements have no value type. */
  function TypeOf(e: Node): Ty
  {
    match e
    case IntLit(_, _) => IntTy
    case CharLit(_, _) => IntTy
    case SizeOf(_) => IntTy
    case Ref(_, t, _) => t
    case Paren(_, t, _) => t
    case Unary(_, t, _, _) => t
    case Binary(_, t, _, _, _) => t
    case Index(_, t, _, _) => t
    case Cast(_, t, _) => t
    case Call(_, t, _, _) => t
    case _ => OtherTy
  }

  /** The type a parent sees when it asks for an operand's type: an array
      operand has decayed to a pointer by then. */
  function OperandTy(e: Node): Ty
  {
    if TypeOf(e).ArrTy? then PtrTy else TypeOf(e)
  }

  function OptList(o: Option<Node>): seq<Node>
  {
    if o.Some? then [o.value] else []
  }

  /** The initializers of a declaration statement, in order. */
  function Inits(vars: seq<VarDecl>): (r: seq<Node>)
    ensures forall c | c in r :: exists v | v in vars :: v.init == Some(c)
  {
    if vars == [] then [] else OptList(vars[0].init) + Inits(vars[1..])
  }

  /** Every initializer of a declaration statement is among its Inits. */
  lemma {:induction false} InitIn(vars: seq<VarDecl>, i: int)
    requires 0 <= i < |vars| && vars[i].init.Some?
    ensures vars[i].init.value in Inits(vars)
  {
    if i > 0 {
      InitIn(vars[1..], i - 1);
    }
  }

  /** Two variables' initializers sit at distinct places of Inits, so when
      those have disjoint ids, so have the two initializers. */
  lemma {:induction false} InitsDisjoint(vars: seq<VarDecl>, j: int, k: int)
    requires 0 <= j < k < |vars| && vars[j].init.Some? && vars[k].init.Some?
    requires DisjointIds(Inits(vars))
    ensures Ids(vars[j].init.value) !! Ids(vars[k].init.value)
  {
    var head, rest := OptList(vars[0].init), Inits(vars[1..]);
    assert Inits(vars) == head + rest;
    if j == 0 {
      InitIn(vars[1..], k - 1);
      var q :| 0 <= q < |rest| && rest[q] == vars[k].init.value;
      assert Inits(vars)[0] == vars[0].init.value && Inits(vars)[1 + q] == rest[q];
    } else {
      assert DisjointIds(rest) by {
        forall p, q | 0 <= p < q < |rest|
          ensures Ids(rest[p]) !! Ids(rest[q])
        {
          assert Inits(vars)[|head| + p] == rest[p] && Inits(vars)[|head| + q] == rest[q];
        }
      }
      InitsDisjoint(vars[1..], j - 1, k - 1);
    }
  }

  /** The children of a node in the order clang lists them (absent parts
      skipped); the callee of a call is not a child here. */
  function Children(n: Node): (cs: seq<Node>)
    ensures forall c | c in cs :: c < n
  {
    match n
    case Paren(_, _, sub) => [sub]
    case Unary(_, _, _, sub) => [sub]
    case Binary(_, _, _, l, r) => [l, r]
    case Index(_, _, b, i) => [b, i]
    case Cast(_, _, sub) => [sub]
    case Call(_, _, _, args) => args
    case Compound(_, stmts) => stmts
    case Decls(_, vars) => Inits(vars)
    case If(_, c, t, e) => [c, t] + OptList(e)
    case While(_, c, b) => [c, b]
    case For(_, i, t, inc, b) => OptList(i) + OptList(t) + OptList(inc) + [b]
    case Return(_, r) => OptList(r)
    case _ => []
  }

  /** A node whose visit only memoizes: it has no children and does not
      assign, declare, call or return. */
  predicate IsLeaf(n: Node)
  {
    n.IntLit? || n.CharLit? || n.Ref? || n.SizeOf?
  }

  /** The ids of an expression's nodes, the memo keys its visit can write. */
  function Ids(e: Node): set<int>
  {
    match e
    case Paren(id, _, sub) => {id} + Ids(sub)
    case Unary(id, _, _, sub) => {id} + Ids(sub)
    case Cast(id, _, sub) => {id} + Ids(sub)
    case Binary(id, _, _, l, r) => {id} + Ids(l) + Ids(r)
    case Index(id, _, b, i) => {id} + Ids(b) + Ids(i)
    case _ => {e.id}
  }

  /** The ids of all the expressions' nodes. */
  function IdsOf(es: seq<Node>): set<int>
  {
    if es == [] then {} else IdsOf(es[..|es| - 1]) + Ids(es[|es| - 1])
  }

  /** No two of the expressions share a node id. */
  predicate DisjointIds(es: seq<Node>)
  {
    forall j, k | 0 <= j < k < |es| :: Ids(es[j]) !! Ids(es[k])
  }

  /** The expression designates an object, so clang reads its value through
      an implicit lvalue-to-rvalue (or array-to-pointer) cast. */
  predicate IsLvalue(e: Node)
  {
    match e
    case Ref(_, _, _) => true
    case Index(_, _, _, _) => true
    case Unary(_, _, uop, _) => uop == Deref
    case Paren(_, _, sub) => IsLvalue(sub)
    case _ => false
  }

  /** An lvalue operand of pointer type, or an array that decays to one:
      the implicit cast that reads it has pointer type, and cast() memoizes
      nothing for a pointer-typed cast. */
  predicate PointerLvalue(e: Node)
  {
    IsLvalue(e) && OperandTy(e).IsPointer()
  }

  /** No loop and no call anywhere in the node: its walk cannot run out of
      fuel. */
  predicate Straight(n: Node)
  {
    !n.While? && !n.For? && !n.Call? && forall c | c in Children(n) :: Straight(c)
  }

  /** Every part of a loop or other statement is straight. */
  predicate StraightParts(n: Node)
  {
    forall c | c in Children(n) :: Straight(c)
  }

  /** A top-level declaration of the translation unit. A function that is
      only declared has no body. */
  datatype TopDecl =
    | GlobalVar(v: VarDecl)
    | Function(fn: int, name: string, body: Option<Node>)
}
