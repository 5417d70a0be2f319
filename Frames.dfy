/** One activation record (class StackFrame, Environment.h:15-55).
    Declarations and nodes are identified by their integer ids. The
    program counter mPC is written but never read, so it is left out. */
module Frames {

  class StackFrame {
    /** Declaration -> value of the variables and parameters bound here. */
    var vars: map<int, int>
    /** Node -> value of the expressions evaluated in this activation. */
    var exprs: map<int, int>
    var retValue: int
    var returned: bool

    /** A new frame binds nothing, holds return value 0 and has not
        returned. */
    constructor ()
      ensures vars == map[] && exprs == map[]
      ensures retValue == 0 && !returned
    {
      vars := map[];
      exprs := map[];
      retValue := 0;
      returned := false;
    }

    predicate FindDecl(d: int)
      reads this
    {
      d in vars
    }

    /** Binds or rebinds one declaration; nothing else in the frame moves. */
    method BindDecl(d: int, val: int)
      modifies this`vars
      ensures vars == old(vars)[d := val]
    {
      vars := vars[d := val];
    }

    /** The value bound to a declaration; the caller must know it is bound. */
    function GetDeclVal(d: int): (val: int)
      reads this
      requires d in vars
      ensures (d, val) in vars.Items
    {
      vars[d]
    }

    /** Memoizes the value of one node; nothing else in the frame moves. */
    method BindStmt(s: int, val: int)
      modifies this`exprs
      ensures exprs == old(exprs)[s := val]
    {
      exprs := exprs[s := val];
    }

    /** The memoized value of a node; the caller must know it was evaluated. */
    function GetStmtVal(s: int): (val: int)
      reads this
      requires s in exprs
      ensures (s, val) in exprs.Items
    {
      exprs[s]
    }

    method SetRetValue(v: int)
      modifies this`retValue
      ensures retValue == v
    {
      retValue := v;
    }

    /** The flag only ever goes from false to true: there is no way to clear it. */
    method SetReturned()
      modifies this`returned
      ensures returned
    {
      returned := true;
    }

    predicate IsReturned()
      reads this
    {
      returned
    }
  }
}
