# A verified model of a clang-based C interpreter

The repository interprets a small subset of C by walking clang's abstract
syntax tree. The walker is `InterpreterVisitor` in `ast-interpreter/ASTInterpreter.cpp`.
The evaluator is `Environment` in `ast-interpreter/Environment.h`. It
keeps a stack of `StackFrame`s and a `Heap` simulator that checks every
pointer the program loads or stores through. Integers, characters,
pointers and array handles are all `long` values. Every expression the
walker visits leaves its value in the current frame's memo (node to value),
and parents read their operands back from it. A function call pushes a
frame with the parameters bound; a `return` marks the frame returned, and
from then on every visit in that frame is skipped until `ret` pops it.
Four functions are intrinsics: `GET` reads an integer, `PRINT` writes one,
`MALLOC` and `FREE` manage heap blocks.

The model keeps the source's shape:

- `Ast` is the syntax tree the evaluator sees. Nodes carry ids, static
  types and, for references, the id of the declaration.
- `Arith` holds the arithmetic kernels of `binop`: C's truncating division,
  the additive operators with pointer scaling, the comparisons. Each bug
  found there has an as-written version and a corrected one.
- `HeapSim` is the class `Heap`: the block map and its linear validity
  scan over the host's word store.
- `Frames` is the class `StackFrame`.
- `Env` is the class `Environment`: the stack as a sequence of frame
  objects, the intrinsic handles, and one method per evaluator operation.
  Standard input and output are sequences, and the host allocator is a
  function parameter. The diagnostics the source prints, and the
  assertions it trips, are kept in a log.
- `Walker` is the class `Visitor`, with one method per `Visit*` method,
  and `Interpret`, the entry sequence.

The program being interpreted need not terminate, so every walk carries
fuel: a loop runs at most `fuel` iterations and a call body is walked with
one unit less. When fuel runs out the walker sets `exhausted`, and every
later visit does nothing.

`Free` never erases a block, so a freed block stays valid. The validity
test counts the byte just past a block's end.

Most walker contracts state what a visit leaves in terms of the ghost
function `Env.Environment.Denote`: the C meaning of an expression in the
state before the visit (`Env.Meaning`). They hold for pure expressions
(`Walker.PureExpr`): literals, `sizeof`, integer and pointer references,
parentheses, `+`, `-`, `*` (a load), casts, arithmetic and comparison
operators, and subscripts of a named array, built from one another with
no node shared between operands. After such an expression is visited, its
memo holds that meaning, and `expr` reads it back.

Statements are tied to the program's statement semantics, stated in
`Walker` apart from the walker. A `Walker.Flow` is what a statement changes: the current
frame's bindings, the global frame's, and the returned flag and return
value. `Walker.Exec` runs a simple statement (`Walker.Simple`): a pure
expression, an assignment of a pure right side to a variable (`=` or any
`op=`, both of which store the right side, as binop does), a return, an
if on a pure condition, or a block of these. `Walker.ExecFrom` runs the
children of a block in order. `Walker.Iterate` runs at most k rounds of a
loop (`Walker.RoundExec`), stopping once the frame has returned or the
condition no longer means 1 (`Walker.Stops`). `Walker.BodyRun` runs a
function body in a fresh frame. In a function's frame, each visit of a
simple statement, loop or body is proved to end in the flow these give
from the state before.

`Ast.Inits`, `Ast.Children`, `Arith.SignedProduct`, `Env.InArrayStep`, `Env.Environment.NewFrame`,
`Ast.InitIn`, `Ast.InitsDisjoint`, `Walker.InitsSeparate`, `Walker.PureExec`, `Walker.PureChildrenSimple`,
`Walker.DeclaredMeanings`
and `Walker.StoppedStays` are helpers: their contracts
serve the proofs of the members in the table.

## Model

| member | source | states |
|---|---|---|
| `Arith.TruncDivRem` | ast-interpreter/Environment.h:302 | C's `/` on `long` truncates toward zero: quotient times divisor plus remainder gives the dividend back, the remainder is smaller than the divisor in magnitude and has the dividend's sign, the quotient has the sign of the product |
| `Arith.AdditiveAsWrittenIgnoresLeftInteger` | ast-interpreter/Environment.h:282-288 | as written, `int + pointer` is never scaled because the second test repeats the first (`1 + p` is `p + 1`, while `p + 1` is `p + 8`); every other operand pair agrees with the corrected kernel |
| `Arith.PointerOffset` | ast-interpreter/Environment.h:278-294 | corrected kernel: adding or subtracting an integer k moves a pointer by k words, whichever side the integer is on |
| `Arith.AdditiveCommutes` | ast-interpreter/Environment.h:289-290 | corrected kernel: `+` commutes, pointers included |
| `Arith.AddThenSub` | ast-interpreter/Environment.h:289-293 | `(x + k) - k` is x, for an integer or a pointer x |
| `Arith.RemainderAsWrittenIsQuotient` | ast-interpreter/Environment.h:295-304 | as written, `%` takes the multiplicative branch and divides: `7 % 2` evaluates to 3 |
| `Arith.DivRemIdentity` | ast-interpreter/Environment.h:295-304 | corrected kernel: `(a / b) * b + a % b == a`, and the remainder is smaller than the divisor and signed like the dividend |
| `Arith.Compare` | ast-interpreter/Environment.h:305-332 | a comparison yields 0 or 1, and 1 exactly when it holds |
| `Arith.CompareDuality` | ast-interpreter/Environment.h:309-327 | `!=`, `>=`, `<=` are the complements of `==`, `<`, `>`; `>` mirrors `<` and `==` is symmetric |
| `HeapSim.Heap.constructor` | ast-interpreter/Environment.h:58-59 | a new heap records no block |
| `HeapSim.Heap.Malloc` | ast-interpreter/Environment.h:62-67 | records the block base to size at the address the host returned, and returns that address |
| `HeapSim.Heap.Free` | ast-interpreter/Environment.h:68-74 | reports exactly when the address is not a recorded base, and erases nothing |
| `HeapSim.Heap.Check` | ast-interpreter/Environment.h:93-104 | the scan finds an address valid exactly when some block has base <= address <= base + size |
| `HeapSim.Heap.Update` | ast-interpreter/Environment.h:75-82 | at a valid address the word takes the value; at an invalid one it reports and memory is unchanged |
| `HeapSim.Heap.Get` | ast-interpreter/Environment.h:83-92 | at a valid address yields the stored word; at an invalid one reports and yields -1 |
| `HeapSim.Heap.UpdateThenGet` | ast-interpreter/Environment.h:75-92 | a load after a store at a valid address reads the stored value; at an invalid address it reads -1 and memory is as it was; a load at any other address reads what it read before the store |
| `HeapSim.MallocValidity` | ast-interpreter/Environment.h:62-67 | recording a block at a new base makes exactly base..base+size valid, in addition to what was valid |
| `HeapSim.MallocAddsOneEntry` | ast-interpreter/Environment.h:65 | recording a new base adds exactly one entry |
| `Frames.StackFrame.constructor` | ast-interpreter/Environment.h:23-27 | a new frame binds nothing, memoizes nothing, holds return value 0 and has not returned |
| `Frames.StackFrame.BindDecl` | ast-interpreter/Environment.h:30-33 | binds one declaration; no other binding changes |
| `Frames.StackFrame.GetDeclVal` | ast-interpreter/Environment.h:35-38 | requires the declaration to be bound and yields its binding |
| `Frames.StackFrame.BindStmt` | ast-interpreter/Environment.h:39-42 | memoizes one node; no other memo changes |
| `Frames.StackFrame.GetStmtVal` | ast-interpreter/Environment.h:43-47 | requires the node to be memoized and yields its memo |
| `Frames.StackFrame.SetRetValue` | ast-interpreter/Environment.h:52 | sets the return value and nothing else |
| `Frames.StackFrame.SetReturned` | ast-interpreter/Environment.h:53 | sets the returned flag, and nothing can clear it |
| `Env.BindingsKeys` | ast-interpreter/Environment.h:474-483 | the callee's frame binds exactly the parameters' declarations |
| `Env.BindingsValue` | ast-interpreter/Environment.h:476-481 | a parameter that is not declared again later is bound to the argument value in its position |
| `Env.FindFunction` | ast-interpreter/Environment.h:141-152 | the handle kept for a name is the last function declaration with that name, or none when no declaration has it |
| `Env.Bodies` | ast-interpreter/ASTInterpreter.cpp:154-155 | a function has a body to walk exactly when some declaration of the unit defines it |
| `Env.BodiesLast` | ast-interpreter/ASTInterpreter.cpp:154-155 | the body walked is that of the last declaration that defines the function |
| `Env.ValueReadsOnly` | ast-interpreter/Environment.h:176-219 | the value `expr` reads back for an expression depends only on the memo entries it reads |
| `Env.ValueNamesOnly` | ast-interpreter/Environment.h:176-219 | the value `expr` reads back for an expression depends on the bindings only through the declarations it looks up |
| `Env.ValueOutsideWrites` | ast-interpreter/Environment.h:176-219 | memo changes outside the entries an expression reads leave the value `expr` reads back for it unchanged |
| `Env.ElementInArray` | ast-interpreter/Environment.h:353-360 | element k of an n-word buffer lies in the buffer exactly when 0 <= k < n |
| `Env.Environment.Dispatch` | ast-interpreter/Environment.h:446-472 | the call branch is an intrinsic exactly when isExternalCall holds; GET is tested first |
| `Env.Environment.Init` | ast-interpreter/Environment.h:130-155 | leaves exactly two fresh frames; every bindable global is bound in the first, and when no global initializer has side effects each global with a constant initializer (or none) holds that constant, the last declaration winning; the intrinsic handles and the entry point are as FindFunction finds them and the bodies are those of the unit; the second frame is empty and has not returned; the output is empty |
| `Env.Environment.DeclareGlobals` | ast-interpreter/Environment.h:134-140 | every bindable global is bound in the global frame, to its constant when no global initializer has side effects |
| `Env.Environment.MemoOf` | ast-interpreter/Environment.h:43-47 | yields the current frame's memo of a node; a missing memo is logged and reads 0 |
| `Env.Environment.LookupDecl` | ast-interpreter/Environment.h:390-392 | yields the value of the two-tier lookup; a declaration neither frame binds is logged and reads 0 |
| `Env.Environment.IntegerLiteral` | ast-interpreter/Environment.h:166-169 | memoizes the literal's value and nothing else |
| `Env.Environment.CharacterLiteral` | ast-interpreter/Environment.h:171-174 | memoizes the character's value and nothing else |
| `Env.Environment.Eval` | ast-interpreter/Environment.h:176-219 | literals yield their value; a binary operator is evaluated again and its memo read; a reference is looked up again; other expressions read the memo their visit left, without side effects; a comparison yields 0 or 1; a statement yields -1 and is logged; for an expression that can be evaluated again the result is the value before, no binding or heap word changes, and only the expression's own memo entries do |
| `Env.Environment.EvalStored` | ast-interpreter/Environment.h:194-218 | an expression other than an operator, a reference or a cast yields its memo; a statement is logged as not handled |
| `Env.Environment.EvalBinary` | ast-interpreter/Environment.h:178-180 | a binary operator is evaluated again by binop and yields its memo, 0 or 1 for a comparison; one that can be evaluated again yields its value before and changes no binding or heap word |
| `Env.Environment.EvalRef` | ast-interpreter/Environment.h:189-193 | a reference is looked up again: an integer or pointer reference memoizes and yields its variable's value; no other memo changes |
| `Env.Environment.ParenExpr` | ast-interpreter/Environment.h:221-225 | memoizes the operand's value on the parenthesis; for an operand that can be evaluated again that is its value before, and no binding, heap word or other memo changes |
| `Env.Environment.SizeOfExpr` | ast-interpreter/Environment.h:227-230 | memoizes 8, the size of a long |
| `Env.Environment.UnaryOp` | ast-interpreter/Environment.h:232-242 | `+x` memoizes x, `-x` its negation, `*p` the word at p when p is valid and -1 (logged) otherwise; for an operand that can be evaluated again, x or p is its value before and nothing else changes |
| `Env.Environment.AssignVar` | ast-interpreter/Environment.h:252-258 | an assignment to a variable changes exactly one binding, the one the two-tier lookup resolves to, plus the left node's memo; reading the variable back gives the value |
| `Env.Environment.AssignIndex` | ast-interpreter/Environment.h:259-270 | stores the value, unchecked, at the word i places past the array's handle, i being the index's value before; only that word changes; a base that is not a variable is logged |
| `Env.Environment.AssignDeref` | ast-interpreter/Environment.h:271-274 | stores at p, the operand's value before, when p is valid; otherwise logs and leaves memory unchanged |
| `Env.Environment.AssignOp` | ast-interpreter/Environment.h:250-277 | evaluates the right side, then stores it through the left: a variable, an element or a pointer target, an unsupported target being logged; with operands that can be evaluated again, the stored value and the index or address are their values before; in a function's frame a variable target changes the current frame's binding when that frame binds it and the global one otherwise, and nothing else |
| `Env.Environment.Store` | ast-interpreter/Environment.h:252-277 | a variable takes the value and the heap is unchanged; in a function's frame the binding changed is the current frame's when it binds the variable and the global frame's otherwise, and no other binding changes; an element, or a valid pointer target, holds the value; any other target is logged |
| `Env.Environment.ArithOp` | ast-interpreter/Environment.h:278-333 | the node memoizes the corrected additive, multiplicative or comparison kernel of its operands' values; a zero divisor is logged and yields 0; when the operator can be evaluated again its memo is its value before and nothing but its own memo entries changes |
| `Env.Environment.Operands` | ast-interpreter/Environment.h:279-280 | the right operand is evaluated, then the left; operands that can be evaluated again yield their values before and change only their own memo entries |
| `Env.Environment.BinaryOp` | ast-interpreter/Environment.h:245-334 | binop: dispatches on assignment, with the guarantees of both, including which frame's binding an assignment to a variable changes |
| `Env.Environment.NewArray` | ast-interpreter/Environment.h:353-360 | takes the next host allocation, sets each of its n words to 0 and leaves all other memory unchanged |
| `Env.Environment.VarDeclare` | ast-interpreter/Environment.h:337-372 | binds an integer, char or pointer variable to its initializer's value (its value before, when it can be evaluated again) or 0; an array of integers or pointers to the next host allocation, with all its words set to 0 (a size of 0 is logged); any other type to 0; an array of any other element type stays unbound; a frame not on the stack gains exactly that binding |
| `Env.DeclareKeeps` | ast-interpreter/Environment.h:337-372 | declaring one variable, which rebinds only its own declaration and overwrites only its initializer's memo entries, leaves the value of every later independent initializer as it was |
| `Env.Environment.Decl` | ast-interpreter/Environment.h:374-383 | every bindable variable of the statement is bound in the current frame; when no initializer has side effects, each variable with a constant initializer holds it, and each variable whose initializer is independent of the others (`Env.Independent`: it looks up none of the statement's variables and reads no memo entry another initializer writes) holds that initializer's value before the statement (the last declaration winning); no other binding of the frame changes, and in a function's frame the globals are unchanged |
| `Env.Environment.DeclRef` | ast-interpreter/Environment.h:384-397 | a reference of integer or pointer type memoizes the value the lookup finds; any other reference changes nothing |
| `Env.Environment.ArrayRef` | ast-interpreter/Environment.h:399-410 | `a[i]` memoizes the word i places past the array's handle, i being the index's value before; when the index can be evaluated again no binding, heap word or other memo changes; a base that is not a variable is logged |
| `Env.Environment.CastExpr` | ast-interpreter/Environment.h:412-421 | a cast to an integer type memoizes its operand's memo; over an implicit load of a pointer variable, whose memo is never set, it logs the missing memo and memoizes 0; any other cast changes nothing |
| `Env.Environment.Ret` | ast-interpreter/Environment.h:423-433 | pops exactly one frame; unless the callee is noreturn the caller memoizes the callee's return value on the call node |
| `Env.Environment.RetStmt` | ast-interpreter/Environment.h:435-443 | records the returned value (its value before, when it can be evaluated again) and marks the frame returned; a value that can be evaluated again leaves the bindings and heap words as they were; without a value the return value, bindings, heap and memo are kept |
| `Env.Environment.CallExpr` | ast-interpreter/Environment.h:446-485 | GET memoizes the next input (0 once input is exhausted) and consumes it; PRINT appends its argument to the output; MALLOC records a block of the requested size at the next host allocation and memoizes its address; FREE reports a non-base address; an intrinsic leaves the stack as it was; a user function gets a fresh frame binding each parameter to its argument's value, in a plain call the argument's value before |
| `Env.Environment.CallInput` | ast-interpreter/Environment.h:451-455 | GET memoizes the next input, or 0 once input is exhausted, and consumes it |
| `Env.Environment.CallBuiltin` | ast-interpreter/Environment.h:456-470 | PRINT, MALLOC and FREE evaluate their first argument (its value before, when it can be evaluated again); PRINT appends it to the output, MALLOC records a block of that size at the next host allocation and memoizes the address, FREE reports an address that is not a base |
| `Env.Environment.PushFrame` | ast-interpreter/Environment.h:472-484 | pushes one fresh frame that has not returned, memoizes nothing and holds return value 0; it binds exactly the callee's parameters, each to the value of the argument in its position (when a parameter appears twice, the later position wins); in a plain call those are the arguments' values before and the caller's bindings are unchanged |
| `Env.Environment.BindParams` | ast-interpreter/Environment.h:476-482 | the new frame binds the parameters to the arguments' values, in order; in a plain call those are the values before and the caller's bindings are unchanged |
| `Env.Environment.BindParam` | ast-interpreter/Environment.h:477-481 | binds one parameter to its argument's value, 0 when it is missing; in a plain call that is the value before, and the later arguments keep theirs |
| `Env.Environment.DeclareParam` | ast-interpreter/Environment.h:479-481 | vardecl on the parameter, then the argument's value bound over it: the frame binds the parameter to the value, and without an initializer nothing else changes |
| `Env.Environment.Argument` | ast-interpreter/Environment.h:476-478 | a missing argument reads 0 and changes nothing; an argument that can be evaluated again yields its value before and changes only its own memo entries |
| `Walker.PureFacts` | ast-interpreter/Environment.h:176-219 | a pure expression can be evaluated again by `expr`, reads and writes only its own nodes' memo entries, and holds no loop or call |
| `Walker.PureParts` | ast-interpreter/ASTInterpreter.cpp:85-107 | the operands of a pure operator or parenthesis are pure, with disjoint ids among the expression's own |
| `Walker.PureInitIndependent` | ast-interpreter/ASTInterpreter.cpp:161-168 | in a declaration statement whose initializers are pure with disjoint ids, an initializer that looks up none of the statement's variables is independent of the others |
| `Walker.CompoundAssignStoresRight` | ast-interpreter/Environment.h:250-251 | an `op=` assignment stores its right side, as binop does: `x += 2` with x == 5 leaves x == 2, not 7 |
| `Walker.SiblingsKept` | ast-interpreter/ASTInterpreter.cpp:98 | visiting one of several pure operands with disjoint ids leaves the values of the others unchanged |
| `Walker.PureArgsPlain` | ast-interpreter/ASTInterpreter.cpp:150-151 | pure arguments make a plain call, so call reads back each argument's value |
| `Walker.SimpleStraight` | ast-interpreter/ASTInterpreter.cpp:71-143 | a simple statement (an if, return, assignment or block built from pure parts) holds no loop or call, so its visit cannot run out of fuel |
| `Walker.PureChildrenExec` | ast-interpreter/ASTInterpreter.cpp:155 | pure children form a simple block, and running them leaves the flow as it was |
| `Walker.SimpleLoopStraight` | ast-interpreter/ASTInterpreter.cpp:21-69 | a loop whose condition is pure and whose other parts are simple holds no loop or call in its parts |
| `Walker.ReturnedSkips` | ast-interpreter/ASTInterpreter.cpp:72-74 | once the frame has returned, the rest of a block changes nothing |
| `Walker.ReturnEndsBlock` | ast-interpreter/ASTInterpreter.cpp:136-143 | a return in a block decides what the block leaves: the statements after it change nothing, and the frame ends returned |
| `Walker.ReturnInBlock` | ast-interpreter/ASTInterpreter.cpp:136-143 | a simple block holding a return, run from any statement up to it, ends with the frame returned |
| `Walker.IterateSplit` | ast-interpreter/ASTInterpreter.cpp:28-35 | running a loop for a + b rounds is running it for a rounds, then for b more from where it stopped |
| `Walker.Visitor.constructor` | ast-interpreter/ASTInterpreter.cpp:17-18 | the walker uses the given environment and has fuel left |
| `Walker.Visitor.Visit` | ast-interpreter/ASTInterpreter.cpp:15-197 | dispatches on the node kind. Every visit keeps the stack, never removes a binding and only appends to the output, and once the frame has returned or fuel ran out it changes nothing. A pure expression changes only its own memo entries, and its memo and `expr`'s value afterwards are its meaning before. In a function's frame, a simple statement leaves the heap and output unchanged and ends in the bindings, returned flag and return value that `Exec` gives from the state before. A return marks the frame returned, with a pure value's meaning. PRINT appends its pure argument's meaning. A call to a user function whose body is simple memoizes the return value `BodyRun` gives, from the parameters bound to the arguments' meanings |
| `Walker.Visitor.VisitExpression` | ast-interpreter/ASTInterpreter.cpp:85-193 | the dispatch on expressions, with Visit's guarantees for expressions: pure ones, assignments to a variable (as `Exec` gives them), PRINT, and calls whose body is simple (as `BodyRun` gives them) |
| `Walker.Visitor.VisitStatement` | ast-interpreter/ASTInterpreter.cpp:21-168 | the dispatch on statements. A statement free of loops and calls never runs out of fuel, a declaration binds every bindable variable, and a return marks the frame returned with its pure value's meaning. In a function's frame, a simple statement ends in the state `Exec` gives |
| `Walker.Visitor.VisitChildren` | ast-interpreter/ASTInterpreter.cpp:155 | VisitStmt. When every child is simple, in a function's frame: the heap and output are unchanged, and the bindings, returned flag and return value are those `ExecFrom` gives by running the children in order from the state before. Leaf children leave every binding and the heap unchanged. For pure children with disjoint ids, only their memo entries change, and each one's value afterwards is its meaning before |
| `Walker.Visitor.VisitEach` | ast-interpreter/ASTInterpreter.cpp:155 | the loop over children of any kind keeps the stack, never removes a binding, only appends to the output, and runs out of fuel only in a loop or call. When every child is simple, in a function's frame it ends in the state `ExecFrom` gives by running the children in order |
| `Walker.Visitor.VisitPureChildren` | ast-interpreter/ASTInterpreter.cpp:98 | the loop over pure children changes only their memo entries, and each child's value afterwards is its meaning before |
| `Walker.Visitor.VisitIntegerLiteral` | ast-interpreter/ASTInterpreter.cpp:181-186 | memoizes the literal and changes nothing else; once the frame has returned, nothing |
| `Walker.Visitor.VisitCharacterLiteral` | ast-interpreter/ASTInterpreter.cpp:188-193 | memoizes the character and changes nothing else; once the frame has returned, nothing |
| `Walker.Visitor.VisitSizeOf` | ast-interpreter/ASTInterpreter.cpp:170-179 | memoizes 8 and changes nothing else; once the frame has returned, nothing |
| `Walker.Visitor.VisitDeclRef` | ast-interpreter/ASTInterpreter.cpp:108-115 | memoizes the variable's value (integer and pointer references only) and changes nothing else; once the frame has returned, nothing |
| `Walker.Visitor.VisitParen` | ast-interpreter/ASTInterpreter.cpp:85-91 | visits the operand, then memoizes its value, which for a pure operand is its meaning before; nothing but the expression's memo entries changes |
| `Walker.Visitor.VisitUnary` | ast-interpreter/ASTInterpreter.cpp:101-107 | visits the operand, then memoizes `+`, `-` or the loaded word (-1 at an invalid address); for a pure operand the operand's value and the memo are the meanings before |
| `Walker.Visitor.VisitBinary` | ast-interpreter/ASTInterpreter.cpp:93-100 | visits both operands, then memoizes the kernel's result of their values or assigns; for a pure operator both operand values and the result are their meanings before; after an assignment to a variable it holds the right side's value, its meaning before when the operands are pure; in a function's frame such an assignment changes the bindings as `Exec` gives them, through the two-tier lookup, and leaves the heap and output unchanged |
| `Walker.Visitor.VisitArraySubscript` | ast-interpreter/ASTInterpreter.cpp:117-125 | visits the array and the index, then memoizes the word i places past the array's handle, i being the index's meaning before when it is pure |
| `Walker.Visitor.VisitCast` | ast-interpreter/ASTInterpreter.cpp:127-134 | visits the operand; a cast to an integer type is memoized, and over an implicit pointer load the missing memo is logged and 0 memoized; for a pure cast `expr` reads back the operand's meaning |
| `Walker.Visitor.VisitDeclStmt` | ast-interpreter/ASTInterpreter.cpp:161-168 | binds every bindable variable in the current frame; when the initializers are pure and have disjoint ids, constant initializers are bound, each variable whose initializer looks up none of the statement's variables holds that initializer's meaning before the statement (so the initializers are visited first), and no other binding changes |
| `Walker.Visitor.VisitReturn` | ast-interpreter/ASTInterpreter.cpp:136-143 | visits the value, records it (a pure value's meaning before) and marks the frame returned; in a function's frame a return of a pure value, or of none, ends in the state `Exec` gives |
| `Walker.Visitor.VisitIf` | ast-interpreter/ASTInterpreter.cpp:71-83 | evaluates the condition. The branch taken is the then-branch exactly when the value is 1, otherwise the else-branch if there is one, and none once the frame has returned or fuel ran out. A pure condition's value is its meaning before; when no branch is taken only memo entries change; a return taken marks the frame returned. For a simple if in a function's frame, the state afterwards is `Exec`'s: the branch the condition's meaning selects, run from the state before |
| `Walker.Visitor.VisitWhile` | ast-interpreter/ASTInterpreter.cpp:21-36 | every condition value but the last is 1, and at most fuel + 1 are evaluated. Unless the frame returned or fuel ran out, the last value is not 1. A pure condition's first value is its meaning before the loop and its last its meaning at the end. With parts free of loops and calls, fuel runs out only after fuel + 1 values. For a pure condition and a simple body in a function's frame, the heap and output are unchanged, and the state is `Iterate`'s for fuel rounds: the body runs while the condition means 1 and the frame has not returned. Fuel runs out exactly when that loop had not stopped |
| `Walker.Visitor.RunLoop` | ast-interpreter/ASTInterpreter.cpp:25-35 | a loop with a condition: the condition tested once, then the loop, with the trace of condition values and the `Iterate` state of VisitWhile |
| `Walker.Visitor.Loop` | ast-interpreter/ASTInterpreter.cpp:28-35 | given the condition's first value, runs rounds while the last value is 1. Every value but the last is 1, and the last is not 1 unless the frame returned or fuel ran out. A returned frame keeps its return value. For a simple loop in a function's frame, the state reached is `Iterate`'s for fuel rounds, and fuel runs out exactly when that loop had not stopped |
| `Walker.Visitor.Step` | ast-interpreter/ASTInterpreter.cpp:29-31 | one round, then the condition again: its value unless fuel ran out during the round, a pure condition's value being its meaning then. For a simple loop in a function's frame, the state is `RoundExec`'s, and the loop stops there exactly when the frame returned or the value is not 1 |
| `Walker.Visitor.ForInit` | ast-interpreter/ASTInterpreter.cpp:43-44 | corrected: the init clause runs, so `i = e` assigns e's value (its meaning before, for a pure e) and `int i = 0` declares i. A simple init clause in a function's frame ends in the state `Exec` gives |
| `Walker.Visitor.ForInitAsWritten` | ast-interpreter/ASTInterpreter.cpp:43-44 | as written, only the init clause's children are visited: `i = 0` leaves i as it was and `int i = 0` binds nothing |
| `Walker.Visitor.VisitFor` | ast-interpreter/ASTInterpreter.cpp:38-69 | runs the init clause once. With a condition, every condition value but the last is 1 and, unless the frame returned or fuel ran out, the last one is not 1; a pure condition's last value is its meaning at the end. Without a condition the loop ends only once the frame has returned or fuel ran out. For a simple loop in a function's frame, the state is `Iterate`'s for fuel rounds of body then increment, from the state the init clause's `Exec` leaves |
| `Walker.Visitor.Round` | ast-interpreter/ASTInterpreter.cpp:52-53 | one round, the body then the increment. A returned frame stays returned with its value, and no binding is removed. Without loops or calls, fuel does not run out. For a simple loop in a function's frame, the state is `RoundExec`'s |
| `Walker.Visitor.Clause` | ast-interpreter/ASTInterpreter.cpp:29 | the visit of a block's statement, a loop body or an increment. Once the frame has returned or fuel ran out it changes nothing; a leaf changes no binding and no heap word; a returned frame stays returned with its value, no binding is removed, and a return marks the frame returned. A simple clause in a function's frame ends in the state `Exec` gives |
| `Walker.Visitor.Test` | ast-interpreter/ASTInterpreter.cpp:30-31 | visits the condition and reads its value back: 0 or 1 for a comparison, and for a pure condition its meaning before, with only memo entries changed |
| `Walker.Visitor.ReadBack` | ast-interpreter/ASTInterpreter.cpp:27 | `expr` on a condition just visited: 0 or 1 for a comparison, and for a pure condition the value it held, with no binding or heap word changed |
| `Walker.Visitor.ForEver` | ast-interpreter/ASTInterpreter.cpp:60-67 | the loop of a `for` without a condition stops only once the frame has returned or fuel ran out, after exactly fuel rounds when its parts hold no loop or call. For a simple loop in a function's frame, the state is `Iterate`'s for fuel rounds, which only a return stops |
| `Walker.Visitor.VisitCall` | ast-interpreter/ASTInterpreter.cpp:145-159 | visits the arguments and calls. A user function's body runs in a fresh frame binding each parameter to its argument's value, pure arguments giving their meanings before. That frame is popped, so the stack ends as it began, and the call node memoizes the callee's return value (0 when no return ran) unless it is noreturn. For a simple body with fuel left, the callee's final bindings, flag and return value, and the globals, are those `BodyRun` gives from the parameters bound to the arguments' meanings, and the memo is that return value. PRINT appends its pure argument's meaning to the output |
| `Walker.Visitor.CallAndReturn` | ast-interpreter/ASTInterpreter.cpp:151-158 | call, then for a user function the body and ret. The argument values are those `expr` reads back before the call. For a simple body with fuel left, the callee's final state and the globals are those `BodyRun` gives from the parameters bound to those values |
| `Walker.Visitor.CallUser` | ast-interpreter/ASTInterpreter.cpp:151-158 | the path of a user function. Its frame is fresh and binds the parameters to the arguments, and the caller's frame, returned flag and return value are as they were. For a simple body with fuel left, the callee's final state and the globals are those `BodyRun` gives |
| `Walker.Visitor.Enter` | ast-interpreter/Environment.h:472-484 | call on a user function pushes a fresh frame above the caller, with the parameters bound to the arguments' values; in a plain call the globals are unchanged |
| `Walker.Visitor.RunCallee` | ast-interpreter/ASTInterpreter.cpp:152-158 | walks the body in the pushed frame, then pops it: the caller is on top again with its flag and return value, and the call node memoizes the callee's return value. For a simple body with fuel left, the heap and output are unchanged, and the callee's final bindings, flag and return value, and the globals, are those `ExecFrom` gives over the body from the frame as pushed |
| `Walker.Interpret` | ast-interpreter/ASTInterpreter.cpp:205-211 | runs init, then walks the body of the last definition of main in the second frame. Every bindable global is bound, to its constant when global initializers have no side effects. Without main nothing runs, and a main free of loops and calls never runs out of fuel. For a simple main, the output stays empty, and main's frame and the globals end as `BodyRun` gives them: from an empty frame and the globals init left; a simple main with a return among its statements ends with its frame returned |

## Findings

| source | as written | input that shows it | evidently intended | confidence | as-written member | corrected member |
|---|---|---|---|---|---|---|
| ast-interpreter/Environment.h:295-304 | `%` is a multiplicative operator, and every multiplicative operator other than `*` divides | `7 % 2` evaluates to 3 | the C remainder, 1 | not executed | `Arith.RemainderAsWrittenIsQuotient` | `Arith.DivRemIdentity` |
| ast-interpreter/Environment.h:282-288 | the else-if that should scale the left operand repeats the first test, so it can never run | with `int *p`, `1 + p` moves p by one byte and `p + 1` by eight | `1 + p` equals `p + 1` | not executed | `Arith.AdditiveAsWrittenIgnoresLeftInteger` | `Arith.PointerOffset` |
| ast-interpreter/ASTInterpreter.cpp:43-44 | the init clause of a `for` is passed to VisitStmt, which visits only its children | `for (i = 0; i < 3; i = i + 1)` starts from i's previous value; `for (int i = 0; ...)` never binds i | the init clause runs once | not executed | `Walker.Visitor.ForInitAsWritten` | `Walker.Visitor.ForInit` |

The rest of the model uses the corrected kernels, `Arith.Additive` and
`Arith.Multiplicative`, and `VisitFor` runs its init clause through `ForInit`.

## Left out

- The clang front end is replaced by `Ast.Node`. Implicit casts are dropped, and an explicit cast's operand is taken as written. One implicit cast matters: under an explicit integer cast of a pointer variable, as in `(long)p`, the lvalue-to-rvalue cast has pointer type, so `cast` memoizes nothing for it and the explicit cast reads a missing memo, which trips the assertion at Environment.h:45. `Ast.PointerLvalue` marks that case; the model logs the missing memo and memoizes 0. The memo entries of other implicit casts are never read. An array operand's decay to a pointer is kept as `Ast.OperandTy`. A function's identity is an integer, shared by all its redeclarations.
- The callee expression of a call is not a child in the model. Visiting it memoizes nothing: the function reference has function type, and its decay cast has pointer type, for which `cast` does nothing (Environment.h:418-420).
- The program counter (`setPC`, `getPC`) is written but never read, so it is not modelled. `getEntry` and `isCurFuncReturned` become reads of `entry` and of the top frame's flag.
- I/O: `scanf`, `llvm::errs` and `printf` become an input sequence of integers, an output sequence and a log of diagnostics. Input that is not an integer is not modelled.
- Host memory is a map from address to word. A stored word occupies only its own address, so the overlap of words less than 8 bytes apart is not modelled. Memory never written reads 0, where the host gives no guarantee. The host's `free` is not modelled, and neither is its effect on an address that was not allocated.
- The host allocator is the parameter `hostAlloc`. The model does not assume its addresses are fresh; `HeapSim.MallocValidity` states what a fresh base gives.
- Machine integers: values are unbounded. The model does not capture 64-bit overflow, the `int` size parameter of `Heap::Malloc`, or the narrowing of a condition value to `int` before it is compared with 1.
- Assertion failures and crashes become a logged diagnostic and the model carries on. This covers a missing binding or memo (which yields 0), a subscript whose base is not a variable (skipped), and a zero divisor (which yields 0, where the host traps).
- A `return` without a value and a `for` without an increment make the source call `Visit` on a null node; the model skips that visit. A missing `main`, or a `main` without a body, makes the source dereference a null pointer; the model walks nothing.
- A call with fewer arguments than parameters trips an assertion in clang; the model reads a missing argument as 0.
- The operand of `sizeof` is not modelled, and neither are `alignof` and the other type-trait operators.
- Walker.Visitor.VisitWhile: the loop is bounded by fuel, so a program that loops forever is cut off and `exhausted` is set instead of running on. The state it leaves is stated (`Walker.Iterate`) only for a pure condition and a simple body; otherwise only the trace of condition values and the frame clauses.
- Walker.Visitor.VisitFor: bounded by fuel in the same way; a loop without a condition that never returns ends with `exhausted` set. The state it leaves is stated only when its parts are simple, as for VisitWhile.
- Walker.Visitor.ForEver: the state it leaves is stated only when its parts are simple.
- Walker.Visitor.VisitCall: a call body is walked with one unit less fuel, and with none left it is skipped and `exhausted` is set, so unbounded recursion is cut off.
- Walker.Visitor.Visit: the state a visit leaves is stated only for pure expressions, simple statements (`Walker.Exec`), returns, PRINT, and calls whose body is simple; other nodes get the frame clauses.
- Walker.Visitor.VisitExpression: the same scope as Visit, for expressions.
- Walker.Visitor.VisitStatement: the same scope as Visit, for statements; a declaration's bindings are stated as in VisitDeclStmt.
- Walker.PureExpr: the values that visits leave are stated only for pure expressions. An expression holding an assignment, a call or an unsupported operator, or whose operands share node ids, gets only the frame clauses (stack, bindings never removed, output only grows).
- Walker.Visitor.VisitBinary: for an assignment through `a[i]` or `*p`, the index and address are tied to their values in `Env.Environment.BinaryOp`, not lifted to meanings in the walker.
- Walker.Visitor.VisitDeclStmt: bound values are stated for constant initializers and for pure ones that look up none of the statement's own variables; an initializer that reads a variable declared earlier in the same statement (`int a = 1, b = a;`) gets no value clause.
- Env.Environment.Decl: values only for constant and independent initializers, and only when no initializer has side effects.
- Env.Environment.Init: the values of globals are stated only for constant initializers, and only when no global initializer has side effects.
- Walker.Interpret: what main's body computes is stated only when the body is simple (`Walker.SimpleBody`); otherwise only the guarantees of each visit hold. The walk is bounded by fuel.
- Walker.Exec: an `op=` assignment stores the right side's meaning, as binop does for every assignment operator (ast-interpreter/Environment.h:250-251), not the result of the operator as C would (`Walker.CompoundAssignStoresRight`); the statement semantics is the program's, not C's, on this point.
- Walker.Exec: the statement semantics covers only simple statements. A block, loop or function body holding a declaration, a nested loop, a call or an assignment through `a[i]` or `*p` gets only the frame clauses (stack kept, bindings never removed, output only grows); for such statements `Exec` leaves the flow as it is and is not their meaning. The semantics is stated in a function's frame, not at the global level, where the current frame is the global one.
- Env.Environment.DeclareGlobals: the values of globals are stated only for constant initializers, and only when no global initializer has side effects.
