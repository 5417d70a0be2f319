/** The arithmetic kernels of Environment::binop (Environment.h:278-333):
    the only pure computations of the evaluator. Values are unbounded
    integers; the host's 64-bit `long` overflow is not modelled. */
module Arith {
  import opened Ast

  function Abs(x: int): nat { if x < 0 then -x else x }

  /** C's `/` on `long`: the quotient rounded toward zero. */
  function TruncDiv(a: int, b: int): int
    requires b != 0
  {
    if (a < 0) == (b < 0) then Abs(a) / Abs(b) else -(Abs(a) / Abs(b))
  }

  /** C's `%` on `long`: what is left after TruncDiv. */
  function TruncRem(a: int, b: int): int
    requires b != 0
  {
    a - TruncDiv(a, b) * b
  }

  /** The division identity of C: the quotient has the magnitude of
      |a| / |b| and the sign of a * b, and the remainder is smaller than the
      divisor and takes the sign of the dividend. */
  lemma {:induction false} TruncDivRem(a: int, b: int)
    requires b != 0
    ensures TruncDiv(a, b) * b + TruncRem(a, b) == a
    ensures Abs(TruncDiv(a, b)) == Abs(a) / Abs(b)
    ensures Abs(TruncRem(a, b)) == Abs(a) % Abs(b) < Abs(b)
    ensures TruncRem(a, b) != 0 ==> (TruncRem(a, b) < 0 <==> a < 0)
    ensures TruncDiv(a, b) != 0 ==> (TruncDiv(a, b) < 0 <==> (a < 0) != (b < 0))
  {
    var m := Abs(b);
    var q, r := Abs(a) / m, Abs(a) % m;
    assert Abs(a) == q * m + r && 0 <= r < m;
    SignedProduct(a, b, q, r);
  }

  /** The sign bookkeeping behind TruncDivRem, with the division by |b|
      already done: |a| == q * |b| + r. */
  lemma SignedProduct(a: int, b: int, q: int, r: int)
    requires b != 0 && q >= 0 && 0 <= r < Abs(b) && Abs(a) == q * Abs(b) + r
    ensures (if (a < 0) == (b < 0) then q else -q) * b == (if a < 0 then r - Abs(a) else Abs(a) - r)
  {
    var m := Abs(b);
    if b > 0 {
      assert (-q) * b == -(q * m);
    } else {
      assert q * b == -(q * m);
      assert (-q) * b == q * m;
    }
  }

  // ---- additive operators: `+` and `-` with pointer scaling ----

  /** The additive branch of binop as written: the right operand is scaled
      by the word size when only the left one is a pointer. The second test
      repeats the first, so the left operand is never scaled. */
  function AdditiveAsWritten(op: BinOp, lptr: bool, rptr: bool, l: int, r: int): int
    requires op.IsAdditive()
  {
    var l', r' :=
      if lptr && !rptr then l else if !rptr && lptr then l * WORD else l,
      if lptr && !rptr then r * WORD else r;
    if op == Add then l' + r' else l' - r'
  }

  /** The additive branch as evidently intended: whichever operand is the
      integer in a pointer/integer pair is scaled by the word size. */
  function Additive(op: BinOp, lptr: bool, rptr: bool, l: int, r: int): int
    requires op.IsAdditive()
  {
    var l' := if rptr && !lptr then l * WORD else l;
    var r' := if lptr && !rptr then r * WORD else r;
    if op == Add then l' + r' else l' - r'
  }

  /** int + pointer is left unscaled as written, so `k + p` and `p + k`
      disagree; with the left-pointer case the two versions agree. */
  lemma AdditiveAsWrittenIgnoresLeftInteger(op: BinOp, lptr: bool, rptr: bool, l: int, r: int)
    requires op.IsAdditive()
    ensures !lptr && rptr ==> AdditiveAsWritten(op, lptr, rptr, l, r) == (if op == Add then l + r else l - r)
    ensures lptr || !rptr ==> AdditiveAsWritten(op, lptr, rptr, l, r) == Additive(op, lptr, rptr, l, r)
    ensures AdditiveAsWritten(Add, false, true, 1, 1000) == 1001
    ensures AdditiveAsWritten(Add, true, false, 1000, 1) == 1008
  {
  }

  /** Pointer arithmetic: adding or subtracting k moves a pointer by k words,
      on whichever side the integer stands. */
  lemma PointerOffset(p: int, k: int)
    ensures Additive(Add, true, false, p, k) == p + k * WORD
    ensures Additive(Add, false, true, k, p) == p + k * WORD
    ensures Additive(Sub, true, false, p, k) == p - k * WORD
  {
  }

  /** `+` commutes once int + pointer is scaled. */
  lemma AdditiveCommutes(lptr: bool, rptr: bool, l: int, r: int)
    ensures Additive(Add, lptr, rptr, l, r) == Additive(Add, rptr, lptr, r, l)
  {
  }

  /** `(x + k) - k == x` for an integer k, whether x is a pointer or not. */
  lemma AddThenSub(xptr: bool, x: int, k: int)
    ensures Additive(Sub, xptr, false, Additive(Add, xptr, false, x, k), k) == x
  {
  }

  // ---- multiplicative operators ----

  /** The multiplicative branch as written: `*` multiplies and every other
      multiplicative operator, `%` included, divides. The divisor is not
      checked; the caller keeps a zero divisor away. */
  function MultiplicativeAsWritten(op: BinOp, l: int, r: int): int
    requires op.IsMultiplicative() && (op != Mul ==> r != 0)
  {
    if op == Mul then l * r else TruncDiv(l, r)
  }

  /** The multiplicative branch as evidently intended: `%` is the C
      remainder. */
  function Multiplicative(op: BinOp, l: int, r: int): int
    requires op.IsMultiplicative() && (op != Mul ==> r != 0)
  {
    match op
    case Mul => l * r
    case Div => TruncDiv(l, r)
    case Rem => TruncRem(l, r)
  }

  /** As written, `7 % 2` evaluates to 3, the quotient. */
  lemma RemainderAsWrittenIsQuotient(l: int, r: int)
    requires r != 0
    ensures MultiplicativeAsWritten(Rem, l, r) == TruncDiv(l, r)
    ensures MultiplicativeAsWritten(Rem, 7, 2) == 3 && Multiplicative(Rem, 7, 2) == 1
  {
  }

  /** The corrected `/` and `%` satisfy C's identity (a/b)*b + a%b == a,
      with the remainder smaller than the divisor and signed like a. */
  lemma {:induction false} DivRemIdentity(l: int, r: int)
    requires r != 0
    ensures Multiplicative(Div, l, r) * r + Multiplicative(Rem, l, r) == l
    ensures Abs(Multiplicative(Rem, l, r)) < Abs(r)
    ensures Multiplicative(Rem, l, r) != 0 ==> (Multiplicative(Rem, l, r) < 0 <==> l < 0)
  {
    TruncDivRem(l, r);
  }

  // ---- comparisons ----

  /** Whether a comparison operator holds of two values. */
  predicate Holds(op: BinOp, l: int, r: int)
    requires op.IsComparison()
  {
    match op
    case Gt => l > r
    case Lt => l < r
    case Eq => l == r
    case Ge => l >= r
    case Le => l <= r
    case Ne => l != r
  }

  /** The comparison branch of binop: 1 when the comparison holds, 0 when
      it does not. */
  function Compare(op: BinOp, l: int, r: int): (res: int)
    requires op.IsComparison()
    ensures res == 0 || res == 1
    ensures res == 1 <==> Holds(op, l, r)
  {
    if Holds(op, l, r) then 1 else 0
  }

  /** The six comparisons are the complements and mirrors of each other. */
  lemma CompareDuality(l: int, r: int)
    ensures Compare(Ne, l, r) == 1 - Compare(Eq, l, r)
    ensures Compare(Ge, l, r) == 1 - Compare(Lt, l, r)
    ensures Compare(Le, l, r) == 1 - Compare(Gt, l, r)
    ensures Compare(Gt, l, r) == Compare(Lt, r, l)
    ensures Compare(Eq, l, r) == Compare(Eq, r, l)
  {
  }
}
