/**
 * Element arithmetic and the error vocabulary shared by the host library
 * (la.h) and the device runtime (iopp.cpp).
 *
 * la.h is a template over the element type T; the final typedefs pick
 * float. The model instantiates T with mathematical integers, so the four
 * element operators are exact; division is C++ integer division, which
 * truncates toward zero and is undefined for a zero divisor.
 */
module Elements {

  /** The four element-wise operators `+ - * /` of `_vec` and `_mat`. */
  datatype Op = Add | Sub | Mul | Div

  function Abs(x: int): nat { if x < 0 then -x else x }

  /** C++ `/` on integers: the quotient truncated toward zero. */
  function TruncDiv(x: int, y: int): (q: int)
    requires y != 0
    ensures Abs(x - q * y) < Abs(y)
    ensures x - q * y == 0 || (x - q * y < 0 <==> x < 0)
    ensures Abs(q * y) <= Abs(x)
  {
    var q := if (x < 0) == (y < 0) then Abs(x) / Abs(y) else -(Abs(x) / Abs(y));
    TruncDivRemainder(x, y, q);
    q
  }

  /** The remainder left by the truncated quotient has the sign of `x`. */
  lemma TruncDivRemainder(x: int, y: int, q: int)
    requires y != 0
    requires q == if (x < 0) == (y < 0) then Abs(x) / Abs(y) else -(Abs(x) / Abs(y))
    ensures x - q * y == (if x < 0 then -(Abs(x) % Abs(y)) else Abs(x) % Abs(y))
    ensures Abs(q * y) == Abs(x) / Abs(y) * Abs(y)
  {
    var m, r := Abs(x) / Abs(y), Abs(x) % Abs(y);
    assert Abs(x) == m * Abs(y) + r;
    assert m >= 0;
    assert q * y == (if x < 0 then -(m * Abs(y)) else m * Abs(y));
  }

  /** Whether `x op y` is defined: only division has a precondition. */
  predicate Defined(op: Op, y: int) { op == Div ==> y != 0 }

  /**
   * The value `x op y` that `a[i] op= y` stores: addition is undone by
   * subtraction and the other way round, and division leaves a remainder
   * smaller than the divisor that never exceeds `x` in magnitude.
   */
  function Apply(op: Op, x: int, y: int): (r: int)
    requires Defined(op, y)
    ensures op == Add ==> r - y == x
    ensures op == Sub ==> r + y == x
    ensures op == Mul ==> r == y * x
    ensures op == Div ==> Abs(x - r * y) < Abs(y) && Abs(r * y) <= Abs(x)
  {
    match op
    case Add => x + y
    case Sub => x - y
    case Mul => x * y
    case Div => TruncDiv(x, y)
  }

  /** The string literals the C++ code throws. */
  datatype Error =
    | OperandSizeMismatch        // "operand size mismatch"
    | RowSizeMismatch            // "row size mismatch"
    | InvalidNumberOfDimensions  // "invalid number of dimensions"

  /** The outcome of an operation that returns nothing or throws. */
  datatype Outcome = Pass | Fail(error: Error)

  /** The outcome of an operation that returns a value or throws. */
  datatype Result<T> = Ok(value: T) | Err(error: Error)
}
