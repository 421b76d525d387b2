/**
 The function-pointer example of func_ptr/array: four operations
 (functions.c) that each print one line about two `int` operands, a table
 `operations[4]` holding them in the order add, subtract, multiply, divide,
 and a dispatch in `main` that calls `operations[choice](a, b)` for a choice
 in 0..3 and otherwise reports an invalid choice. The operands and the choice
 come from `scanf` in the program and are parameters here.
 */
module ArithmeticTable {
  import opened CInt

  datatype Op = Add | Subtract | Multiply | Divide

  /** The one line an operation or the dispatch prints. */
  datatype Line =
    | Report(op: Op, a: int32, b: int32, value: int32)  // "Addition: a + b = value" and its siblings
    | DivisionByZero                                    // "Error: Division by zero!"
    | InvalidChoice                                     // "Invalid choice!"

  /**
   What `v` must be for a report of `op` on `a` and `b` to be right, stated
   through each operation's inverse or characterisation rather than by
   computing it: the sum gives back `a` when `b` is subtracted, the
   difference when `b` is added, the product has the magnitude and sign of
   `a * b`, and the quotient leaves a remainder smaller than `b` that is zero
   or has the sign of `a` (section 6.5.5 paragraph 6 of ISO/IEC 9899:2011).
   */
  ghost predicate Denotes(op: Op, a: int, b: int, v: int) {
    match op
    case Add => v - b == a
    case Subtract => v + b == a
    case Multiply =>
      && (v == 0 <==> a == 0 || b == 0)
      && Abs(v) == Abs(a) * Abs(b)
      && (v < 0 <==> v != 0 && (a < 0) != (b < 0))
    case Divide =>
      && b != 0
      && Abs(a - v * b) < Abs(b)
      && (a - v * b == 0 || (a - v * b < 0 <==> a < 0))
  }

  /** `add(a, b)`: reports `a + b`. */
  function AddLine(a: int32, b: int32): (line: Line)
    requires InInt32(a + b)
    ensures line.Report? && line.op == Add && line.a == a && line.b == b
    ensures line.value - b == a
  {
    Report(Add, a, b, a + b)
  }

  /** `subtract(a, b)`: reports `a - b`. */
  function SubtractLine(a: int32, b: int32): (line: Line)
    requires InInt32(a - b)
    ensures line.Report? && line.op == Subtract && line.a == a && line.b == b
    ensures line.value + b == a
  {
    Report(Subtract, a, b, a - b)
  }

  /** `multiply(a, b)`: reports `a * b`. */
  function MultiplyLine(a: int32, b: int32): (line: Line)
    requires InInt32(a * b)
    ensures line.Report? && line.op == Multiply && line.a == a && line.b == b
    ensures line.value == 0 <==> a == 0 || b == 0
    ensures Abs(line.value) == Abs(a) * Abs(b)
    ensures line.value < 0 <==> line.value != 0 && (a < 0) != (b < 0)
  {
    ProductSign(a, b);
    Report(Multiply, a, b, a * b)
  }

  /**
   `divide(a, b)`: for a non-zero divisor, reports the quotient truncated
   toward zero; for a zero divisor, reports the error and divides nothing.
   `INT_MIN / -1` overflows, which C leaves undefined.
   */
  function DivideLine(a: int32, b: int32): (line: Line)
    requires !(a == INT_MIN && b == -1)
    ensures line.DivisionByZero? <==> b == 0
    ensures line.Report? ==> line.op == Divide && line.a == a && line.b == b
    ensures line.Report? ==>
      Abs(a - line.value * b) < Abs(b) && (a - line.value * b == 0 || (a - line.value * b < 0 <==> a < 0))
  {
    if b != 0 then
      QuotFits(a, b);
      QuotRemainder(a, b);
      Report(Divide, a, b, Quot(a, b))
    else
      DivisionByZero
  }

  /** The arguments for which calling `op` is defined (no signed overflow). */
  ghost predicate Defined(op: Op, a: int32, b: int32) {
    match op
    case Add => InInt32(a + b)
    case Subtract => InInt32(a - b)
    case Multiply => InInt32(a * b)
    case Divide => !(a == INT_MIN && b == -1)
  }

  /** Calling the function `op` stands for. */
  function Call(op: Op, a: int32, b: int32): (line: Line)
    requires Defined(op, a, b)
    ensures line != InvalidChoice
    ensures line.Report? ==> line.op == op && line.a == a && line.b == b
    ensures line.Report? ==> Denotes(op, a, b, line.value)
    ensures line.DivisionByZero? <==> op == Divide && b == 0
  {
    match op
    case Add => AddLine(a, b)
    case Subtract => SubtractLine(a, b)
    case Multiply => MultiplyLine(a, b)
    case Divide => DivideLine(a, b)
  }

  /** `operations[4] = {add, subtract, multiply, divide}`. */
  const Operations: seq<Op> := [Add, Subtract, Multiply, Divide]

  /** The menu number `main` prints for each operation. */
  function MenuIndex(op: Op): (i: nat)
    ensures i < |Operations| && Operations[i] == op
  {
    match op
    case Add => 0
    case Subtract => 1
    case Multiply => 2
    case Divide => 3
  }

  /** The table holds each operation once, at its menu number. */
  lemma TableMatchesMenu()
    ensures forall i :: 0 <= i < |Operations| ==> MenuIndex(Operations[i]) == i
  {
  }

  /**
   The dispatch of `main`: for `0 <= choice < 4` exactly `operations[choice]`
   is called on the operands; any other choice prints "Invalid choice!" and
   calls nothing.
   */
  function Dispatch(choice: int32, a: int32, b: int32): (line: Line)
    requires 0 <= choice < |Operations| ==> Defined(Operations[choice], a, b)
    ensures line == InvalidChoice <==> !(0 <= choice < |Operations|)
    ensures line.Report? ==> MenuIndex(line.op) == choice && line.a == a && line.b == b
    ensures line.Report? ==> Denotes(line.op, a, b, line.value)
    ensures line == DivisionByZero <==> choice == MenuIndex(Divide) && b == 0
  {
    if choice >= 0 && choice < 4 then
      Call(Operations[choice], a, b)
    else
      InvalidChoice
  }

  /**
   A report is determined by the operation and its operands: no two values
   are right for the same call. For division this is the uniqueness of the
   truncated quotient.
   */
  lemma DenotesUnique(op: Op, a: int, b: int, v: int, w: int)
    requires Denotes(op, a, b, v) && Denotes(op, a, b, w)
    ensures v == w
  {
    if op == Divide && v != w {
      var r, s := a - v * b, a - w * b;
      assert s - r == (v - w) * b;
      AtLeastOnce(v - w, b);
      // Both remainders lie on the side of zero a lies on, and below b in
      // magnitude, so they cannot be |b| or more apart.
      assert false;
    }
  }

  /** Subtracting what was added gives back the first operand. */
  lemma AddThenSubtract(a: int32, b: int32)
    requires InInt32(a + b)
    ensures var sum := AddLine(a, b).value; SubtractLine(sum, b).value == a
  {
  }

  /** Dividing a product by a non-zero factor gives back the other factor: no rounding happens. */
  lemma MultiplyThenDivide(a: int32, b: int32)
    requires InInt32(a * b) && b != 0
    ensures var product := MultiplyLine(a, b).value; DivideLine(product, b) == Report(Divide, product, b, a)
  {
    var product := MultiplyLine(a, b).value;
    var line := DivideLine(product, b);
    var q := line.value;
    // product - q * b == (a - q) * b is a remainder smaller than b, so it is 0.
    assert product - q * b == (a - q) * b;
    if a != q {
      AtLeastOnce(a - q, b);
    }
  }

  lemma AtLeastOnce(k: int, b: int)
    requires k != 0 && b != 0
    ensures Abs(k * b) >= Abs(b)
  {
    ProductSign(k, b);
    MulAtLeast(Abs(b), Abs(k), 1);
  }

  /** C's division truncates where Dafny's rounds down: -7 / 2 is -3 in C and -4 in Dafny. */
  lemma TruncationDiffersFromEuclid()
    ensures DivideLine(-7, 2).value == -3 && -7 / 2 == -4
  {
  }
}
