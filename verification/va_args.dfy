/**
 The argument list of a variadic call. C passes it untyped; here each argument
 carries the type the caller actually passed (after the default argument
 promotions of section 6.5.2.2 paragraph 7 of ISO/IEC 9899:2011: a `char`
 arrives as an `int`, a `float` as a `double`), so that a `va_arg` read of a
 different type can be detected instead of being undefined behaviour
 (section 7.16.1.1 paragraph 2 of ISO/IEC 9899:2011).
 */
module VaArgs {
  import opened CInt

  /**
   A `double` argument. Its value is only passed along and printed with `%f`,
   whose formatting is not modelled, so it is kept as the literal the caller
   wrote.
   */
  datatype Double = Double(literal: string)

  /** One argument of a variadic call, tagged with the type it was passed as. */
  datatype Arg =
    | IntArg(i: int32)           // an `int`, or a promoted `char`
    | DoubleArg(d: Double)       // a `double`
    | PtrArg(elems: seq<int32>)  // an `int *`: the elements of the array it points to
    | SizeArg(n: size_t)         // a `size_t`, such as the value of a `sizeof` division

  /** The type named in a `va_arg(args, T)` read. */
  datatype ArgType = IntType | DoubleType | PtrType

  /** True if reading `a` as `t` is defined: the types agree. */
  predicate HasType(a: Arg, t: ArgType) {
    match t
    case IntType => a.IntArg?
    case DoubleType => a.DoubleArg?
    case PtrType => a.PtrArg?
  }

  /** Why a variadic call is undefined: the `va_arg` read it gets stuck on. */
  datatype Undefined =
    | MissingArg(index: nat)                     // read past the last argument passed
    | WrongType(index: nat, expected: ArgType)   // the argument was passed with another type
    | OutOfBounds(index: nat, size: int)         // an array argument shorter than the size read after it

  /** The result of one `va_arg` read: the argument, or why reading it is undefined. */
  datatype Read = Got(arg: Arg) | Bad(why: Undefined)

  /**
   `va_arg(args, t)` with the cursor at `cur`: defined exactly when an
   argument is left and it was passed with type `t`.
   */
  function VaArg(args: seq<Arg>, cur: nat, t: ArgType): (r: Read)
    ensures r.Got? <==> cur < |args| && HasType(args[cur], t)
    ensures r.Got? ==> r.arg == args[cur]
    ensures r.Bad? ==> r.why.index == cur
  {
    if cur >= |args| then Bad(MissingArg(cur))
    else if !HasType(args[cur], t) then Bad(WrongType(cur, t))
    else Got(args[cur])
  }
}
