# C language examples: a Dafny model

A model of the small C programs that make up the core of a collection of C
language examples, and proofs about them:

- `print_all_args(format, ...)`: a format-tag interpreter over a
  NUL-terminated string. `d` reads an `int`, `c` reads an `int` (a promoted
  `char`) and prints it as a character, `f` reads a `double`, and `A` reads an
  `int *` and then an `int` size and prints that many elements. Any other
  character reads nothing. One newline follows the last tag. Its two call
  sites in `main` are modelled as well.
- `sum(count, ...)`: adds `count` `int` arguments.
- `Point`, `Rectangle`, `initialize`, `computeArea` and the global
  `globalCounter` of the header/source split example.
- The four arithmetic operations reached through an array of function
  pointers, and the range-checked dispatch on the user's choice.
- The fill loop of a struct with a flexible array member.
- `enum Day` and the `switch` that announces a day.

Variadic arguments are modelled as a list of arguments, each tagged with the
type the caller passed (`VaArgs.Arg`). A `va_arg` read of another type, or past
the last argument, is undefined behaviour in C (section 7.16.1.1 of
ISO/IEC 9899:2011). In the model it is a value, `VaArgs.Undefined`, so the
interpreter can be proved to be defined exactly when the caller keeps a
declarative contract (`VariadicPrint.Matches`).

`int` is the 32-bit two's-complement range (`CInt.int32`). Signed overflow is
undefined in C (section 6.5 paragraph 5), so every operation that could
overflow carries the condition that it does not. C's `/` truncates toward
zero, unlike Dafny's `/`; it is modelled as `CInt.Quot`.

Files: `c_int.dfy` (`CInt`), `va_args.dfy` (`VaArgs`),
`variadic_print.dfy` (`VariadicPrint`), `variadic_sum.dfy` (`VariadicSum`),
`geometry.dfy` (`Geometry`), `arithmetic_table.dfy` (`ArithmeticTable`),
`flexible_array.dfy` (`FlexibleArray`), `days.dfy` (`Days`).

## Model

| member | source | states |
|---|---|---|
| VariadicPrint.Tags | variadic_func/multiple_types/main.c:9-10 | the tags are free of NUL and shorter than the buffer |
| VariadicPrint.TagsPrefix | variadic_func/multiple_types/main.c:9-10 | the tags are exactly the characters before the first NUL of the buffer, which the loop stops at |
| VariadicPrint.Step | variadic_func/multiple_types/main.c:11-26 | one tag is defined exactly when the arguments at the cursor fit its reads; it advances the cursor by its number of reads; `d`, `c`, `f` print the argument read (`c` as an unsigned char); `A` prints the first `size` elements of the array, none when `size` is not positive; any other character reads and prints nothing |
| VariadicPrint.ArrayLoop | variadic_func/multiple_types/main.c:23-25 | the loop over an array prints `size - i` elements, none when `size <= i`, and element `k` printed is `arr[i + k]` |
| VariadicPrint.Walk | variadic_func/multiple_types/main.c:9-28 | a defined walk never moves the argument cursor backwards or past the last argument (what it reads and prints is stated by `WalkCursor`, `WalkMatches` and `WalkOutput`) |
| VariadicPrint.CursorsAt | variadic_func/multiple_types/main.c:10-27 | tag `k` starts reading at the cursor past the reads of the `k` tags before it |
| VariadicPrint.WalkOutput | variadic_func/multiple_types/main.c:10-28 | a defined walk prints, in tag order, what each remaining tag's step prints at the cursor it starts at, and nothing else |
| VariadicPrint.StepsDefined | variadic_func/multiple_types/main.c:10-28 | under the contract every tag's step is defined at the cursor it starts at, so each tag contributes exactly its step's output |
| VariadicPrint.WalkCursor | variadic_func/multiple_types/main.c:10-28 | a defined walk reads exactly one argument per read of the remaining tags and prints no newline |
| VariadicPrint.WalkMatches | variadic_func/multiple_types/main.c:10-28 | the walk is defined if and only if the arguments fit the reads of the remaining tags (the declarative contract) |
| VariadicPrint.Run | variadic_func/multiple_types/main.c:5-32 | the call is defined if and only if the caller keeps the contract; it then reads exactly the signature's number of arguments, prints exactly one newline, last, and before it the outputs of the tags' steps joined in tag order, tag `k`'s step at the cursor past the reads of the tags before it |
| VariadicPrint.PrintAllArgs | variadic_func/multiple_types/main.c:5-32 | under the contract, the output is the tags' step outputs joined in tag order, tag `k`'s step at the cursor past the reads of the tags before it, followed by the single newline, and agrees with the checked run |
| VariadicPrint.SignatureCount | variadic_func/multiple_types/main.c:11-26 | a string of tags reads one argument per `d`, `c`, `f` and two per `A` |
| VariadicPrint.ArgumentsConsumed | variadic_func/multiple_types/main.c:10-28 | a defined call consumes #d + #c + #f + 2 * #A arguments |
| VariadicPrint.StopsAtNul | variadic_func/multiple_types/main.c:10 | anything after the first NUL of the buffer changes neither the tags nor the run |
| VariadicPrint.UnreadArguments | variadic_func/multiple_types/main.c:10-28 | a defined call depends only on the arguments it reads: any list agreeing on them gives the same result |
| VariadicPrint.FdcCall | variadic_func/multiple_types/main.c:39 | the second call keeps the contract with no argument left over and prints the double, `100`, `z` and a newline |
| VariadicPrint.DcAdfCall | variadic_func/multiple_types/main.c:38 | the first call as written reads six arguments of five, breaks the contract, and is stuck on reading the `size_t` size as `int` |
| VariadicPrint.SizeArgCall | variadic_func/multiple_types/main.c:38 | with format `"dcAf"` the read count matches, but the `size_t` size still breaks the contract at the same read |
| VariadicPrint.DcAfCall | variadic_func/multiple_types/main.c:38 | the corrected first call keeps the contract with no argument left over and prints `42`, `a`, `1 2 3 4`, the double and a newline |
| VaArgs.VaArg | variadic_func/multiple_types/main.c:12 | a `va_arg` read is defined exactly when an argument is left and was passed with the type read, and then yields that argument |
| CInt.ToUnsignedChar | variadic_func/multiple_types/main.c:15-16 | `%c` prints the `int` converted to `unsigned char`: congruent modulo 256, unchanged when already in range |
| VariadicSum.Summands | variadic_func/main.c:9-10 | the values added are the first `count` arguments, none when `count <= 0` |
| VariadicSum.Sum | variadic_func/main.c:4-15 | the result is the sum of exactly the first `count` arguments, 0 when `count <= 0` |
| VariadicSum.TotalAppend | variadic_func/main.c:8-11 | the running total of two runs of arguments is the sum of their totals |
| VariadicSum.NoReadsWhenNotPositive | variadic_func/main.c:9 | a non-positive count reads nothing and is defined for any argument list |
| VariadicSum.SummandsIgnoreTail | variadic_func/main.c:9-10 | arguments after the first `count` are never read |
| VariadicSum.FirstCall | variadic_func/main.c:18 | `sum(3, 2, 3, 4)` keeps the contract and adds up to 9 |
| VariadicSum.SecondCall | variadic_func/main.c:19 | `sum(4, 5, 10, 15, 20)` keeps the contract and adds up to 50 |
| VariadicSum.SumCallSites | variadic_func/main.c:18-19 | the two calls return 9 and 50 |
| Geometry.Initialize | header_between_source_code/example.c:7-10 | the pointed-to point gets both coordinates and no other point changes |
| Geometry.InitializeOverwrites | header_between_source_code/example.c:7-10 | a second initialization of a point replaces the first; initializations of two different points commute |
| Geometry.ComputeArea | header_between_source_code/example.c:12-16 | the signed area is zero exactly for a flat rectangle, its magnitude is the product of the side lengths, and it is negative exactly when one pair of corners is inverted and the other is not |
| Geometry.AreaOfSwappedCorners | header_between_source_code/example.c:12-16 | swapping the two corners keeps the area, and keeps it defined unless a side is `INT_MIN` |
| Geometry.Increment | header_between_source_code/main.c:13 | `globalCounter++` yields one more than the counter |
| Geometry.HeaderDemo | header_between_source_code/main.c:4-17 | `main` initializes the point (10, 20), computes the area 200, and leaves the counter at 1 |
| CInt.ProductSign | header_between_source_code/example.c:15 | a product is zero exactly when a factor is, its magnitude is the product of magnitudes, and it is negative exactly when the signs differ |
| ArithmeticTable.AddLine | func_ptr/array/functions.c:5-7 | `add` reports its operands and a value from which subtracting `b` gives back `a` |
| ArithmeticTable.SubtractLine | func_ptr/array/functions.c:9-11 | `subtract` reports its operands and a value to which adding `b` gives back `a` |
| ArithmeticTable.MultiplyLine | func_ptr/array/functions.c:13-15 | `multiply` reports its operands and their product: zero exactly when a factor is zero, of magnitude the product of the magnitudes, negative exactly when the signs differ |
| ArithmeticTable.DivideLine | func_ptr/array/functions.c:17-23 | `divide` reports division by zero exactly when `b` is 0; otherwise it reports a quotient whose remainder is smaller than `b` in magnitude and is 0 or has the sign of `a` |
| CInt.Quot | func_ptr/array/functions.c:19 | C's quotient is no larger in magnitude than the dividend and is negative only for operands of different signs |
| CInt.QuotRemainder | func_ptr/array/functions.c:19 | the remainder left by C's quotient is smaller than the divisor in magnitude and is 0 or has the dividend's sign |
| CInt.QuotFits | func_ptr/array/functions.c:19 | the quotient of two `int`s is an `int` except exactly for `INT_MIN / -1` |
| ArithmeticTable.TruncationDiffersFromEuclid | func_ptr/array/functions.c:19 | `-7 / 2` is `-3` in C where Euclidean division gives `-4` |
| ArithmeticTable.AddThenSubtract | func_ptr/array/functions.c:5-11 | subtracting `b` from what `add` reports gives back `a` |
| ArithmeticTable.MultiplyThenDivide | func_ptr/array/functions.c:13-23 | dividing what `multiply` reports by a non-zero `b` gives back `a` exactly |
| ArithmeticTable.Call | func_ptr/array/main.c:23 | calling a table entry reports that operation on the operands with the value the operation denotes (the sum, difference, product or truncated quotient, each characterised by `Denotes`), and division by zero exactly for `divide` with `b` 0 |
| ArithmeticTable.MenuIndex | func_ptr/array/main.c:6 | each operation sits in the table at its menu number |
| ArithmeticTable.TableMatchesMenu | func_ptr/array/main.c:6 | each table entry's menu number is its index |
| ArithmeticTable.Dispatch | func_ptr/array/main.c:21-26 | an invalid choice is reported exactly for a choice outside 0..3; otherwise the operation at index `choice` runs on the unchanged operands and reports the value it denotes, and division by zero is reported exactly for choice 3 with `b` 0 |
| ArithmeticTable.DenotesUnique | func_ptr/array/functions.c:5-23 | each operation's characterisation fixes a single value, so what `Call` and `Dispatch` report is determined by the operands |
| FlexibleArray.SquareFits | memory/malloc/main.c:18 | `i * i` is an `int` for every index below the bound |
| FlexibleArray.FillSquares | memory/malloc/main.c:14-20 | the struct's array is freshly allocated, its length is `n`, its `n` slots hold `0, 1, 4, ...` in order (slot `i` holds `i * i`), and the same values are printed in order |
| FlexibleArray.SixSquares | memory/malloc/main.c:10-20 | with `n = 6` the program prints `0 1 4 9 16 25` |
| Days.Ordinal | enum/enum.c:4-12 | each enumerator's value is its position in the declaration, 0 to 6 |
| Days.Announce | enum/enum.c:22-54 | "Invalid day." is printed exactly for values outside 0..6; otherwise the stored value printed is the value switched on |
| Days.EveryDayAnnounced | enum/enum.c:22-54 | every enumerator takes its own case, printing its name and ordinal, and no two days print the same name |
| Days.WednesdayAnnounced | enum/enum.c:19-38 | `today = WEDNESDAY` prints "Today is Wednesday." and the value 3 |

## Left out

- printf formatting itself: the model records the values printed (`VariadicPrint.Token`, `ArithmeticTable.Line`, `Days.Message`), not the characters. That covers the space after each `print_all_args` value, `%f`'s six decimals and the message texts.
- `double` values are carried as the literal the caller wrote (`VaArgs.Double`), because floating point is not modelled; only their position and type matter to the interpreter.
- `va_start`, `va_end` and the `va_list` machinery are represented by the argument list and a cursor into it.
- `printPoint`, the `sizeof` lines of the flexible array example, `MAX_BUFFER_SIZE`, `scanf`, `malloc` and `free`: these are I/O or allocation. `scanf`'s inputs become parameters. `malloc` becomes a fresh array of the requested length, and a `Point *` becomes an index into `Geometry.Memory`.
- The C++ `Shape`/`Circle` declarations in example.h: they are compiled only as C++ and nothing calls them.
- VariadicPrint.Step: requires the cursor to be within the argument list. Every walk keeps that, so no C behaviour is excluded.
- VariadicPrint.PrintAllArgs: requires the contract `Matches`, as C does. The unchecked behaviour outside it is undefined and is modelled by `VariadicPrint.Run` as `Stuck`.
- VariadicSum.Sum: requires the first `count` arguments to be `int`s whose running totals do not overflow. C leaves any other call undefined.
- ArithmeticTable.AddLine: requires `a + b` not to overflow, which is undefined in C; likewise `SubtractLine`, `MultiplyLine` and `Dispatch` for the chosen operation.
- ArithmeticTable.DivideLine: requires the call not to be `INT_MIN / -1`, whose overflow is undefined in C.
- Geometry.ComputeArea: requires width, height and their product not to overflow. Its `const` pointer is reflected by a value parameter.
- Geometry.Increment: requires the counter to be below `INT_MAX`.
- VaArgs.HasType: treats a `size_t` argument as never readable as `int`. That holds for a `size_t` other than `unsigned int` (LP64, the platform `CInt` fixes, makes it `unsigned long`); with a `size_t` that is `unsigned int`, reading a `size_t` below 2^31 as `int` is defined, and the second finding would not apply.
- VaArgs.Arg: the arguments a call can pass are `int`, `double`, `int *` and `size_t`, the types main's calls use. Calls that pass other types are not modelled. For example, `print_all_args("d", 5u)` is defined by the signed/unsigned exception of section 7.16.1.1 paragraph 2 of ISO/IEC 9899:2011 and prints 5.
- FlexibleArray.FillSquares: generalises the program's constant `n = 6` to any `0 <= n <= 46341`, the range in which every square fits an `int`. `SixSquares` is the program's own case.

## Findings

| source | as written | input that shows it | evidently intended | confidence | as-written member | corrected member |
|---|---|---|---|---|---|---|
| variadic_func/multiple_types/main.c:38 | the format `"dcAdf"` has a second `d` tag, which reads the `double` 3.14 as an `int`, and an `f` tag with no argument left to read: six reads for five arguments | `print_all_args("dcAdf", 42, 'a', arr, sizeof(arr) / sizeof(arr[0]), 3.14)` | the format `"dcAf"`, one tag per argument | high, not executed | VariadicPrint.DcAdfCall | VariadicPrint.DcAfCall |
| variadic_func/multiple_types/main.c:38 | the array size is passed as the `size_t` value of a `sizeof` division, but the `A` tag reads it with `va_arg(args, int)` | the same call, whose fourth argument is a `size_t` | the size converted to `int` before it is passed | medium, not executed; assumes a `size_t` other than `unsigned int`, as on LP64 platforms (with a `size_t` that is `unsigned int` the read of the value 4 as `int` is defined by section 7.16.1.1 paragraph 2 of ISO/IEC 9899:2011, and common ABIs pass both the same way for small values) | VariadicPrint.SizeArgCall | VariadicPrint.DcAfCall |
