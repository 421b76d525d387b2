/**
 `sum(count, ...)` from variadic_func/main.c: reads `count` arguments as `int`
 and adds them up left to right, starting from 0. The caller must pass at
 least `count` ints, and since signed overflow is undefined in C, every
 partial sum along the way must stay an `int`.
 */
module VariadicSum {
  import opened CInt
  import opened VaArgs

  /** The arithmetic sum of `xs`, added left to right. */
  function Total(xs: seq<int>): int {
    if |xs| == 0 then 0 else Total(xs[..|xs| - 1]) + xs[|xs| - 1]
  }

  /** Every running total `total` takes in the loop is an `int`. */
  ghost predicate PartialSumsFit(xs: seq<int>) {
    forall k :: 0 <= k <= |xs| ==> InInt32(Total(xs[..k]))
  }

  /** The values of a list of `int` arguments. */
  function Values(args: seq<Arg>): (xs: seq<int32>)
    requires forall j :: 0 <= j < |args| ==> args[j].IntArg?
    ensures |xs| == |args| && forall j :: 0 <= j < |args| ==> args[j] == IntArg(xs[j])
  {
    if |args| == 0 then [] else [args[0].i] + Values(args[1..])
  }

  /** How many arguments the loop reads: `count`, or none when `count` is not positive. */
  function Reads(count: int): nat {
    if count <= 0 then 0 else count
  }

  /**
   The contract `sum` relies on: `count` arguments, all passed as `int`
   (section 7.16.1.1 of ISO/IEC 9899:2011), whose running totals never
   overflow (section 6.5 paragraph 5).
   */
  ghost predicate SumDefined(count: int, args: seq<Arg>) {
    && Reads(count) <= |args|
    && (forall j :: 0 <= j < Reads(count) ==> args[j].IntArg?)
    && PartialSumsFit(Values(args[..Reads(count)]))
  }

  /** The values `sum` adds: the first `count` arguments. */
  function Summands(count: int, args: seq<Arg>): (xs: seq<int32>)
    requires SumDefined(count, args)
    ensures |xs| == Reads(count)
    ensures forall j :: 0 <= j < |xs| ==> args[j] == IntArg(xs[j])
  {
    Values(args[..Reads(count)])
  }

  /** `sum(count, args...)`: the total of exactly the first `count` arguments, 0 when `count <= 0`. */
  method Sum(count: int32, args: seq<Arg>) returns (total: int32)
    requires SumDefined(count, args)
    ensures total == Total(Summands(count, args))
    ensures count <= 0 ==> total == 0
  {
    var xs := Summands(count, args);
    total := 0;
    var i: int32 := 0;
    while i < count
      invariant 0 <= i <= Reads(count)
      invariant total == Total(xs[..i])
    {
      var arg := VaArg(args, i, IntType);
      assert arg == Got(IntArg(xs[i]));
      assert xs[..i + 1][..i] == xs[..i];
      total := total + arg.arg.i;
      i := i + 1;
    }
    assert xs[..i] == xs;
  }

  /** Adding up a list in two parts adds up the whole. */
  lemma {:induction false} TotalAppend(xs: seq<int>, ys: seq<int>)
    ensures Total(xs + ys) == Total(xs) + Total(ys)
    decreases |ys|
  {
    if |ys| == 0 {
      assert xs + ys == xs;
    } else {
      var zs := xs + ys;
      assert zs[..|zs| - 1] == xs + ys[..|ys| - 1];
      TotalAppend(xs, ys[..|ys| - 1]);
    }
  }

  /** With a non-positive count no argument is read, so every argument list keeps the contract. */
  lemma NoReadsWhenNotPositive(count: int, args: seq<Arg>)
    requires count <= 0
    ensures SumDefined(count, args) && Summands(count, args) == []
  {
    assert Values(args[..0]) == [];
  }

  /** Arguments after the first `count` are never read. */
  lemma SummandsIgnoreTail(count: int, args: seq<Arg>, extra: seq<Arg>)
    requires SumDefined(count, args)
    ensures SumDefined(count, args + extra)
    ensures Summands(count, args + extra) == Summands(count, args)
  {
    assert (args + extra)[..Reads(count)] == args[..Reads(count)];
  }

  /** The arguments of `sum(3, 2, 3, 4)` keep the contract and add up to 9. */
  lemma FirstCall()
    ensures SumDefined(3, [IntArg(2), IntArg(3), IntArg(4)])
    ensures Total(Summands(3, [IntArg(2), IntArg(3), IntArg(4)])) == 9
  {
    var a := [IntArg(2), IntArg(3), IntArg(4)];
    var xs := [2, 3, 4];
    assert a[..3] == a && Values(a) == xs;
    assert xs[..0] == [] && xs[..1] == [2] && xs[..2] == [2, 3] && xs[..3] == xs;
    assert Total([2]) == 2 && Total([2, 3]) == 5 && Total(xs) == 9;
    forall k | 0 <= k <= 3 ensures InInt32(Total(xs[..k])) {
      assert k == 0 || k == 1 || k == 2 || k == 3;
    }
  }

  /** The arguments of `sum(4, 5, 10, 15, 20)` keep the contract and add up to 50. */
  lemma SecondCall()
    ensures SumDefined(4, [IntArg(5), IntArg(10), IntArg(15), IntArg(20)])
    ensures Total(Summands(4, [IntArg(5), IntArg(10), IntArg(15), IntArg(20)])) == 50
  {
    var b := [IntArg(5), IntArg(10), IntArg(15), IntArg(20)];
    var ys := [5, 10, 15, 20];
    assert b[..4] == b && Values(b) == ys;
    assert ys[..0] == [] && ys[..1] == [5] && ys[..2] == [5, 10] && ys[..3] == [5, 10, 15] && ys[..4] == ys;
    assert Total([5]) == 5 && Total([5, 10]) == 15 && Total([5, 10, 15]) == 30 && Total(ys) == 50;
    forall k | 0 <= k <= 4 ensures InInt32(Total(ys[..k])) {
      assert k == 0 || k == 1 || k == 2 || k == 3 || k == 4;
    }
  }

  /** The two calls in `main`: `sum(3, 2, 3, 4)` is 9 and `sum(4, 5, 10, 15, 20)` is 50. */
  method SumCallSites() returns (first: int32, second: int32)
    ensures first == 9 && second == 50
  {
    FirstCall();
    first := Sum(3, [IntArg(2), IntArg(3), IntArg(4)]);
    SecondCall();
    second := Sum(4, [IntArg(5), IntArg(10), IntArg(15), IntArg(20)]);
  }
}
