/**
 The flexible array member example of memory/malloc/main.c: a
 `struct FlexibleArray { int length; int array[]; }` allocated with room for
 `n` ints, its length set to `n`, and each slot `i` filled with `i * i` and
 printed. `malloc` becomes a fresh Dafny array of `n` ints, so every write is
 bounds-checked against the `n` slots allocated.
 */
module FlexibleArray {
  import opened CInt

  /** The largest `n` for which every square `i * i` with `i < n` is an `int`. */
  const MaxSquares: int := 46341

  /**
   The allocation and fill loop of `main` for `n` slots: the struct's
   `length`, its `array`, and the values printed in order.
   */
  method FillSquares(n: int32) returns (length: int32, slots: array<int32>, printed: seq<int32>)
    requires 0 <= n <= MaxSquares
    ensures fresh(slots)
    ensures length == n && slots.Length == n
    ensures forall i :: 0 <= i < length ==> slots[i] == i * i
    ensures |printed| == n && forall i :: 0 <= i < n ==> printed[i] == i * i
  {
    slots := new int32[n];
    length := n;
    printed := [];
    var i: int32 := 0;
    while i < length
      invariant 0 <= i <= length
      invariant forall k :: 0 <= k < i ==> slots[k] == k * k
      invariant |printed| == i && forall k :: 0 <= k < i ==> printed[k] == k * k
    {
      SquareFits(i);
      slots[i] := i * i;
      printed := printed + [slots[i]];
      i := i + 1;
    }
  }

  lemma SquareFits(i: int)
    requires 0 <= i < MaxSquares
    ensures InInt32(i * i)
  {
    MulAtLeast(i, MaxSquares - 1, i);
    MulAtLeast(MaxSquares - 1, MaxSquares - 1, i);
  }

  /** With `n = 6`, as in `main`, the program prints `0 1 4 9 16 25`. */
  method SixSquares() returns (printed: seq<int32>)
    ensures printed == [0, 1, 4, 9, 16, 25]
  {
    var length, slots;
    length, slots, printed := FillSquares(6);
    assert printed[0] == 0 && printed[1] == 1 && printed[2] == 4;
    assert printed[3] == 9 && printed[4] == 16 && printed[5] == 25;
  }
}
