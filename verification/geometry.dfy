/**
 The `Point` and `Rectangle` records of header_between_source_code/example.h
 and the functions of example.c that work on them: `initialize` writes both
 coordinates of a point through a pointer, `computeArea` multiplies the
 signed width and height of a rectangle, and `globalCounter` is a global
 `int` that starts at 0.
 */
module Geometry {
  import opened CInt

  datatype Point = Point(x: int32, y: int32)

  datatype Rectangle = Rectangle(topLeft: Point, bottomRight: Point)

  /** The points a program has in memory; a `Point *` is an index into them. */
  type Memory = seq<Point>

  /**
   `initialize(p, x, y)`: the point `p` points to gets coordinates `x` and
   `y`; no other point changes.
   */
  function Initialize(mem: Memory, p: nat, x: int32, y: int32): (mem': Memory)
    requires p < |mem|
    ensures |mem'| == |mem|
    ensures mem'[p].x == x && mem'[p].y == y
    ensures forall q :: 0 <= q < |mem| && q != p ==> mem'[q] == mem[q]
  {
    mem[p := Point(x, y)]
  }

  /**
   Initializing a point twice keeps only the second write, and initializing
   two different points gives the same memory in either order.
   */
  lemma InitializeOverwrites(mem: Memory, p: nat, q: nat, x: int32, y: int32, x': int32, y': int32)
    requires p < |mem| && q < |mem|
    ensures Initialize(Initialize(mem, p, x, y), p, x', y') == Initialize(mem, p, x', y')
    ensures p != q ==>
      Initialize(Initialize(mem, p, x, y), q, x', y') == Initialize(Initialize(mem, q, x', y'), p, x, y)
  {
  }

  /** Signed width: negative when the bottom-right corner is left of the top-left one. */
  function Width(r: Rectangle): int {
    r.bottomRight.x - r.topLeft.x
  }

  /** Signed height: negative when the bottom-right corner is above the top-left one. */
  function Height(r: Rectangle): int {
    r.bottomRight.y - r.topLeft.y
  }

  /** The width, the height and their product are all `int`s, as `computeArea` needs. */
  ghost predicate AreaDefined(r: Rectangle) {
    InInt32(Width(r)) && InInt32(Height(r)) && InInt32(Width(r) * Height(r))
  }

  /**
   `computeArea(rect)`: the signed area. It is zero exactly for a flat
   rectangle, its magnitude is the product of the side lengths, and it is
   negative exactly when one pair of corners is inverted and not the other;
   no absolute value is taken. The rectangle is read through a `const`
   pointer, which this value parameter reflects.
   */
  function ComputeArea(r: Rectangle): (area: int32)
    requires AreaDefined(r)
    ensures area == 0 <==> r.topLeft.x == r.bottomRight.x || r.topLeft.y == r.bottomRight.y
    ensures Abs(area) == Abs(Width(r)) * Abs(Height(r))
    ensures area < 0 <==> area != 0 && (r.bottomRight.x < r.topLeft.x) != (r.bottomRight.y < r.topLeft.y)
  {
    var width := Width(r);
    var height := Height(r);
    ProductSign(width, height);
    width * height
  }

  /**
   Naming the corners the other way round negates both sides, so the area
   does not change; it stays defined unless a side is `INT_MIN`, whose
   negation overflows.
   */
  lemma AreaOfSwappedCorners(r: Rectangle)
    requires AreaDefined(r)
    ensures var s := Rectangle(r.bottomRight, r.topLeft);
      && (AreaDefined(s) <==> Width(r) != INT_MIN && Height(r) != INT_MIN)
      && (AreaDefined(s) ==> ComputeArea(s) == ComputeArea(r))
  {
    var s := Rectangle(r.bottomRight, r.topLeft);
    assert Width(s) == -Width(r) && Height(s) == -Height(r);
    assert Width(s) * Height(s) == Width(r) * Height(r);
  }

  /** The value of `globalCounter` before `main` runs. */
  const GlobalCounterStart: int32 := 0

  /** `globalCounter++`: one more, which must still be an `int`. */
  function Increment(counter: int32): (next: int32)
    requires counter < INT_MAX
    ensures next > counter && next - 1 == counter
  {
    counter + 1
  }

  /**
   The `main` of header_between_source_code: a point initialized to
   (10, 20), the area of the rectangle from (0, 0) to (10, 20), and the
   global counter after one increment.
   */
  method HeaderDemo() returns (p: Point, area: int32, counter: int32)
    ensures p == Point(10, 20)
    ensures area == 200
    ensures counter == 1
  {
    var mem := Initialize([Point(0, 0)], 0, 10, 20);
    p := mem[0];
    var rect := Rectangle(Point(0, 0), Point(10, 20));
    area := ComputeArea(rect);
    counter := Increment(GlobalCounterStart);
  }
}
