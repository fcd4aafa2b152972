/** Axis-aligned rectangles over 32-bit coordinates. */
module Rectangles {

  const INT_MAX: int := 0x7fff_ffff
  const INT_MIN: int := -0x8000_0000

  type Coord = n: int | -0x8000_0000 <= n <= 0x7fff_ffff

  /** The right or bottom end for an extent: an addition that overflows upwards is dropped. Below,
      the addition is defined only where it does not overflow. */
  function FarEnd(at: Coord, extent: Coord): Coord
    requires INT_MIN <= at + extent
  {
    if at + extent <= INT_MAX then at + extent else at
  }

  class Rectangle {
    var x1: Coord
    var y1: Coord
    var x2: Coord
    var y2: Coord

    /** Inside out, so that any rectangle extends it. */
    constructor Inverse()
      ensures x1 == INT_MAX && y1 == INT_MAX && x2 == INT_MIN && y2 == INT_MIN
      ensures GetWidth() == INT_MIN && GetHeight() == INT_MIN
    {
      x1, y1, x2, y2 := INT_MAX, INT_MAX, INT_MIN, INT_MIN;
    }

    /** From the top left corner and the extent. */
    constructor (x: Coord, y: Coord, width: Coord, height: Coord)
      requires INT_MIN <= x + width && INT_MIN <= y + height
      ensures x1 == x && y1 == y && x2 == FarEnd(x, width) && y2 == FarEnd(y, height)
      ensures INT_MIN < width && x + width <= INT_MAX ==> GetWidth() == width
      ensures INT_MIN < height && y + height <= INT_MAX ==> GetHeight() == height
    {
      x1, y1, x2, y2 := x, y, x, y;
      new;
      if x2 + width <= INT_MAX {
        x2 := x2 + width;
      }
      if y2 + height <= INT_MAX {
        y2 := y2 + height;
      }
    }

    constructor Copy(r: Rectangle)
      ensures x1 == r.x1 && y1 == r.y1 && x2 == r.x2 && y2 == r.y2
    {
      x1, y1, x2, y2 := r.x1, r.y1, r.x2, r.y2;
    }

    predicate Encloses(r: Rectangle)
      reads this, r
    {
      x1 <= r.x1 && y1 <= r.y1 && r.x2 <= x2 && r.y2 <= y2
    }

    /** Grows to enclose another rectangle, and no further. */
    method Extend(r: Rectangle)
      modifies this
      ensures Encloses(r) && x1 <= old(x1) && y1 <= old(y1) && old(x2) <= x2 && old(y2) <= y2
      ensures (x1 == old(x1) || x1 == old(r.x1)) && (y1 == old(y1) || y1 == old(r.y1))
      ensures (x2 == old(x2) || x2 == old(r.x2)) && (y2 == old(y2) || y2 == old(r.y2))
    {
      if r.x1 < x1 {
        x1 := r.x1;
      }
      if r.x2 > x2 {
        x2 := r.x2;
      }
      if r.y1 < y1 {
        y1 := r.y1;
      }
      if r.y2 > y2 {
        y2 := r.y2;
      }
    }

    /** The width; defined where the subtraction does not overflow upwards. */
    function GetWidth(): Coord
      reads this
      requires x2 - x1 <= INT_MAX
    {
      if x2 - x1 > INT_MIN then x2 - x1 else INT_MIN
    }

    function GetHeight(): Coord
      reads this
      requires y2 - y1 <= INT_MAX
    {
      if y2 - y1 > INT_MIN then y2 - y1 else INT_MIN
    }
  }
}
