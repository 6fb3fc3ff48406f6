/**
 * The grid coordinate of the game (SnakeCs/Coord.cs): a struct of two
 * 16-bit signed integers compared field by field.
 */
module Coords {

  /** C#'s `short`. */
  newtype Short = v: int | -0x8000 <= v < 0x8000

  /**
   * C#'s unchecked `(short)` cast of an `int`: two's-complement truncation to
   * 16 bits. It is the identity on values that fit, and it never changes a
   * value by anything but a multiple of 2^16.
   */
  function Wrap16(v: int): (r: Short)
    ensures -0x8000 <= v < 0x8000 ==> r as int == v
    ensures (v - r as int) % 0x10000 == 0
  {
    ((v + 0x8000) % 0x10000 - 0x8000) as Short
  }

  datatype Coord = Coord(x: Short, y: Short)

  /** `Coord.Equals`: value equality, field by field. */
  function Equals(a: Coord, b: Coord): (r: bool)
    ensures r <==> a == b
  {
    a.x == b.x && a.y == b.y
  }

  /** `operator==`, defined through `Equals`. */
  function EqualOp(a: Coord, b: Coord): (r: bool)
    ensures r <==> a == b
  {
    Equals(a, b)
  }

  /** `operator!=`, defined as the negation of `Equals`. */
  function NotEqualOp(a: Coord, b: Coord): (r: bool)
    ensures r <==> a != b
    ensures r <==> !EqualOp(a, b)
  {
    !Equals(a, b)
  }

  /** The field-wise equality is an equivalence relation. */
  lemma EqualsIsEquivalence(a: Coord, b: Coord, c: Coord)
    ensures Equals(a, a)
    ensures Equals(a, b) <==> Equals(b, a)
    ensures Equals(a, b) && Equals(b, c) ==> Equals(a, c)
  {
  }
}
