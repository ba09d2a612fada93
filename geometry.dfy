// Shared value types of the layout code: the four directions, the two lane
// axes, integer rectangles, and the integer divisions that stand for the
// source's floor/ceil/truncation of double and float quotients.
module Geometry {

  /** `Direction`: the order up, left, down, right of the source's enum. */
  datatype Direction = Up | Left | Down | Right

  /** `NodeLayoutDirection`: the axis along which a lane places its children. */
  datatype LayoutDirection = Horizontal | Vertical

  /** A `geom::Rectangle`: top-left corner and size. */
  datatype Rect = Rect(x: int, y: int, width: int, height: int)

  /** floor(a / b) for a non-zero divisor of either sign. */
  function FloorDiv(a: int, b: int): int
    requires b != 0
  {
    if b > 0 then a / b else (-a) / (-b)
  }

  lemma FloorDivBounds(a: int, b: int)
    requires b != 0
    ensures b > 0 ==> FloorDiv(a, b) * b <= a < FloorDiv(a, b) * b + b
    ensures b < 0 ==> FloorDiv(a, b) * b >= a > FloorDiv(a, b) * b + b
  {
  }

  /** ceil(a / b) for a non-zero divisor of either sign. */
  function CeilDiv(a: int, b: int): int
    requires b != 0
  {
    -FloorDiv(-a, b)
  }

  lemma CeilDivBounds(a: int, b: int)
    requires b != 0
    ensures b > 0 ==> CeilDiv(a, b) * b - b < a <= CeilDiv(a, b) * b
    ensures b < 0 ==> CeilDiv(a, b) * b - b > a >= CeilDiv(a, b) * b
  {
    FloorDivBounds(-a, b);
  }

  /** The C conversion of a quotient to int: rounds toward zero. */
  function TruncDiv(a: int, b: int): (q: int)
    requires b > 0
    ensures a >= 0 ==> q == FloorDiv(a, b)
    ensures a < 0 ==> q == CeilDiv(a, b)
  {
    if a >= 0 then a / b else -((-a) / b)
  }

  function Abs(a: int): nat
  {
    if a < 0 then -a else a
  }

  /** Truncation never moves away from zero and stays within one unit of the quotient. */
  lemma TruncDivBounds(a: int, b: int)
    requires b > 0
    ensures Abs(TruncDiv(a, b)) * b <= Abs(a) < Abs(TruncDiv(a, b)) * b + b
  {
    var q := FloorDiv(Abs(a), b);
    FloorDivBounds(Abs(a), b);
    assert Abs(TruncDiv(a, b)) == q by {
      if a < 0 {
        assert TruncDiv(a, b) == -q;
      }
    }
  }
}
