/** Rectangles (libs/fvwmrect.h) and the arithmetic of C. */
module Geometry {

  datatype Rect = Rect(x: int, y: int, width: int, height: int)

  function Max(a: int, b: int): int { if a > b then a else b }

  function Min(a: int, b: int): int { if a < b then a else b }

  /** The quotient of C, which is cut off towards zero. */
  function CDiv(a: int, b: int): int
    requires b > 0
  {
    if a >= 0 then a / b else -((-a) / b)
  }
}
