/** Integer rectangles with the conventions of QRect: the right and bottom edges
    are inclusive, `setLeft` and its siblings move one edge, `moveTopLeft` keeps the size. */
module Geometry {

  datatype Point = Point(x: int, y: int)

  datatype Size = Size(width: int, height: int)

  datatype Rect = Rect(left: int, top: int, right: int, bottom: int) {

    function Width(): int { right - left + 1 }

    function Height(): int { bottom - top + 1 }

    function TopLeft(): Point { Point(left, top) }

    function BottomRight(): Point { Point(right, bottom) }

    function Dimensions(): Size { Size(Width(), Height()) }

    predicate IsValid() { left <= right && top <= bottom }

    function Translated(dx: int, dy: int): Rect {
      Rect(left + dx, top + dy, right + dx, bottom + dy)
    }

    /** `moveTopLeft` */
    function MovedTo(p: Point): Rect { Translated(p.x - left, p.y - top) }

    /** `setWidth` */
    function WithWidth(w: int): Rect { this.(right := left + w - 1) }

    /** `setHeight` */
    function WithHeight(h: int): Rect { this.(bottom := top + h - 1) }

    /** `setSize` */
    function WithSize(s: Size): Rect { WithWidth(s.width).WithHeight(s.height) }

    /** `center`; the halves truncate toward zero as in C++. */
    function Center(): Point { Point(Quotient(left + right, 2), Quotient(top + bottom, 2)) }

    predicate Contains(p: Point) { left <= p.x <= right && top <= p.y <= bottom }

    /** `intersects` of valid rectangles. */
    predicate Intersects(r: Rect) {
      left <= r.right && r.left <= right && top <= r.bottom && r.top <= bottom
    }

    /** `operator&` with a valid rectangle; disjoint rectangles give the null rectangle. */
    function Intersected(r: Rect): Rect {
      if Intersects(r)
      then Rect(Max(left, r.left), Max(top, r.top), Min(right, r.right), Min(bottom, r.bottom))
      else NullRect()
    }
  }

  /** Which side of a size may change first to meet the hints, `Client::Sizemode`. */
  datatype SizeMode = SizeAny | FixedW | FixedH | SizeMax

  function NullRect(): Rect { Rect(0, 0, -1, -1) }

  /** The rectangle with the given position and size, `QRect(x, y, w, h)`. */
  function RectAt(x: int, y: int, w: int, h: int): Rect { Rect(x, y, x + w - 1, y + h - 1) }

  /** The rectangle between two corners, `QRect(QPoint, QPoint)`. */
  function RectBetween(topLeft: Point, bottomRight: Point): Rect {
    Rect(topLeft.x, topLeft.y, bottomRight.x, bottomRight.y)
  }

  function Min(a: int, b: int): int { if a < b then a else b }

  function Max(a: int, b: int): int { if a < b then b else a }

  function Abs(a: int): nat { if a < 0 then -a else a }

  function Sign(a: int): int { if a < 0 then -1 else if a > 0 then 1 else 0 }

  /** C++ division: the quotient is truncated toward zero. */
  function Quotient(a: int, b: int): int
    requires b > 0
  {
    if a < 0 then -((-a) / b) else a / b
  }

  /** C++ remainder: it has the sign of the dividend. */
  function Remainder(a: int, b: int): int
    requires b > 0
  {
    a - Quotient(a, b) * b
  }

  /** `x` lies in the closed interval spanned by `a` and `b`, whichever is larger. */
  predicate Between(a: int, x: int, b: int) { Min(a, b) <= x <= Max(a, b) }

}
