/** The parts of Go's `image` package the canvases use: integer points and
    rectangles with `Rect`, `Dx`, `Dy` and `Add`. */
module Image {

  datatype Point = Point(x: int, y: int)

  datatype Rectangle = Rectangle(min: Point, max: Point)
  {
    function Dx(): int { max.x - min.x }

    function Dy(): int { max.y - min.y }

    /** `r.Add(p)`: the rectangle moved by `p`. */
    function Add(p: Point): (r: Rectangle)
      ensures r.Dx() == Dx() && r.Dy() == Dy()
      ensures r.min == Point(min.x + p.x, min.y + p.y)
    {
      Rectangle(Point(min.x + p.x, min.y + p.y), Point(max.x + p.x, max.y + p.y))
    }

    /** `Min` lies above and to the left of `Max`. */
    predicate WellFormed() { min.x <= max.x && min.y <= max.y }
  }

  /** `image.Rect(x0, y0, x1, y1)`: the corners are swapped where needed so
      that the result is well-formed. */
  function Rect(x0: int, y0: int, x1: int, y1: int): (r: Rectangle)
    ensures r.WellFormed()
    ensures x0 <= x1 ==> r.min.x == x0 && r.max.x == x1
    ensures x1 < x0 ==> r.min.x == x1 && r.max.x == x0
    ensures y0 <= y1 ==> r.min.y == y0 && r.max.y == y1
    ensures y1 < y0 ==> r.min.y == y1 && r.max.y == y0
  {
    var (lx, hx) := if x0 > x1 then (x1, x0) else (x0, x1);
    var (ly, hy) := if y0 > y1 then (y1, y0) else (y0, y1);
    Rectangle(Point(lx, ly), Point(hx, hy))
  }
}
