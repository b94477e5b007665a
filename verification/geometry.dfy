/** The `Rectangle` value object: four integer bounds, frozen once built,
    with width and height derived from them. */
module Geometry {

  /** `Rectangle(xMin, yMin, xMax, yMax)`. Nothing is checked on
      construction: the maximum may lie below the minimum. */
  datatype Rectangle = Rectangle(xMin: int, yMin: int, xMax: int, yMax: int)

  /** `Rectangle.width`: the distance from `xMin` to `xMax`. */
  function Width(r: Rectangle): (w: int)
    ensures r.xMin + w == r.xMax
  {
    r.xMax - r.xMin
  }

  /** `Rectangle.height`: the distance from `yMin` to `yMax`. */
  function Height(r: Rectangle): (h: int)
    ensures r.yMin + h == r.yMax
  {
    r.yMax - r.yMin
  }

  /** The width is negative exactly for an inverted rectangle, zero exactly
      for a degenerate one; likewise the height. */
  lemma SignOfExtent(r: Rectangle)
    ensures Width(r) < 0 <==> r.xMax < r.xMin
    ensures Width(r) == 0 <==> r.xMax == r.xMin
    ensures Height(r) < 0 <==> r.yMax < r.yMin
    ensures Height(r) == 0 <==> r.yMax == r.yMin
  {
  }

  /** The width reads only the x bounds and the height only the y bounds. */
  lemma ExtentsIndependent(r: Rectangle, yMin: int, yMax: int, xMin: int, xMax: int)
    ensures Width(r.(yMin := yMin, yMax := yMax)) == Width(r)
    ensures Height(r.(xMin := xMin, xMax := xMax)) == Height(r)
  {
  }
}
