/**
 * Pixel geometry of the cutout tool: OpenCV-style points and rectangles, and the
 * normalisation of two arbitrary clicks into a top-left / bottom-right pair.
 */
module Geometry {

  /** An integer pixel position, as `cv::Point`. A default-constructed point is (0, 0). */
  datatype Point = Point(x: int, y: int)

  /** An axis-aligned rectangle, as `cv::Rect`: its top-left corner and its extent. */
  datatype Rect = Rect(x: int, y: int, width: int, height: int)
  {
    function TopLeft(): Point { Point(x, y) }
    function BottomRight(): Point { Point(x + width, y + height) }

    /** The guard of the segmentation command: a rectangle of positive area. */
    predicate HasArea() { width > 0 && height > 0 }
  }

  /** A default-constructed `cv::Rect`: origin, zero width, zero height. */
  const EmptyRect := Rect(0, 0, 0, 0)

  function Min(a: int, b: int): int { if a < b then a else b }
  function Max(a: int, b: int): int { if a < b then b else a }

  /** The componentwise minimum of two clicks: the top-left corner they span. */
  function TopLeftOf(a: Point, b: Point): (p: Point)
    ensures p.x <= a.x && p.x <= b.x && (p.x == a.x || p.x == b.x)
    ensures p.y <= a.y && p.y <= b.y && (p.y == a.y || p.y == b.y)
  {
    Point(Min(a.x, b.x), Min(a.y, b.y))
  }

  /** The componentwise maximum of two clicks: the bottom-right corner they span. */
  function BottomRightOf(a: Point, b: Point): (p: Point)
    ensures p.x >= a.x && p.x >= b.x && (p.x == a.x || p.x == b.x)
    ensures p.y >= a.y && p.y >= b.y && (p.y == a.y || p.y == b.y)
  {
    Point(Max(a.x, b.x), Max(a.y, b.y))
  }

  /**
   * OpenCV's `Rect(tl, br)`: the rectangle whose corners are `tl` and `br`
   * (called here only with `tl` componentwise below `br`).
   */
  function RectFromCorners(tl: Point, br: Point): (r: Rect)
    requires tl.x <= br.x && tl.y <= br.y
    ensures r.TopLeft() == tl && r.BottomRight() == br
    ensures r.width >= 0 && r.height >= 0
  {
    Rect(tl.x, tl.y, br.x - tl.x, br.y - tl.y)
  }

  /** The rectangle two clicks span, whichever corner was clicked first. */
  function Normalize(a: Point, b: Point): (r: Rect)
    ensures r.TopLeft() == TopLeftOf(a, b) && r.BottomRight() == BottomRightOf(a, b)
    ensures r.width >= 0 && r.height >= 0
    ensures r.HasArea() <==> a.x != b.x && a.y != b.y
  {
    RectFromCorners(TopLeftOf(a, b), BottomRightOf(a, b))
  }

  /** The corners do not depend on the order of the two clicks. */
  lemma CornersCommute(a: Point, b: Point)
    ensures TopLeftOf(a, b) == TopLeftOf(b, a)
    ensures BottomRightOf(a, b) == BottomRightOf(b, a)
  {
  }

  /** Hence neither does the committed rectangle. */
  lemma NormalizeCommutes(a: Point, b: Point)
    ensures Normalize(a, b) == Normalize(b, a)
  {
    CornersCommute(a, b);
  }

  /** A normalised rectangle contains both clicks (on its boundary or inside). */
  lemma NormalizeContainsClicks(a: Point, b: Point)
    ensures var r := Normalize(a, b);
      r.x <= a.x <= r.x + r.width && r.y <= a.y <= r.y + r.height &&
      r.x <= b.x <= r.x + r.width && r.y <= b.y <= r.y + r.height
  {
  }

  /** Normalisation undoes nothing already normal: its corners' rectangle is itself. */
  lemma NormalizeOfCorners(r: Rect)
    requires r.width >= 0 && r.height >= 0
    ensures Normalize(r.TopLeft(), r.BottomRight()) == r
  {
  }
}
