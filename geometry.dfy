/** Integer rectangles as OpenCV's `cv::Rect` represents them, and the
    intersection operator `&` the containment filter is built on. */
module Geometry {

  /** A rectangle: top-left corner (x, y), then width and height. */
  datatype Rect = Rect(x: int, y: int, width: int, height: int)

  /** The default-constructed rectangle `Rect()`, which `&` returns when the
      two operands do not overlap. */
  const Zero: Rect := Rect(0, 0, 0, 0)

  function Max(a: int, b: int): int { if a < b then b else a }
  function Min(a: int, b: int): int { if a < b then a else b }

  /** Pixel (px, py) lies in r: the half-open box [x, x+width) by [y, y+height). */
  predicate HasPoint(r: Rect, px: int, py: int) {
    r.x <= px < r.x + r.width && r.y <= py < r.y + r.height
  }

  predicate NonEmpty(r: Rect) { r.width > 0 && r.height > 0 }

  /** OpenCV's `a & b`: the larger top-left corner and the smaller bottom-right
      corner; a result with a width or height that is not positive becomes Zero. */
  function Intersect(a: Rect, b: Rect): Rect {
    var x1 := Max(a.x, b.x);
    var y1 := Max(a.y, b.y);
    var w := Min(a.x + a.width, b.x + b.width) - x1;
    var h := Min(a.y + a.height, b.y + b.height) - y1;
    if w <= 0 || h <= 0 then Zero else Rect(x1, y1, w, h)
  }

  /** `a & b` is either Zero or a non-empty rectangle inside both operands. */
  lemma IntersectInside(a: Rect, b: Rect)
    ensures var r := Intersect(a, b);
      (r == Zero || NonEmpty(r)) &&
      (NonEmpty(r) ==>
        a.x <= r.x && b.x <= r.x && a.y <= r.y && b.y <= r.y &&
        r.x + r.width <= a.x + a.width && r.x + r.width <= b.x + b.width &&
        r.y + r.height <= a.y + a.height && r.y + r.height <= b.y + b.height)
  {
  }

  /** `&` is set intersection on pixels: a pixel lies in `a & b` exactly when it
      lies in both a and b. */
  lemma IntersectPoints(a: Rect, b: Rect, px: int, py: int)
    ensures HasPoint(Intersect(a, b), px, py) <==> HasPoint(a, px, py) && HasPoint(b, px, py)
  {
  }

  /** The test the containment filter uses: `(r & s) == r`. */
  predicate ContainedIn(r: Rect, s: Rect) { Intersect(r, s) == r }

  /** `(r & s) == r` holds exactly when r is the Zero rectangle (which every
      rectangle "contains") or r is non-empty and lies inside s. */
  lemma ContainedInIff(r: Rect, s: Rect)
    ensures ContainedIn(r, s) <==>
      r == Zero ||
      (NonEmpty(r) && s.x <= r.x && s.y <= r.y &&
       r.x + r.width <= s.x + s.width && r.y + r.height <= s.y + s.height)
  {
  }

  /** For a non-empty r the test means what its name says: every pixel of r is
      a pixel of s. */
  lemma {:induction false} ContainedInPoints(r: Rect, s: Rect)
    requires NonEmpty(r)
    ensures ContainedIn(r, s) <==> forall px, py :: HasPoint(r, px, py) ==> HasPoint(s, px, py)
  {
    ContainedInIff(r, s);
    if forall px, py :: HasPoint(r, px, py) ==> HasPoint(s, px, py) {
      assert HasPoint(r, r.x, r.y);
      assert HasPoint(r, r.x + r.width - 1, r.y + r.height - 1);
    }
    if ContainedIn(r, s) {
      forall px, py | HasPoint(r, px, py) ensures HasPoint(s, px, py) {
        IntersectPoints(r, s, px, py);
      }
    }
  }

  /** The test is not strict: a non-empty rectangle, and the Zero rectangle,
      pass it against itself, while any other degenerate rectangle does not. */
  lemma ContainedInSelf(r: Rect)
    ensures ContainedIn(r, r) <==> NonEmpty(r) || r == Zero
  {
  }
}
