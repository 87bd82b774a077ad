/**
 The parts of Go's `image` and `image/color` packages that `applyGrayscale`
 relies on: points, rectangles with a possibly non-zero origin, the 8-bit gray
 colour, a read-only source image and the mutable gray pixel buffer
 (`*image.Gray`) that the transform fills in.
 */
module Images {

  /** An 8-bit unsigned value, the type of `color.Gray.Y`. */
  newtype uint8 = x: int | 0 <= x < 256

  /** `color.Gray`: a single luminance channel. `Gray(0)` is its zero value. */
  datatype Gray = Gray(y: uint8)

  datatype Point = Point(x: int, y: int)

  /**
   `image.Rectangle`: the points with `min.x <= x < max.x` and
   `min.y <= y < max.y`. The origin `min` need not be (0, 0).
   */
  datatype Rectangle = Rectangle(min: Point, max: Point) {

    /** `image.Point.In`: membership of a point in the half-open rectangle. */
    predicate Contains(p: Point) {
      min.x <= p.x < max.x && min.y <= p.y < max.y
    }

    /** `image.Rectangle.Empty`: the rectangle has zero area. */
    predicate Empty() {
      max.x <= min.x || max.y <= min.y
    }

    /** Number of columns; an inverted extent counts as none. */
    function Width(): (w: nat)
      ensures w > 0 <==> min.x < max.x
      ensures w > 0 ==> min.x + w == max.x
    {
      if min.x < max.x then max.x - min.x else 0
    }

    /** Number of rows; an inverted extent counts as none. */
    function Height(): (h: nat)
      ensures h > 0 <==> min.y < max.y
      ensures h > 0 ==> min.y + h == max.y
    {
      if min.y < max.y then max.y - min.y else 0
    }
  }

  /** A rectangle has zero area exactly when no point lies in it. */
  lemma EmptyIffNoPoint(r: Rectangle)
    ensures r.Empty() <==> forall p: Point :: !r.Contains(p)
  {
    if !r.Empty() {
      assert r.Contains(r.min);
    }
  }

  /**
   `image.Image` as `applyGrayscale` sees it: a bounding rectangle and a colour
   at every point, read through `at`. It is a value, so nothing that reads it
   can change it.
   */
  datatype Image<C> = Image(bounds: Rectangle, at: Point -> C)

  /**
   `*image.Gray`: one gray value per point of `rect`, stored so that the point
   (x, y) lives at `pix[y - rect.min.y, x - rect.min.x]`.
   */
  class GrayImage {
    const rect: Rectangle
    const pix: array2<Gray>

    /** The buffer covers the rectangle exactly. */
    ghost predicate Valid() {
      pix.Length0 == rect.Height() && pix.Length1 == rect.Width()
    }

    /** `(*image.Gray).At`: the stored value inside `rect`, the zero colour outside. */
    function At(p: Point): Gray
      requires Valid()
      reads pix
    {
      if rect.Contains(p) then pix[p.y - rect.min.y, p.x - rect.min.x] else Gray(0)
    }

    /** `image.NewGray(r)`: a fresh buffer over `r` with every pixel at the zero colour. */
    constructor (r: Rectangle)
      ensures Valid() && rect == r && fresh(pix)
      ensures forall p :: At(p) == Gray(0)
    {
      rect := r;
      pix := new Gray[r.Height(), r.Width()]((i, j) => Gray(0));
    }

    /**
     `(*image.Gray).Set`: stores `c` at `p` when `p` lies in `rect` and does
     nothing otherwise; no other pixel changes.
     */
    method Set(p: Point, c: Gray)
      requires Valid()
      modifies pix
      ensures rect.Contains(p) ==> At(p) == c
      ensures forall q :: q != p ==> At(q) == old(At(q))
      ensures !rect.Contains(p) ==> unchanged(pix)
    {
      if rect.Contains(p) {
        pix[p.y - rect.min.y, p.x - rect.min.x] := c;
      }
    }

    /**
     `*image.Gray` seen through the `image.Image` interface, its gray values
     embedded into the colour type `C` by `gray`.
     */
    method AsImage<C>(gray: Gray -> C) returns (img: Image<C>)
      requires Valid()
      ensures img.bounds == rect
      ensures forall p :: img.at(p) == gray(At(p))
    {
      var h, w := pix.Length0, pix.Length1;
      var rows := seq(h, i requires 0 <= i < h reads pix =>
                    seq(w, j requires 0 <= j < w reads pix => pix[i, j]));
      var r := rect;
      img := Image(r, (p: Point) =>
        if r.Contains(p) && p.y - r.min.y < |rows| && p.x - r.min.x < |rows[p.y - r.min.y]|
        then gray(rows[p.y - r.min.y][p.x - r.min.x])
        else gray(Gray(0)));
    }
  }
}
