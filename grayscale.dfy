/**
 The grayscale transform of `applyGrayscale`: allocate a gray buffer with the
 source's bounds and, row by row from `bounds.min`, store the converted colour
 of every source pixel. The per-pixel conversion (`color.GrayModel.Convert`)
 is a parameter: its weights are not part of this model.
 */
module Grayscale {
  import opened Images

  /**
   `applyGrayscale`: the result is a new buffer with exactly the source's
   bounds, holding `convert` of the source colour at every point of them.
   The method modifies nothing that existed before the call, so the source,
   read only through `at`, is left as it was.
   */
  method ApplyGrayscale<C>(img: Image<C>, convert: C -> Gray) returns (g: GrayImage)
    ensures fresh(g) && fresh(g.pix) && g.Valid()
    ensures g.rect == img.bounds
    ensures forall p :: img.bounds.Contains(p) ==> g.At(p) == convert(img.at(p))
    ensures forall p :: !img.bounds.Contains(p) ==> g.At(p) == Gray(0)
    ensures img.bounds.Empty() <==> g.pix.Length0 == 0 || g.pix.Length1 == 0
  {
    var bounds := img.bounds;
    g := new GrayImage(bounds);
    var y := bounds.min.y;
    while y < bounds.max.y
      invariant bounds.min.y <= y
      invariant y <= bounds.max.y || y == bounds.min.y
      invariant forall p :: bounds.Contains(p) && p.y < y ==> g.At(p) == convert(img.at(p))
      invariant forall p :: bounds.Contains(p) && y <= p.y ==> g.At(p) == Gray(0)
      invariant forall p :: !bounds.Contains(p) ==> g.At(p) == Gray(0)
    {
      var x := bounds.min.x;
      while x < bounds.max.x
        invariant bounds.min.x <= x
        invariant x <= bounds.max.x || x == bounds.min.x
        invariant forall p :: bounds.Contains(p) && (p.y < y || (p.y == y && p.x < x)) ==>
                    g.At(p) == convert(img.at(p))
        invariant forall p :: bounds.Contains(p) && (y < p.y || (p.y == y && x <= p.x)) ==>
                    g.At(p) == Gray(0)
        invariant forall p :: !bounds.Contains(p) ==> g.At(p) == Gray(0)
      {
        var originalPixel := img.at(Point(x, y));
        var grayColor := convert(originalPixel);
        g.Set(Point(x, y), grayColor);
        x := x + 1;
      }
      y := y + 1;
    }
  }

  /**
   Converting an already gray image again changes nothing, provided the
   conversion maps every embedded gray colour back to itself (as
   `color.GrayModel.Convert` does for a `color.Gray`).
   */
  method ApplyGrayscaleTwice<C>(img: Image<C>, convert: C -> Gray, gray: Gray -> C)
    returns (once: GrayImage, twice: GrayImage)
    requires forall c :: convert(gray(c)) == c
    ensures once.Valid() && twice.Valid() && twice.rect == once.rect == img.bounds
    ensures forall p :: twice.At(p) == once.At(p)
  {
    once := ApplyGrayscale(img, convert);
    var view := once.AsImage(gray);
    twice := ApplyGrayscale(view, convert);
  }
}
