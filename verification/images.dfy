/** The `RgbImage` the converters work on, as a sequence of rows. */
module Images {
  import opened Colors

  /** `img[y][x]` is the pixel at column `x` of row `y`. */
  type Image = seq<seq<Color>>

  /** A pixel coordinate. */
  datatype Pos = Pos(x: int, y: int)

  function Height(img: Image): nat
  {
    |img|
  }

  /** An image without rows has width 0. */
  function Width(img: Image): nat
  {
    if |img| == 0 then 0 else |img[0]|
  }

  /** Every row has the image's width, as in the pixel buffer of an `RgbImage`. */
  predicate Rectangular(img: Image)
  {
    forall y :: 0 <= y < |img| ==> |img[y]| == Width(img)
  }

  /** `p` lies in a `w` by `h` grid. */
  predicate Inside(w: nat, h: nat, p: Pos)
  {
    0 <= p.x < w && 0 <= p.y < h
  }

  predicate InBounds(img: Image, p: Pos)
  {
    Inside(Width(img), Height(img), p)
  }

  /** Two rectangular images of the same dimensions. */
  predicate SameShape(a: Image, b: Image)
  {
    Rectangular(a) && Rectangular(b) && Height(a) == Height(b) && Width(a) == Width(b)
  }

  /** `get_pixel(x, y)`. */
  function Get(img: Image, p: Pos): Color
    requires Rectangular(img) && InBounds(img, p)
  {
    img[p.y][p.x]
  }

  /** `*get_pixel_mut(x, y) = c`. */
  function Set(img: Image, p: Pos, c: Color): (r: Image)
    requires Rectangular(img) && InBounds(img, p)
    ensures SameShape(img, r)
    ensures Get(r, p) == c
    ensures forall q :: InBounds(r, q) && q != p ==> Get(r, q) == Get(img, q)
  {
    img[p.y := img[p.y][p.x := c]]
  }

  /** Every pixel is a palette colour. */
  ghost predicate AllInPalette(img: Image)
    requires Rectangular(img)
  {
    forall q :: InBounds(img, q) ==> Get(img, q) in Palette()
  }

  /** Images of the same shape that agree on every pixel are equal. */
  lemma Extensionality(a: Image, b: Image)
    requires SameShape(a, b)
    requires forall q :: InBounds(a, q) ==> Get(a, q) == Get(b, q)
    ensures a == b
  {
    forall y | 0 <= y < |a|
      ensures a[y] == b[y]
    {
      forall x | 0 <= x < |a[y]|
        ensures a[y][x] == b[y][x]
      {
        assert Get(a, Pos(x, y)) == Get(b, Pos(x, y));
      }
    }
  }
}
