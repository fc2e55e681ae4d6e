/**
 * The pixel grid of a document: `height` rows of `width` colours, every one
 * transparent black when the image is made, read and written one cell at a time.
 */
module Images {
  import opened Wrappers
  import opened Colors

  /** The colour every pixel of a new image starts as: black with alpha 0. */
  function Transparent(): (c: Color)
    ensures c.r == 0 && c.g == 0 && c.b == 0 && c.a == 0.0
  {
    Make(0, 0, 0, 0.0)
  }

  class Image {
    var width: int
    var height: int
    /** Row `y`, column `x` holds the colour at `(x, y)`. */
    var pixels: array2<Color>

    /** The grid has one row per unit of height and one column per unit of width (none when negative). */
    ghost predicate Valid()
      reads this
    {
      pixels.Length0 == MaxInt(0, height) && pixels.Length1 == MaxInt(0, width)
    }

    /** The coordinates `getPixel` and `setPixel` accept. */
    predicate InBounds(x: int, y: int)
      reads this
    {
      0 <= x < width && 0 <= y < height
    }

    /** A `w` by `h` image whose every pixel is transparent black. */
    constructor(w: int, h: int)
      ensures width == w && height == h
      ensures Valid() && fresh(pixels)
      ensures forall y, x :: 0 <= y < pixels.Length0 && 0 <= x < pixels.Length1 ==> pixels[y, x] == Transparent()
    {
      width := w;
      height := h;
      pixels := new Color[MaxInt(0, h), MaxInt(0, w)]((y, x) => Transparent());
    }

    /** The colour at `(x, y)`, or `None` outside the image. */
    function GetPixel(x: int, y: int): (r: Option<Color>)
      requires Valid()
      reads this, pixels
      ensures r.Some? <==> InBounds(x, y)
      ensures r.Some? ==> 0 <= y < pixels.Length0 && 0 <= x < pixels.Length1 && r.value == pixels[y, x]
    {
      if 0 <= x < width && 0 <= y < height then Some(pixels[y, x]) else None
    }

    /** Paints `(x, y)` with `c`; outside the image nothing changes. */
    method SetPixel(x: int, y: int, c: Color)
      requires Valid()
      modifies pixels
      ensures Valid()
      ensures forall j, i :: 0 <= j < pixels.Length0 && 0 <= i < pixels.Length1 ==>
        pixels[j, i] == if j == y && i == x then c else old(pixels[j, i])
    {
      if 0 <= x < width && 0 <= y < height {
        pixels[y, x] := c;
      }
    }
  }

  /** A new image reads transparent black everywhere inside it and nothing outside it. */
  method NewImageIsClear(w: int, h: int, x: int, y: int) returns (img: Image)
    ensures img.Valid() && img.width == w && img.height == h
    ensures img.GetPixel(x, y) == if 0 <= x < w && 0 <= y < h then Some(Transparent()) else None
  {
    img := new Image(w, h);
  }

  /** After painting `(x, y)`, reading `(x, y)` gives the new colour and every other pixel reads as before. */
  method SetThenGet(img: Image, x: int, y: int, c: Color, qx: int, qy: int)
    requires img.Valid()
    modifies img.pixels
    ensures img.Valid()
    ensures img.GetPixel(x, y) == if img.InBounds(x, y) then Some(c) else None
    ensures (qx, qy) != (x, y) ==> img.GetPixel(qx, qy) == old(img.GetPixel(qx, qy))
  {
    img.SetPixel(x, y, c);
  }
}
