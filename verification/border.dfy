/** `img_border` (models.py:7-59): pad a photo into a canvas of the target
    ratio, centre it, and optionally resize the result. The canvas fill
    and the paste itself are PIL's; the model computes the canvas and the
    paste offset. */
module Borders {
  import opened Results
  import opened Geometry
  import opened Tokens
  import opened Frames
  import opened Grid

  /** A canvas and the offset at which the photo is pasted on it. */
  datatype Placement = Placement(canvas: Size, left: int, top: int)

  /** What a framing request produces: one image, or panorama tiles. */
  datatype Output = Image(size: Size) | Tiles(pano: Pano)

  /** Grow the width by twice the padding and derive the height from it,
      flooring before multiplying (`new_width // ratio[0] * ratio[1]`). */
  function WidthFirst(img: Size, r: Ratio, pad: nat): (c: Size)
    requires r.w > 0
  {
    var nw := img.w + 2 * pad;
    Size(nw, nw / r.w * r.h)
  }

  /** Grow the height by twice the padding and derive the width from it. */
  function HeightFirst(img: Size, r: Ratio, pad: nat): (c: Size)
    requires r.h > 0
  {
    var nh := img.h + 2 * pad;
    Size(nh / r.h * r.w, nh)
  }

  /** `c` has the width of a width-first canvas and the largest height that
      is a multiple of `r.h` and not above the exact ratio. */
  predicate WidthLed(img: Size, r: Ratio, pad: nat, c: Size)
  {
    && r.w > 0 && r.h > 0
    && c.w == img.w + 2 * pad
    && c.h % r.h == 0
    && 0 <= c.w * r.h - c.h * r.w < r.w * r.h
  }

  /** The transpose: the height is grown, the width is the largest multiple
      of `r.w` not above the exact ratio. */
  predicate HeightLed(img: Size, r: Ratio, pad: nat, c: Size)
  {
    && r.w > 0 && r.h > 0
    && c.h == img.h + 2 * pad
    && c.w % r.w == 0
    && 0 <= c.h * r.w - c.w * r.h < r.w * r.h
  }

  /** The photo sits in the middle: equal padding on both sides of each
      axis, the odd pixel going to the right or bottom. */
  predicate CentredOn(img: Size, p: Placement)
  {
    && 2 * p.left <= p.canvas.w - img.w <= 2 * p.left + 1
    && 2 * p.top <= p.canvas.h - img.h <= 2 * p.top + 1
  }

  /** The border geometry of `img_border` (models.py:31-49). A square photo
      takes the portrait branch, as the test is a strict `>`. */
  function BorderGeometry(img: Size, r: Ratio, pad: nat): (p: Placement)
    requires r.w > 0 && r.h > 0
    ensures WidthLed(img, r, pad, p.canvas) || HeightLed(img, r, pad, p.canvas)
    ensures img.w > img.h ==> WidthLed(img, r, pad, p.canvas)
    ensures CentredOn(img, p)
  {
    WidthFirstLed(img, r, pad);
    HeightFirstLed(img, r, pad);
    var c :=
      if img.w > img.h then WidthFirst(img, r, pad)
      else if r.w == 9 then
        var first := WidthFirst(img, r, pad);
        if first.h - img.h <= 0 then HeightFirst(img, r, pad) else first
      else
        var first := HeightFirst(img, r, pad);
        if first.w - img.w <= 0 then WidthFirst(img, r, pad) else first;
    Placement(c, (c.w - img.w) / 2, (c.h - img.h) / 2)
  }

  lemma WidthFirstLed(img: Size, r: Ratio, pad: nat)
    requires r.w > 0 && r.h > 0
    ensures WidthLed(img, r, pad, WidthFirst(img, r, pad))
  {
    FloorToMultiple(img.w + 2 * pad, r.w, r.h);
  }

  lemma HeightFirstLed(img: Size, r: Ratio, pad: nat)
    requires r.w > 0 && r.h > 0
    ensures HeightLed(img, r, pad, HeightFirst(img, r, pad))
  {
    FloorToMultiple(img.h + 2 * pad, r.h, r.w);
  }

  /** `n // a * b` is a multiple of `b` within one `a * b` below `n * b / a`. */
  lemma FloorToMultiple(n: nat, a: nat, b: nat)
    requires a > 0 && b > 0
    ensures (n / a * b) % b == 0
    ensures 0 <= n * b - (n / a * b) * a < a * b
  {
    var q := n / a;
    var rem := n % a;
    DivMod(n, a);
    MultipleMod(q, b);
    assert n * b == a * q * b + rem * b;
    assert (q * b) * a == a * q * b;
    assert rem * b < a * b by { MulLeInt(rem + 1, a, b); }
  }

  /** Which side leads in each of the three branches and their fallbacks:
      a landscape photo is always width-led; a portrait or square photo on a
      9-wide ratio is width-led exactly when the width-led canvas comes out
      taller than the photo, and height-led otherwise; on any other ratio it
      is height-led exactly when the height-led canvas comes out wider than
      the photo, and width-led otherwise. */
  lemma BorderBranches(img: Size, r: Ratio, pad: nat)
    requires r.w > 0 && r.h > 0
    ensures var c := BorderGeometry(img, r, pad).canvas;
      && (img.w > img.h ==> WidthLed(img, r, pad, c))
      && (img.w <= img.h && r.w == 9 && (img.w + 2 * pad) / r.w * r.h > img.h ==> WidthLed(img, r, pad, c))
      && (img.w <= img.h && r.w == 9 && (img.w + 2 * pad) / r.w * r.h <= img.h ==> HeightLed(img, r, pad, c))
      && (img.w <= img.h && r.w != 9 && (img.h + 2 * pad) / r.h * r.w > img.w ==> HeightLed(img, r, pad, c))
      && (img.w <= img.h && r.w != 9 && (img.h + 2 * pad) / r.h * r.w <= img.w ==> WidthLed(img, r, pad, c))
  {
    WidthFirstLed(img, r, pad);
    HeightFirstLed(img, r, pad);
  }

  /** With at least 8 pixels of padding the canvas covers the photo, so it
      is pasted at a non-negative offset, except for a landscape photo and
      a ratio wider than high (3:2), which has no fallback. */
  lemma BorderCovers(img: Size, r: Ratio, pad: nat)
    requires r in KnownRatios && pad >= 8
    requires !(img.w > img.h && r.w > r.h)
    ensures var p := BorderGeometry(img, r, pad);
      p.canvas.w >= img.w && p.canvas.h >= img.h && p.left >= 0 && p.top >= 0
  {
    var p := BorderGeometry(img, r, pad);
    if img.w > img.h {
      GrowsAlong(img.w, pad, r.w, r.h);
    } else if r.w == 9 {
      if WidthFirst(img, r, pad).h <= img.h {
        FallbackCovers(img.w, img.h, pad, r.w, r.h);
      }
    } else {
      if HeightFirst(img, r, pad).w <= img.w {
        FallbackCovers(img.h, img.w, pad, r.h, r.w);
      }
    }
  }

  /** A ratio at least as high as wide never shrinks a grown side. */
  lemma GrowsAlong(w: nat, pad: nat, x: nat, y: nat)
    requires 0 < x <= y && 2 * pad >= x
    ensures (w + 2 * pad) / x * y > w
  {
    var n := w + 2 * pad;
    var q := n / x;
    DivMod(n, x);
    MulLeInt(x, y, q);
    assert q * x == x * q;
  }

  /** When deriving `b`'s side from `a`'s did not grow it, deriving `a`'s
      side from the grown `b` does grow it. */
  lemma FallbackCovers(a: nat, b: nat, pad: nat, x: nat, y: nat)
    requires x > 0 && y > 0 && 2 * pad >= y
    requires (a + 2 * pad) / x * y <= b
    ensures (b + 2 * pad) / y * x > a
  {
    var q := (a + 2 * pad) / x;
    DivMod(a + 2 * pad, x);
    assert q * y + y <= b + 2 * pad;
    assert (q + 1) * y == q * y + y;
    MulDivCancel(q + 1, y);
    DivMonotone((q + 1) * y, b + 2 * pad, y);
    MulLeInt(q + 1, (b + 2 * pad) / y, x);
    assert (q + 1) * x == x * q + x;
  }

  /** A landscape photo only a little wider than high is cropped by a 3:2
      canvas: 1100x1000 with 100 pixels of padding gets a 1300x866 canvas
      and is pasted 67 pixels above its top edge. */
  lemma LandscapeThreeTwoCrops()
    ensures BorderGeometry(Size(1100, 1000), Ratio(3, 2), 100) == Placement(Size(1300, 866), 100, -67)
  {
  }

  /** `img_border` as a whole. With a frame requested the photo is first
      framed and the padding drops to 10; `pano_crop` splits into tiles;
      otherwise the canvas is computed and resized unless `best`. */
  function Border(img: Size, ratio: string, resolution: string, pad: nat, blackBorder: bool): (r: Result<Output>)
    ensures r.Ok? ==> (r.value.Tiles? <==> ratio == "pano_crop")
    ensures !blackBorder && ratio != "pano_crop" && resolution == "best" ==>
      r == Ok(Image(BorderGeometry(img, ParseRatio(ratio), pad).canvas))
  {
    if blackBorder then
      var framed :- AddBlackBorder(img);
      Finish(framed.canvas, ratio, resolution, 10)
    else
      Finish(img, ratio, resolution, pad)
  }

  /** The part of `img_border` after the optional frame (models.py:19-59). */
  function Finish(img: Size, ratio: string, resolution: string, pad: nat): (r: Result<Output>)
    ensures r.Ok? ==> (r.value.Tiles? <==> ratio == "pano_crop")
  {
    if ratio == "pano_crop" then
      var pano :- PanoCrop(img);
      Ok(Tiles(pano))
    else
      var placed := BorderGeometry(img, ParseRatio(ratio), pad);
      match ParseResolution(resolution)
      case None => Ok(Image(placed.canvas))
      case Some(edge) =>
        var resized :- Resize(placed.canvas, edge);
        Ok(Image(resized))
  }

  /** With at least 8 pixels of padding a bordered canvas is never empty. */
  lemma GeometryPositive(img: Size, r: Ratio, pad: nat)
    requires r in KnownRatios && pad >= 8
    ensures Positive(BorderGeometry(img, r, pad).canvas)
  {
    var nw, nh := img.w + 2 * pad, img.h + 2 * pad;
    DivMonotone(16, nw, r.w);
    DivMonotone(16, nh, r.h);
  }

  /** Bordering a photo succeeds for every ratio but `pano_crop`, and gives a
      non-empty image whose short edge is the requested resolution, or, for
      `best`, a canvas of the target ratio. */
  lemma BorderTotal(img: Size, ratio: string, resolution: string, pad: nat, blackBorder: bool)
    requires Positive(img) && ratio != "pano_crop" && (pad >= 8 || blackBorder)
    ensures Border(img, ratio, resolution, pad, blackBorder).Ok?
    ensures var out := Border(img, ratio, resolution, pad, blackBorder).value;
      && out.Image? && Positive(out.size)
      && (resolution == "best" ==>
            var base := if blackBorder then AddBlackBorder(img).value.canvas else img;
            var p := if blackBorder then 10 else pad;
            WidthLed(base, ParseRatio(ratio), p, out.size) || HeightLed(base, ParseRatio(ratio), p, out.size))
      && (resolution != "best" ==> ShortEdge(out.size) == ParseResolution(resolution).value)
  {
    var base := if blackBorder then AddBlackBorder(img).value.canvas else img;
    var p := if blackBorder then 10 else pad;
    var r := ParseRatio(ratio);
    GeometryPositive(base, r, p);
    var placed := BorderGeometry(base, r, p);
    if resolution != "best" {
      ResizeKeepsShape(placed.canvas, ParseResolution(resolution).value);
    }
  }

  /** A 2000x1000 photo with ratio 3:2 and 100 pixels of padding: a
      2200x1466 canvas with the photo at (100, 233). */
  lemma LandscapeThreeTwo()
    ensures BorderGeometry(Size(2000, 1000), Ratio(3, 2), 100) == Placement(Size(2200, 1466), 100, 233)
    ensures Border(Size(2000, 1000), "32", "best", 100, false) == Ok(Image(Size(2200, 1466)))
  {
  }

  /** A 1000x1000 photo with ratio `sq`: a 1200x1200 canvas with the photo
      at (100, 100). */
  lemma SquareOnSquare()
    ensures BorderGeometry(Size(1000, 1000), Ratio(1, 1), 100) == Placement(Size(1200, 1200), 100, 100)
    ensures Border(Size(1000, 1000), "sq", "best", 100, false) == Ok(Image(Size(1200, 1200)))
  {
  }
}
