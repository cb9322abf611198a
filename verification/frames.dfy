/** The frame-overlay selector `add_black_border` (models.py:167-224):
    a fixed catalog of ten aspect ratios, each with the canvas of its
    pre-rendered frame and the short edge the photo is resized to. The
    overlay's pixels and the loading of its asset are not modelled; the
    result is the canvas and where the resized photo sits on it. */
module Frames {
  import opened Results
  import opened Geometry

  /** One catalog entry: the ratio `num/den` it matches, the frame's canvas
      and the short edge the photo is resized to before it is pasted. */
  datatype FrameEntry = FrameEntry(num: nat, den: nat, canvas: Size, shortEdge: nat)

  /** The ten entries in the order the source tests them: five horizontal
      ratios, then their vertical transposes. */
  const Catalog: seq<FrameEntry> := [
    FrameEntry(16, 9, Size(3840, 2160), 2070),
    FrameEntry(3, 2, Size(3840, 2560), 2453),
    FrameEntry(2, 1, Size(3840, 1920), 1840),
    FrameEntry(5, 4, Size(3840, 3072), 2944),
    FrameEntry(4, 3, Size(3840, 2880), 2760),
    FrameEntry(9, 16, Size(2160, 3840), 2070),
    FrameEntry(2, 3, Size(2560, 3840), 2453),
    FrameEntry(1, 2, Size(1920, 3840), 1840),
    FrameEntry(4, 5, Size(3072, 3840), 2944),
    FrameEntry(3, 4, Size(2880, 3840), 2760)
  ]

  /** The entry used when no ratio matches: the horizontal 3:2 frame. */
  const Fallback: FrameEntry := FrameEntry(3, 2, Size(3840, 2560), 2453)

  /** The photo's aspect ratio `img_width / img_height`, exactly. */
  function Aspect(img: Size): (a: real)
    requires img.h > 0
  {
    img.w as real / img.h as real
  }

  /** The source's window test `-0.001 < r - num/den < 0.001`. */
  predicate Near(r: real, e: FrameEntry)
  {
    e.den > 0 && -0.001 < r - e.num as real / e.den as real < 0.001
  }

  /** The if/elif chain of the source from entry `k` on. Whatever it picks,
      the photo's short edge is below both sides of the frame's canvas. */
  function SelectFrom(r: real, k: nat): (e: FrameEntry)
    requires k <= |Catalog|
    ensures e.shortEdge < e.canvas.w && e.shortEdge < e.canvas.h
    decreases |Catalog| - k
  {
    if k == |Catalog| then Fallback
    else if Near(r, Catalog[k]) then Catalog[k]
    else SelectFrom(r, k + 1)
  }

  /** The whole chain; which entry it picks is stated by `SelectFindsMatch`
      and `SelectFallback`. */
  function Select(r: real): (e: FrameEntry)
    ensures e.shortEdge < e.canvas.w && e.shortEdge < e.canvas.h
  {
    SelectFrom(r, 0)
  }

  /** The canvas of the frame and the resized photo centred on it. */
  datatype Framed = Framed(canvas: Size, photo: Size, left: int, top: int)

  /** `add_black_border`: a zero height divides by zero (`r = w / h`), a
      zero width makes the resize divide by zero. */
  function AddBlackBorder(img: Size): (r: Result<Framed>)
    ensures r.Ok? <==> Positive(img)
    ensures r.Ok? ==> r.value.canvas == Select(Aspect(img)).canvas
    ensures r.Ok? ==> Resize(img, Select(Aspect(img)).shortEdge) == Ok(r.value.photo)
    ensures r.Ok? ==> Centred(r.value)
  {
    if img.h == 0 then Err(DivisionByZero)
    else
      var e := Select(Aspect(img));
      var photo :- Resize(img, e.shortEdge);
      Ok(Framed(e.canvas, photo, (e.canvas.w - photo.w) / 2, (e.canvas.h - photo.h) / 2))
  }

  /** Padding on each side equal, the odd pixel going right or bottom. */
  predicate Centred(f: Framed)
  {
    && 2 * f.left <= f.canvas.w - f.photo.w <= 2 * f.left + 1
    && 2 * f.top <= f.canvas.h - f.photo.h <= 2 * f.top + 1
  }

  /** No two windows overlap: the ten ratios lie more than 0.002 apart. */
  lemma WindowsDisjoint(r: real, i: nat, j: nat)
    requires i < j < |Catalog|
    ensures !(Near(r, Catalog[i]) && Near(r, Catalog[j]))
  {
  }

  /** Hence the first match is the only match and the order of the chain
      does not matter: a photo near an entry's ratio gets that entry. */
  lemma {:induction false} SelectFindsMatch(r: real, i: nat)
    requires i < |Catalog| && Near(r, Catalog[i])
    ensures Select(r) == Catalog[i]
  {
    SelectFromFinds(r, 0, i);
  }

  lemma {:induction false} SelectFromFinds(r: real, k: nat, i: nat)
    requires k <= i < |Catalog| && Near(r, Catalog[i])
    ensures SelectFrom(r, k) == Catalog[i]
    decreases i - k
  {
    if k < i {
      WindowsDisjoint(r, k, i);
      SelectFromFinds(r, k + 1, i);
    }
  }

  /** A photo near none of the ten ratios gets the 3:2 fallback frame. */
  lemma {:induction false} SelectFallback(r: real)
    requires forall i :: 0 <= i < |Catalog| ==> !Near(r, Catalog[i])
    ensures Select(r) == Fallback
  {
    SelectFromFallback(r, 0);
  }

  lemma {:induction false} SelectFromFallback(r: real, k: nat)
    requires k <= |Catalog|
    requires forall i :: 0 <= i < |Catalog| ==> !Near(r, Catalog[i])
    ensures SelectFrom(r, k) == Fallback
    decreases |Catalog| - k
  {
    if k < |Catalog| {
      SelectFromFallback(r, k + 1);
    }
  }

  /** Every frame canvas has exactly its entry's ratio; the vertical
      entries transpose the horizontal ones and keep their short edge. */
  lemma CatalogShape(i: nat)
    requires i < |Catalog|
    ensures Catalog[i].canvas.w * Catalog[i].den == Catalog[i].canvas.h * Catalog[i].num
    ensures i < 5 ==> Catalog[i + 5] == FrameEntry(Catalog[i].den, Catalog[i].num,
      Size(Catalog[i].canvas.h, Catalog[i].canvas.w), Catalog[i].shortEdge)
    ensures Catalog[i].shortEdge < ShortEdge(Catalog[i].canvas)
  {
  }

  /** A photo that matches an entry fits inside that entry's frame once
      resized: it is pasted at a non-negative offset and never cropped. */
  lemma FrameFits(img: Size, i: nat)
    requires Positive(img) && i < |Catalog| && Near(Aspect(img), Catalog[i])
    ensures AddBlackBorder(img).Ok?
    ensures var f := AddBlackBorder(img).value;
      && f.canvas == Catalog[i].canvas
      && f.photo.w <= f.canvas.w && f.photo.h <= f.canvas.h
      && 0 <= f.left && 0 <= f.top
  {
    SelectFindsMatch(Aspect(img), i);
    var e := Catalog[i];
    var ratio := e.num as real / e.den as real;
    if i < 5 {
      WiderThanHigh(img.w, img.h, ratio - 0.001);
      MulDivCancel(e.shortEdge, img.h);
      BelowAspect(img.w, img.h, ratio + 0.001, e.shortEdge, e.canvas.w);
    } else {
      HigherThanWide(img.w, img.h, ratio + 0.001);
      MulDivCancel(e.shortEdge, img.w);
      AboveAspect(img.w, img.h, ratio - 0.001, e.shortEdge, e.canvas.h);
    }
  }

  lemma WiderThanHigh(w: nat, h: nat, c: real)
    requires h > 0 && c >= 1.0 && w as real / h as real > c
    ensures w > h
  {
    RealQuotient(w, h);
  }

  lemma HigherThanWide(w: nat, h: nat, c: real)
    requires h > 0 && c <= 1.0 && w as real / h as real < c
    ensures w < h
  {
    RealQuotient(w, h);
  }

  lemma RealQuotient(w: nat, h: nat)
    requires h > 0
    ensures (w as real / h as real) * h as real == w as real
  {
  }

  /** An aspect below `c` bounds the width scaled to a short edge `se`. */
  lemma BelowAspect(w: nat, h: nat, c: real, se: nat, bound: nat)
    requires h > 0 && c > 0.0 && w as real / h as real < c
    requires c * se as real <= (bound + 1) as real
    ensures w * se / h <= bound
  {
    RealQuotient(w, h);
    assert w as real < c * h as real;
    assert (w * se) as real < (bound + 1) as real * h as real;
    assert w * se < (bound + 1) * h;
    FloorDiv(w, se, h);
    if w * se / h > bound {
      MulLeInt(bound + 1, w * se / h, h);
    }
  }

  /** An aspect above `c` bounds the height scaled to a short edge `se`. */
  lemma AboveAspect(w: nat, h: nat, c: real, se: nat, bound: nat)
    requires h > 0 && w > 0 && c > 0.0 && w as real / h as real > c
    requires se as real <= (bound + 1) as real * c
    ensures h * se / w <= bound
  {
    RealQuotient(w, h);
    assert w as real > c * h as real;
    assert (h * se) as real < (bound + 1) as real * w as real;
    assert h * se < (bound + 1) * w;
    FloorDiv(h, se, w);
    if h * se / w > bound {
      MulLeInt(bound + 1, h * se / w, w);
    }
  }

  /** A square photo is near none of the ten ratios and gets the 3:2
      fallback frame: 3840x2560, resized to 2453x2453, pasted at (693, 53). */
  lemma SquareGetsFallback(side: nat)
    requires side > 0
    ensures AddBlackBorder(Size(side, side)) == Ok(Framed(Size(3840, 2560), Size(2453, 2453), 693, 53))
  {
    var img := Size(side, side);
    RealQuotient(side, side);
    assert Aspect(img) == 1.0;
    SelectFallback(1.0);
    MulDivCancel(2453, side);
  }
}
