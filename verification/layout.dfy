/** The base case of `collage` (models.py:125-159) and `resize_collage`
    (models.py:255-286): equalise the cross-axis extent, then pack the
    images along the stacking axis with a gap between neighbours. */
module Layout {
  import opened Results
  import opened Geometry

  /** A paste offset: column `x`, row `y`. */
  datatype Point = Point(x: nat, y: nat)

  /** The canvas of a stack and the offset of each image on it. */
  datatype Arrangement = Arrangement(canvas: Size, places: seq<Point>)

  /** Whether `resize_collage` resizes the image at all: its extent across
      the stacking axis is above the least one. */
  predicate Shrinks(s: Size, vertical: bool, least: nat)
  {
    if vertical then s.w > least else s.h > least
  }

  /** The size an image is resized to in a stack: to the smallest width
      when stacking vertically, to the smallest height otherwise, with the
      other side truncated in proportion; an image already at the minimum
      is left as it is. */
  function ResizedOne(s: Size, vertical: bool, least: nat): (t: Size)
    ensures !Shrinks(s, vertical, least) ==> t == s
    ensures Shrinks(s, vertical, least) && vertical ==> t.w == least && ProportionalFloor(s.h, least, s.w, t.h)
    ensures Shrinks(s, vertical, least) && !vertical ==> t.h == least && ProportionalFloor(s.w, least, s.h, t.w)
  {
    if vertical then
      if s.w > least then Size(least, Scale(s.h, least, s.w)) else s
    else
      if s.h > least then Size(Scale(s.w, least, s.h), least) else s
  }

  /** PIL can carry out the resize: the image is left alone, or the side
      scaled in proportion is at least one pixel, i.e. that side times the
      least extent reaches the image's own extent. */
  predicate Resizable(s: Size, vertical: bool, least: nat)
  {
    Shrinks(s, vertical, least) ==>
      if vertical then s.h * least >= s.w else s.w * least >= s.h
  }

  /** A side scaled by `num / den` and truncated is non-zero exactly when
      `x * num` reaches `den`. */
  lemma ScalePositive(x: nat, num: nat, den: nat)
    requires den > 0
    ensures Scale(x, num, den) > 0 <==> x * num >= den
  {
    var v := Scale(x, num, den);
    if v > 0 {
      MulLeInt(1, v, den);
    }
  }

  /** An image is resizable exactly when the size it is resized to has no
      zero side. */
  lemma ResizableIff(s: Size, vertical: bool, least: nat)
    ensures Resizable(s, vertical, least) <==>
      (Shrinks(s, vertical, least) ==> Positive(ResizedOne(s, vertical, least)))
  {
    if Shrinks(s, vertical, least) {
      if vertical {
        ScalePositive(s.h, least, s.w);
      } else {
        ScalePositive(s.w, least, s.h);
      }
    }
  }

  /** Every image of a list is resizable exactly when none shrinks to a
      zero side. */
  lemma ResizableAll(shapes: seq<Size>, vertical: bool, least: nat)
    ensures (forall i :: 0 <= i < |shapes| ==> Resizable(shapes[i], vertical, least)) <==>
      !exists i :: 0 <= i < |shapes| && Shrinks(shapes[i], vertical, least) && !Positive(ResizedOne(shapes[i], vertical, least))
  {
    forall i | 0 <= i < |shapes| {
      ResizableIff(shapes[i], vertical, least);
    }
  }

  /** The smallest extent across the stacking axis. */
  function Least(shapes: seq<Size>, vertical: bool): (m: nat)
    requires |shapes| > 0
    ensures forall i :: 0 <= i < |shapes| ==> !Shrinks(shapes[i], vertical, m) ==>
      (if vertical then shapes[i].w else shapes[i].h) == m
    ensures exists i :: 0 <= i < |shapes| && !Shrinks(shapes[i], vertical, m)
  {
    if vertical then Min(Widths(shapes)) else Min(Heights(shapes))
  }

  /** The sizes `resize_collage` gives the images. It fails, as PIL's
      `resize` does, as soon as an image would shrink to a zero side. */
  function Resized(shapes: seq<Size>, vertical: bool): (r: Result<seq<Size>>)
    requires |shapes| > 0
    ensures r.Ok? <==> forall i :: 0 <= i < |shapes| ==> Resizable(shapes[i], vertical, Least(shapes, vertical))
    ensures r.Err? ==> r.error == EmptyResize
    ensures r.Ok? ==> |r.value| == |shapes|
    ensures r.Ok? ==> forall i :: 0 <= i < |shapes| ==> Positive(shapes[i]) ==> Positive(r.value[i])
  {
    var least := Least(shapes, vertical);
    ResizableAll(shapes, vertical, least);
    if exists i :: 0 <= i < |shapes| && Shrinks(shapes[i], vertical, least) && !Positive(ResizedOne(shapes[i], vertical, least))
    then Err(EmptyResize)
    else Ok(seq(|shapes|, i requires 0 <= i < |shapes| => ResizedOne(shapes[i], vertical, least)))
  }

  /** `resize_collage`: the loop over the images, one resized shape each,
      stopping at the first image PIL cannot resize. */
  method ResizeCollage(shapes: seq<Size>, vertical: bool) returns (r: Result<seq<Size>>)
    requires |shapes| > 0
    ensures r == Resized(shapes, vertical)
  {
    var least := if vertical then Min(Widths(shapes)) else Min(Heights(shapes));
    assert least == Least(shapes, vertical);
    var resized := [];
    var i := 0;
    while i < |shapes|
      invariant 0 <= i <= |shapes|
      invariant |resized| == i
      invariant forall k :: 0 <= k < i ==> resized[k] == ResizedOne(shapes[k], vertical, least)
      invariant forall k :: 0 <= k < i ==> Shrinks(shapes[k], vertical, least) ==> Positive(resized[k])
    {
      var s := shapes[i];
      var next := s;
      if (vertical && s.w > least) || (!vertical && s.h > least) {
        var dim := if vertical then Size(least, Scale(s.h, least, s.w)) else Size(Scale(s.w, least, s.h), least);
        if dim.w == 0 || dim.h == 0 {
          assert Shrinks(s, vertical, least) && !Positive(ResizedOne(s, vertical, least));
          return Err(EmptyResize);
        }
        next := dim;
      }
      resized := resized + [next];
      i := i + 1;
    }
    assert !exists k :: 0 <= k < |shapes| && Shrinks(shapes[k], vertical, least) && !Positive(ResizedOne(shapes[k], vertical, least));
    assert Resized(shapes, vertical).value == resized;
    r := Ok(resized);
  }

  /** After resizing every image has the least cross-axis extent, its other
      side is its own scaled in proportion and floored, and an image
      already at the least extent is unchanged. */
  lemma ResizedEqualises(shapes: seq<Size>, vertical: bool, i: nat)
    requires i < |shapes| && Resized(shapes, vertical).Ok?
    ensures var r, least := Resized(shapes, vertical).value[i], Least(shapes, vertical);
      && (vertical ==> r.w == least && (shapes[i].w > least ==> ProportionalFloor(shapes[i].h, least, shapes[i].w, r.h)))
      && (!vertical ==> r.h == least && (shapes[i].h > least ==> ProportionalFloor(shapes[i].w, least, shapes[i].h, r.w)))
      && (!Shrinks(shapes[i], vertical, least) ==> r == shapes[i])
  {
  }

  /** Where each image starts along the stacking axis: after the extents
      of the images before it and one gap per image before it. */
  function Offsets(ext: seq<nat>, pad: nat): (o: seq<nat>)
    ensures |o| == |ext|
  {
    seq(|ext|, i requires 0 <= i < |ext| => Sum(ext[..i]) + i * pad)
  }

  /** The length of the stack: all extents and `(n - 1)` gaps. */
  function Span(ext: seq<nat>, pad: nat): (len: nat)
    requires |ext| > 0
  {
    Sum(ext) + (|ext| - 1) * pad
  }

  /** Every image ends inside the stack. */
  lemma OffsetsInside(ext: seq<nat>, pad: nat, i: nat)
    requires i < |ext|
    ensures Offsets(ext, pad)[i] + ext[i] <= Span(ext, pad)
  {
    SumBounds(ext, i);
    MulLeInt(i, |ext| - 1, pad);
  }

  /** Each image starts at least `pad` after the end of every earlier one. */
  lemma OffsetsOrdered(ext: seq<nat>, pad: nat, i: nat, j: nat)
    requires i < j < |ext|
    ensures Offsets(ext, pad)[i] + ext[i] + pad <= Offsets(ext, pad)[j]
  {
    SumPrefixStep(ext, i);
    SumPrefixMonotone(ext, i + 1, j);
    MulLeInt(i + 1, j, pad);
    assert (i + 1) * pad == i * pad + pad;
  }

  /** The stack of models.py:129-159: along the stacking axis the extents
      and gaps add up, across it the largest extent is taken. */
  function Stack(tiles: seq<Size>, vertical: bool, pad: nat): (a: Arrangement)
    requires |tiles| > 0
    ensures |a.places| == |tiles|
  {
    var n := |tiles|;
    if vertical then
      var o := Offsets(Heights(tiles), pad);
      Arrangement(Size(Max(Widths(tiles)), Span(Heights(tiles), pad)),
                  seq(n, i requires 0 <= i < n => Point(0, o[i])))
    else
      var o := Offsets(Widths(tiles), pad);
      Arrangement(Size(Span(Widths(tiles), pad), Max(Heights(tiles))),
                  seq(n, i requires 0 <= i < n => Point(o[i], 0)))
  }

  /** The canvas of a collage's base case: the stack of the resized
      images, which fails exactly when one of them cannot be resized. */
  function BaseLayout(shapes: seq<Size>, vertical: bool, pad: nat): (r: Result<Arrangement>)
    requires |shapes| > 0
    ensures r.Ok? <==> forall i :: 0 <= i < |shapes| ==> Resizable(shapes[i], vertical, Least(shapes, vertical))
    ensures r.Err? ==> r == Err(EmptyResize)
    ensures r.Ok? ==> |r.value.places| == |shapes|
  {
    var resized :- Resized(shapes, vertical);
    Ok(Stack(resized, vertical, pad))
  }

  /** Whether pixel (`y`, `x`) lies in a `s`-sized image pasted at `at`. */
  predicate InRect(at: Point, s: Size, y: int, x: int)
  {
    at.y <= y < at.y + s.h && at.x <= x < at.x + s.w
  }

  /** Every image lies inside the canvas, at 0 across the stacking axis. */
  lemma StackInside(tiles: seq<Size>, vertical: bool, pad: nat, i: nat)
    requires i < |tiles|
    ensures var a := Stack(tiles, vertical, pad);
      && a.places[i].x + tiles[i].w <= a.canvas.w
      && a.places[i].y + tiles[i].h <= a.canvas.h
      && (vertical ==> a.places[i].x == 0)
      && (!vertical ==> a.places[i].y == 0)
  {
    if vertical {
      OffsetsInside(Heights(tiles), pad, i);
    } else {
      OffsetsInside(Widths(tiles), pad, i);
    }
  }

  /** The images follow one another along the stacking axis, each at least
      `pad` after the end of the one before, so no two overlap. */
  lemma StackOrdered(tiles: seq<Size>, vertical: bool, pad: nat, i: nat, j: nat)
    requires i < j < |tiles|
    ensures var a := Stack(tiles, vertical, pad);
      && (vertical ==> a.places[i].y + tiles[i].h + pad <= a.places[j].y)
      && (!vertical ==> a.places[i].x + tiles[i].w + pad <= a.places[j].x)
  {
    if vertical {
      OffsetsOrdered(Heights(tiles), pad, i, j);
    } else {
      OffsetsOrdered(Widths(tiles), pad, i, j);
    }
  }

  /** Two different images of a stack share no pixel. */
  lemma StackDisjoint(tiles: seq<Size>, vertical: bool, pad: nat, i: nat, j: nat, y: int, x: int)
    requires i < |tiles| && j < |tiles| && i != j
    ensures var a := Stack(tiles, vertical, pad);
      !(InRect(a.places[i], tiles[i], y, x) && InRect(a.places[j], tiles[j], y, x))
  {
    if i < j { StackOrdered(tiles, vertical, pad, i, j); }
    else { StackOrdered(tiles, vertical, pad, j, i); }
  }

  /** Two images 1000x800 and 1000x600 stacked vertically with a 120-pixel
      gap: a 1000x1520 canvas, the second image at y = 920. */
  lemma TwoStackedVertically()
    ensures BaseLayout([Size(1000, 800), Size(1000, 600)], true, 120) ==
      Ok(Arrangement(Size(1000, 1520), [Point(0, 0), Point(0, 920)]))
  {
    var shapes := [Size(1000, 800), Size(1000, 600)];
    assert Widths(shapes) == [1000, 1000];
    assert Min(Widths(shapes)) == 1000;
    assert Least(shapes, true) == 1000;
    assert forall i :: 0 <= i < 2 ==> !Shrinks(shapes[i], true, 1000);
    assert Resized(shapes, true).value == shapes;
    assert BaseLayout(shapes, true, 120) == Ok(Stack(shapes, true, 120));
    var hs := Heights(shapes);
    assert hs == [800, 600];
    assert hs[..0] == [] && hs[..1] == [800];
    assert Sum(hs[..1]) == 800 by { assert hs[..1][..0] == []; }
    assert Sum(hs) == 1400 by { assert hs[..1] == hs[..|hs| - 1]; }
    assert Offsets(hs, 120) == [0, 920];
    assert Max(Widths(shapes)) == 1000;
    assert Stack(shapes, true, 120) == Arrangement(Size(1000, 1520), [Point(0, 0), Point(0, 920)]);
  }

  /** A stack of images with positive sizes has a positive canvas. */
  lemma BaseLayoutPositive(shapes: seq<Size>, vertical: bool, pad: nat)
    requires |shapes| > 0 && forall i :: 0 <= i < |shapes| ==> Positive(shapes[i])
    ensures var b := BaseLayout(shapes, vertical, pad); b.Ok? ==> Positive(b.value.canvas)
  {
    var b := BaseLayout(shapes, vertical, pad);
    if b.Ok? {
      var r := Resized(shapes, vertical).value;
      assert Positive(r[0]);
      if vertical {
        assert Widths(r)[0] == r[0].w;
        OffsetsInside(Heights(r), pad, 0);
      } else {
        assert Heights(r)[0] == r[0].h;
        OffsetsInside(Widths(r), pad, 0);
      }
    }
  }

  /** A sliver of a collage: a 1x1000 and a 1000x10 image stacked
      vertically. The second is scaled to a width of 1 and a height of
      10/1000 truncated to 0, which PIL refuses. */
  lemma SliverCannotResize()
    ensures Resized([Size(1, 1000), Size(1000, 10)], true) == Err(EmptyResize)
  {
    var shapes := [Size(1, 1000), Size(1000, 10)];
    assert Widths(shapes) == [1, 1000];
    assert Least(shapes, true) == 1;
    assert !Resizable(shapes[1], true, 1);
  }
}
