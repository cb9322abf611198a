/** `collage` (models.py:62-164): the recursive arrangement of several
    images into one, on image sizes. */
module Collage {
  import opened Results
  import opened Geometry
  import opened Borders
  import opened Orientation
  import opened Layout

  /** The stacking direction after the overrides of models.py:78-81: the
      '32' ratio stacks side by side unless every image is horizontal, and
      images that are all vertical are always placed side by side. */
  function StackDirection(shapes: seq<Size>, ratio: string, stackVertical: bool): (v: bool)
    ensures v ==> stackVertical
    ensures ratio == "32" && !AllHorizontal(shapes) ==> !v
    ensures AllVertical(shapes) ==> !v
    ensures stackVertical && (ratio != "32" || AllHorizontal(shapes)) && !AllVertical(shapes) ==> v
  {
    var v := if ratio == "32" && !AllHorizontal(shapes) then false else stackVertical;
    if v && AllVertical(shapes) then false else v
  }

  /** How many images go in the first of the two groups (models.py:109):
      the larger half, so both groups are non-empty and smaller than the
      whole. */
  function SplitPoint(n: nat): (k: nat)
    requires n >= 2
    ensures 0 < n - k <= k < n
    ensures k - (n - k) <= 1
  {
    n - n / 2
  }

  /** A nested collage is used as an image; the tiles of a panorama are not
      one, so Python fails on `img.size`. */
  function AsImage(o: Output): (r: Result<Size>)
    ensures r.Ok? <==> o.Image?
    ensures r.Ok? ==> r.value == o.size
  {
    if o.Image? then Ok(o.size) else Err(NotAnImage)
  }

  /** `collage(img_files, ratio, resolution, color, min_pad, stack_vertical,
      collage_only)` on the sizes of the images. Every recursive call is on
      fewer images. An empty list fails as numpy's `np.min` of nothing does,
      and an image PIL cannot resize fails the whole collage. Without
      `collage_only` the stacked canvas goes through `img_border`; so does
      the final merge of a split collage in every case. */
  function Collage(shapes: seq<Size>, ratio: string, resolution: string, pad: nat,
                   stackVertical: bool, collageOnly: bool): (r: Result<Output>)
    ensures |shapes| == 0 ==> r == Err(EmptyCollage)
    ensures collageOnly && 0 < |shapes| <= 3 ==>
      var base := BaseLayout(shapes, StackDirection(shapes, ratio, stackVertical), pad);
      r == if base.Ok? then Ok(Image(base.value.canvas)) else Err(EmptyResize)
    ensures (&& !collageOnly && 0 < |shapes| <= 3
             && !(|shapes| == 3 && |WideOnes(shapes)| == 1)
             && !(|shapes| == 3 && |WideOnes(shapes)| == 2 && ratio != "vert")) ==>
      var base := BaseLayout(shapes, StackDirection(shapes, ratio, stackVertical), pad);
      r == if base.Ok? then Border(base.value.canvas, ratio, resolution, pad, false) else Err(EmptyResize)
    ensures r.Ok? ==> (r.value.Tiles? <==> ratio == "pano_crop" && (!collageOnly || |shapes| >= 4))
    decreases |shapes|
  {
    if |shapes| == 0 then Err(EmptyCollage)
    else
      var vertical := StackDirection(shapes, ratio, stackVertical);
      var wide, narrow := WideOnes(shapes), NarrowOnes(shapes);
      SplitByWidth(shapes);
      if |shapes| == 3 && !collageOnly && |wide| == 1 then
        var row :- Collage(narrow, ratio, resolution, pad, false, true);
        Collage([wide[0], row.size], ratio, resolution, pad, vertical, false)
      else if |shapes| == 3 && !collageOnly && |wide| == 2 && ratio != "vert" then
        var column :- Collage(wide, ratio, resolution, pad, true, true);
        Collage([column.size, narrow[0]], ratio, resolution, pad, vertical, false)
      else if |shapes| >= 4 then
        var k := SplitPoint(|shapes|);
        var sub := if ratio == "32" then true else vertical;
        var first :- Collage(shapes[..k], ratio, resolution, pad, sub, true);
        var second :- Collage(shapes[k..], ratio, resolution, pad, sub, true);
        var firstSize :- AsImage(first);
        var secondSize :- AsImage(second);
        Collage([firstSize, secondSize], ratio, resolution, pad, sub, false)
      else
        var layout :- BaseLayout(shapes, vertical, pad);
        if collageOnly then Ok(Image(layout.canvas)) else Border(layout.canvas, ratio, resolution, pad, false)
  }

  /** The outcome every collage of positive images with a ratio other than
      'pano_crop' and a gap of at least 8 pixels has: a positive image, or
      the failure of a resize PIL refuses. */
  predicate ImageOrEmptyResize(r: Result<Output>)
  {
    if r.Ok? then r.value.Image? && Positive(r.value.size) else r.error == EmptyResize
  }

  /** For positive images, a ratio other than 'pano_crop' and a gap of at
      least 8 pixels, a collage gives a positive image unless some image
      shrinks to a zero side on the way. */
  lemma {:induction false} CollageTotal(shapes: seq<Size>, ratio: string, resolution: string, pad: nat,
                                        stackVertical: bool, collageOnly: bool)
    requires |shapes| > 0 && forall i :: 0 <= i < |shapes| ==> Positive(shapes[i])
    requires ratio != "pano_crop" && pad >= 8
    ensures ImageOrEmptyResize(Collage(shapes, ratio, resolution, pad, stackVertical, collageOnly))
    decreases |shapes|, 2
  {
    var vertical := StackDirection(shapes, ratio, stackVertical);
    var wide := WideOnes(shapes);
    SplitByWidth(shapes);
    if |shapes| == 3 && !collageOnly && |wide| == 1 {
      OneWideTotal(shapes, ratio, resolution, pad, stackVertical);
    } else if |shapes| == 3 && !collageOnly && |wide| == 2 && ratio != "vert" {
      TwoWideTotal(shapes, ratio, resolution, pad, stackVertical);
    } else if |shapes| >= 4 {
      SplitTotal(shapes, ratio, resolution, pad, stackVertical, collageOnly);
    } else {
      BaseTotal(shapes, vertical, ratio, resolution, pad, collageOnly);
    }
  }

  /** The wide and the narrow images of positive images are positive. */
  lemma PositiveParts(shapes: seq<Size>)
    requires forall i :: 0 <= i < |shapes| ==> Positive(shapes[i])
    ensures forall i :: 0 <= i < |WideOnes(shapes)| ==> Positive(WideOnes(shapes)[i])
    ensures forall i :: 0 <= i < |NarrowOnes(shapes)| ==> Positive(NarrowOnes(shapes)[i])
  {
    var wide, narrow := WideOnes(shapes), NarrowOnes(shapes);
    forall i | 0 <= i < |wide| ensures Positive(wide[i]) {
      assert wide[i] in shapes;
    }
    forall i | 0 <= i < |narrow| ensures Positive(narrow[i]) {
      assert narrow[i] in shapes;
    }
  }

  /** The three-image rule of `CollageTotal` with one wide image. */
  lemma {:induction false} OneWideTotal(shapes: seq<Size>, ratio: string, resolution: string, pad: nat,
                                        stackVertical: bool)
    requires |shapes| == 3 && forall i :: 0 <= i < |shapes| ==> Positive(shapes[i])
    requires ratio != "pano_crop" && pad >= 8
    requires |WideOnes(shapes)| == 1
    ensures ImageOrEmptyResize(Collage(shapes, ratio, resolution, pad, stackVertical, false))
    decreases |shapes|, 1
  {
    OneWideLayout(shapes, ratio, resolution, pad, stackVertical);
    RowMergeTotal(shapes, ratio, resolution, pad, StackDirection(shapes, ratio, stackVertical));
  }

  /** The final merge of the wide image and the row of the other two. */
  lemma {:induction false} RowMergeTotal(shapes: seq<Size>, ratio: string, resolution: string, pad: nat, v: bool)
    requires |shapes| == 3 && forall i :: 0 <= i < |shapes| ==> Positive(shapes[i])
    requires ratio != "pano_crop" && pad >= 8
    requires |WideOnes(shapes)| == 1
    ensures var row := BaseLayout(NarrowOnes(shapes), false, pad);
      row.Ok? ==> ImageOrEmptyResize(Collage(WideOnes(shapes) + [row.value.canvas], ratio, resolution, pad, v, false))
    decreases |shapes|, 0
  {
    var wide, narrow := WideOnes(shapes), NarrowOnes(shapes);
    var row := BaseLayout(narrow, false, pad);
    if row.Ok? {
      var next := wide + [row.value.canvas];
      PositiveParts(shapes);
      BaseLayoutPositive(narrow, false, pad);
      assert Positive(next[0]) && Positive(next[1]);
      CollageTotal(next, ratio, resolution, pad, v, false);
    }
  }

  /** The three-image rule of `CollageTotal` with two wide images. */
  lemma {:induction false} TwoWideTotal(shapes: seq<Size>, ratio: string, resolution: string, pad: nat,
                                        stackVertical: bool)
    requires |shapes| == 3 && forall i :: 0 <= i < |shapes| ==> Positive(shapes[i])
    requires ratio != "pano_crop" && pad >= 8
    requires |WideOnes(shapes)| == 2 && ratio != "vert"
    ensures ImageOrEmptyResize(Collage(shapes, ratio, resolution, pad, stackVertical, false))
    decreases |shapes|, 1
  {
    TwoWideLayout(shapes, ratio, resolution, pad, stackVertical);
    ColumnMergeTotal(shapes, ratio, resolution, pad, StackDirection(shapes, ratio, stackVertical));
  }

  /** The final merge of the column of the two wide images and the other. */
  lemma {:induction false} ColumnMergeTotal(shapes: seq<Size>, ratio: string, resolution: string, pad: nat, v: bool)
    requires |shapes| == 3 && forall i :: 0 <= i < |shapes| ==> Positive(shapes[i])
    requires ratio != "pano_crop" && pad >= 8
    requires |WideOnes(shapes)| == 2
    ensures var column := BaseLayout(WideOnes(shapes), true, pad);
      column.Ok? ==> ImageOrEmptyResize(Collage([column.value.canvas] + NarrowOnes(shapes), ratio, resolution, pad, v, false))
    decreases |shapes|, 0
  {
    var wide, narrow := WideOnes(shapes), NarrowOnes(shapes);
    var column := BaseLayout(wide, true, pad);
    if column.Ok? {
      var next := [column.value.canvas] + narrow;
      PositiveParts(shapes);
      BaseLayoutPositive(wide, true, pad);
      assert forall i :: 0 <= i < |next| ==> Positive(next[i]);
      CollageTotal(next, ratio, resolution, pad, v, false);
    }
  }

  /** The split of four or more images of `CollageTotal`. */
  lemma {:induction false} SplitTotal(shapes: seq<Size>, ratio: string, resolution: string, pad: nat,
                                      stackVertical: bool, collageOnly: bool)
    requires |shapes| >= 4 && forall i :: 0 <= i < |shapes| ==> Positive(shapes[i])
    requires ratio != "pano_crop" && pad >= 8
    ensures ImageOrEmptyResize(Collage(shapes, ratio, resolution, pad, stackVertical, collageOnly))
    decreases |shapes|, 0
  {
    var vertical := StackDirection(shapes, ratio, stackVertical);
    var r := Collage(shapes, ratio, resolution, pad, stackVertical, collageOnly);
    var k := SplitPoint(|shapes|);
    var sub := if ratio == "32" then true else vertical;
    var first := Collage(shapes[..k], ratio, resolution, pad, sub, true);
    var second := Collage(shapes[k..], ratio, resolution, pad, sub, true);
    CollageTotal(shapes[..k], ratio, resolution, pad, sub, true);
    CollageTotal(shapes[k..], ratio, resolution, pad, sub, true);
    if first.Ok? && second.Ok? {
      CollageTotal([first.value.size, second.value.size], ratio, resolution, pad, sub, false);
      assert r == Collage([first.value.size, second.value.size], ratio, resolution, pad, sub, false);
    }
  }

  /** The base case of a collage gives a positive image whenever every
      image can be resized. */
  lemma BaseTotal(shapes: seq<Size>, vertical: bool, ratio: string, resolution: string, pad: nat, collageOnly: bool)
    requires |shapes| > 0 && forall i :: 0 <= i < |shapes| ==> Positive(shapes[i])
    requires ratio != "pano_crop" && pad >= 8
    ensures var base := BaseLayout(shapes, vertical, pad);
      base.Ok? ==>
        var r := if collageOnly then Ok(Image(base.value.canvas)) else Border(base.value.canvas, ratio, resolution, pad, false);
        r.Ok? && r.value.Image? && Positive(r.value.size)
  {
    var base := BaseLayout(shapes, vertical, pad);
    BaseLayoutPositive(shapes, vertical, pad);
    if base.Ok? && !collageOnly {
      BorderTotal(base.value.canvas, ratio, resolution, pad, false);
    }
  }

  /** The three-image rule of models.py:84-104 with one wide image: the
      other two are laid side by side into a bare row, and the wide image
      goes first in the final merge. The row fails exactly when one of its
      images cannot be resized. */
  lemma OneWideLayout(shapes: seq<Size>, ratio: string, resolution: string, pad: nat, stackVertical: bool)
    requires |shapes| == 3 && |WideOnes(shapes)| == 1
    ensures var row := BaseLayout(NarrowOnes(shapes), false, pad);
      Collage(shapes, ratio, resolution, pad, stackVertical, false) ==
        if row.Ok? then
          Collage(WideOnes(shapes) + [row.value.canvas], ratio, resolution, pad, StackDirection(shapes, ratio, stackVertical), false)
        else Err(EmptyResize)
  {
    var wide, narrow := WideOnes(shapes), NarrowOnes(shapes);
    var v := StackDirection(shapes, ratio, stackVertical);
    SplitByWidth(shapes);
    assert |narrow| == 2;
    assert StackDirection(narrow, ratio, false) == false;
    var sub := Collage(narrow, ratio, resolution, pad, false, true);
    var row := BaseLayout(narrow, false, pad);
    assert sub == if row.Ok? then Ok(Image(row.value.canvas)) else Err(EmptyResize);
    assert wide == [wide[0]];
    assert Collage(shapes, ratio, resolution, pad, stackVertical, false) ==
      if sub.Err? then Err(sub.error) else Collage([wide[0], sub.value.size], ratio, resolution, pad, v, false);
    if row.Ok? {
      assert wide + [row.value.canvas] == [wide[0], sub.value.size];
    }
  }

  /** The three-image rule with two wide images and a ratio other than
      'vert': those two are stacked into a bare column, which goes first,
      before the remaining image. The column fails exactly when one of its
      images cannot be resized. */
  lemma TwoWideLayout(shapes: seq<Size>, ratio: string, resolution: string, pad: nat, stackVertical: bool)
    requires |shapes| == 3 && |WideOnes(shapes)| == 2 && ratio != "vert"
    ensures var column := BaseLayout(WideOnes(shapes), true, pad);
      Collage(shapes, ratio, resolution, pad, stackVertical, false) ==
        if column.Ok? then
          Collage([column.value.canvas] + NarrowOnes(shapes), ratio, resolution, pad, StackDirection(shapes, ratio, stackVertical), false)
        else Err(EmptyResize)
  {
    var wide, narrow := WideOnes(shapes), NarrowOnes(shapes);
    forall i | 0 <= i < |wide| ensures Horizontal(wide[i]) {
      WideIsHorizontal(wide[i]);
    }
    NeverBoth(wide);
    assert StackDirection(wide, ratio, true);
    var v := StackDirection(shapes, ratio, stackVertical);
    SplitByWidth(shapes);
    assert |narrow| == 1;
    var sub := Collage(wide, ratio, resolution, pad, true, true);
    var column := BaseLayout(wide, true, pad);
    assert sub == if column.Ok? then Ok(Image(column.value.canvas)) else Err(EmptyResize);
    assert Collage(shapes, ratio, resolution, pad, stackVertical, false) ==
      if sub.Err? then Err(sub.error) else Collage([sub.value.size, narrow[0]], ratio, resolution, pad, v, false);
    if column.Ok? {
      assert [column.value.canvas] + narrow == [sub.value.size, narrow[0]];
    }
  }

  /** The split of models.py:106-123 for four or more images: the larger
      half and the rest become two bare collages, stacked vertically for the
      '32' ratio and otherwise in the direction chosen for the whole; the
      two results are then laid out as a pair and bordered. A failing group
      fails the whole, and a group that comes out as panorama tiles is not
      an image. */
  lemma SplitLayout(shapes: seq<Size>, ratio: string, resolution: string, pad: nat,
                    stackVertical: bool, collageOnly: bool)
    requires |shapes| >= 4
    ensures var k := SplitPoint(|shapes|);
      var sub := if ratio == "32" then true else StackDirection(shapes, ratio, stackVertical);
      var first := Collage(shapes[..k], ratio, resolution, pad, sub, true);
      var second := Collage(shapes[k..], ratio, resolution, pad, sub, true);
      Collage(shapes, ratio, resolution, pad, stackVertical, collageOnly) ==
        if first.Err? then Err(first.error)
        else if second.Err? then Err(second.error)
        else if !first.value.Image? || !second.value.Image? then Err(NotAnImage)
        else
          var pair := [first.value.size, second.value.size];
          var base := BaseLayout(pair, StackDirection(pair, ratio, sub), pad);
          if base.Ok? then Border(base.value.canvas, ratio, resolution, pad, false) else Err(EmptyResize)
  {
  }

  /** Every collage that is not `collage_only`, and every collage of four or
      more images, ends with `img_border` applied to some canvas: its output
      has the requested ratio. */
  lemma {:induction false} CollageEndsBordered(shapes: seq<Size>, ratio: string, resolution: string, pad: nat,
                                               stackVertical: bool, collageOnly: bool)
    requires !collageOnly || |shapes| >= 4
    requires Collage(shapes, ratio, resolution, pad, stackVertical, collageOnly).Ok?
    ensures exists canvas: Size ::
      Border(canvas, ratio, resolution, pad, false) == Collage(shapes, ratio, resolution, pad, stackVertical, collageOnly)
    decreases |shapes|
  {
    var vertical := StackDirection(shapes, ratio, stackVertical);
    var wide, narrow := WideOnes(shapes), NarrowOnes(shapes);
    SplitByWidth(shapes);
    if |shapes| == 3 && !collageOnly && |wide| == 1 {
      var row := Collage(narrow, ratio, resolution, pad, false, true).value.size;
      CollageEndsBordered([wide[0], row], ratio, resolution, pad, vertical, false);
    } else if |shapes| == 3 && !collageOnly && |wide| == 2 && ratio != "vert" {
      var column := Collage(wide, ratio, resolution, pad, true, true).value.size;
      CollageEndsBordered([column, narrow[0]], ratio, resolution, pad, vertical, false);
    } else if |shapes| >= 4 {
      var k := SplitPoint(|shapes|);
      var sub := if ratio == "32" then true else vertical;
      var first := Collage(shapes[..k], ratio, resolution, pad, sub, true).value.size;
      var second := Collage(shapes[k..], ratio, resolution, pad, sub, true).value.size;
      CollageEndsBordered([first, second], ratio, resolution, pad, sub, false);
    } else {
      var canvas := BaseLayout(shapes, vertical, pad).value.canvas;
      assert Border(canvas, ratio, resolution, pad, false) ==
        Collage(shapes, ratio, resolution, pad, stackVertical, collageOnly);
    }
  }

  /** Two images 1000x800 and 1000x600 as a bare 'sq' collage stack
      vertically into 1000x1520. */
  lemma TwoImageCollage()
    ensures Collage([Size(1000, 800), Size(1000, 600)], "sq", "best", 120, true, true) ==
      Ok(Image(Size(1000, 1520)))
  {
    var shapes := [Size(1000, 800), Size(1000, 600)];
    assert !AllVertical(shapes) by { assert !Vertical(shapes[0]); }
    assert StackDirection(shapes, "sq", true);
    TwoStackedVertically();
  }

  /** The sliver of `Layout.SliverCannotResize` fails a bare collage. */
  lemma SliverCollageFails()
    ensures Collage([Size(1, 1000), Size(1000, 10)], "sq", "best", 120, true, true) == Err(EmptyResize)
  {
    var shapes := [Size(1, 1000), Size(1000, 10)];
    assert !AllVertical(shapes) by { assert !Vertical(shapes[1]); }
    assert StackDirection(shapes, "sq", true);
    SliverCannotResize();
  }
}
