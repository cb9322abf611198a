/** The orientation tests of the collage (models.py:85 and 289-298).
    The float factors 1.01 and 1.1 are taken as the exact fractions
    101/100 and 11/10. */
module Orientation {
  import opened Geometry

  /** `h > 1.01 * w` */
  predicate Vertical(s: Size) { 100 * s.h > 101 * s.w }

  /** `h < 1.01 * w`: a square image counts as horizontal. */
  predicate Horizontal(s: Size) { 100 * s.h < 101 * s.w }

  /** `all_vertical_images` */
  predicate AllVertical(shapes: seq<Size>): (b: bool)
    ensures b ==> forall i :: 0 <= i < |shapes| ==> shapes[i].h > shapes[i].w
    ensures |shapes| == 0 ==> b
  {
    forall i :: 0 <= i < |shapes| ==> Vertical(shapes[i])
  }

  /** `all_horizontal_images` */
  predicate AllHorizontal(shapes: seq<Size>): (b: bool)
    ensures (forall i :: 0 <= i < |shapes| ==> shapes[i].h <= shapes[i].w && shapes[i].w > 0) ==> b
    ensures |shapes| == 0 ==> b
  {
    forall i :: 0 <= i < |shapes| ==> Horizontal(shapes[i])
  }

  /** `all_square_images`: neither of the two. */
  predicate AllSquare(shapes: seq<Size>): (b: bool)
    ensures b ==> |shapes| > 0
    ensures |shapes| == 1 ==> (b <==> 100 * shapes[0].h == 101 * shapes[0].w)
  {
    !AllVertical(shapes) && !AllHorizontal(shapes)
  }

  /** A non-empty set of images is never both all vertical and all
      horizontal; an empty one is both. */
  lemma NeverBoth(shapes: seq<Size>)
    ensures |shapes| > 0 <==> !(AllVertical(shapes) && AllHorizontal(shapes))
  {
    if |shapes| > 0 {
      assert Vertical(shapes[0]) ==> !Horizontal(shapes[0]);
    }
  }

  /** A square image is horizontal and not vertical; an image 2% higher
      than wide is vertical. */
  lemma SquareIsHorizontal(side: nat)
    requires side > 0
    ensures Horizontal(Size(side, side)) && !Vertical(Size(side, side))
    ensures Vertical(Size(100 * side, 102 * side))
  {
  }

  /** `1.1 * h < w`, the outlier rule's test for a horizontal image. */
  predicate Wide(s: Size) { 11 * s.h < 10 * s.w }

  /** A wide image is horizontal in the 1% sense as well. */
  lemma WideIsHorizontal(s: Size)
    requires Wide(s)
    ensures Horizontal(s)
  {
  }

  /** The images that pass the outlier test, in their order. */
  function WideOnes(shapes: seq<Size>): (r: seq<Size>)
    ensures forall i :: 0 <= i < |r| ==> Wide(r[i]) && r[i] in shapes
    ensures |r| <= |shapes|
  {
    if shapes == [] then []
    else
      var rest := WideOnes(shapes[1..]);
      if Wide(shapes[0]) then [shapes[0]] + rest else rest
  }

  /** The images that fail it, in their order. */
  function NarrowOnes(shapes: seq<Size>): (r: seq<Size>)
    ensures forall i :: 0 <= i < |r| ==> !Wide(r[i]) && r[i] in shapes
    ensures |r| + |WideOnes(shapes)| == |shapes|
  {
    if shapes == [] then []
    else
      var rest := NarrowOnes(shapes[1..]);
      if Wide(shapes[0]) then rest else [shapes[0]] + rest
  }

  /** The two lists split the images: together they hold each image once. */
  lemma {:induction false} SplitByWidth(shapes: seq<Size>)
    ensures multiset(WideOnes(shapes)) + multiset(NarrowOnes(shapes)) == multiset(shapes)
    ensures |WideOnes(shapes)| + |NarrowOnes(shapes)| == |shapes|
  {
    if shapes != [] {
      SplitByWidth(shapes[1..]);
      assert shapes == [shapes[0]] + shapes[1..];
    }
  }
}
