/** The pixel side of the collage base case (models.py:138-159): a canvas
    filled with the background colour, onto which each resized image is
    pasted at its place in the stack. */
module Canvas {
  import opened Geometry
  import opened Tokens
  import opened Layout

  /** A decoded image: `size.h` rows of `size.w` pixels each. */
  datatype Picture = Picture(size: Size, rows: seq<seq<Rgb>>)

  predicate WellFormed(p: Picture)
  {
    |p.rows| == p.size.h && forall y :: 0 <= y < |p.rows| ==> |p.rows[y]| == p.size.w
  }

  /** Every picture of the list is well formed. */
  predicate AllWellFormed(pics: seq<Picture>)
  {
    && (forall i :: 0 <= i < |pics| ==> |pics[i].rows| == pics[i].size.h)
    && (forall i, y :: 0 <= i < |pics| && 0 <= y < |pics[i].rows| ==> |pics[i].rows[y]| == pics[i].size.w)
  }

  function SizesOf(pics: seq<Picture>): (r: seq<Size>)
    ensures |r| == |pics| && forall i :: 0 <= i < |pics| ==> r[i] == pics[i].size
  {
    seq(|pics|, i requires 0 <= i < |pics| => pics[i].size)
  }

  /** `vis[top:top+h, left:left+w, :3] = img`: the picture's pixels replace
      those of its rectangle, every other pixel is kept. */
  method Paste(vis: array2<Rgb>, pic: Picture, at: Point)
    requires WellFormed(pic)
    requires at.y + pic.size.h <= vis.Length0 && at.x + pic.size.w <= vis.Length1
    modifies vis
    ensures forall y, x :: 0 <= y < vis.Length0 && 0 <= x < vis.Length1 ==>
      vis[y, x] == if InRect(at, pic.size, y, x) then pic.rows[y - at.y][x - at.x] else old(vis[y, x])
  {
    var r := 0;
    while r < pic.size.h
      invariant 0 <= r <= pic.size.h
      invariant forall y, x :: 0 <= y < vis.Length0 && 0 <= x < vis.Length1 ==>
        vis[y, x] == if InRect(at, Size(pic.size.w, r), y, x) then pic.rows[y - at.y][x - at.x] else old(vis[y, x])
    {
      var c := 0;
      while c < pic.size.w
        invariant 0 <= c <= pic.size.w
        invariant forall y, x :: 0 <= y < vis.Length0 && 0 <= x < vis.Length1 ==>
          vis[y, x] ==
            if InRect(at, Size(pic.size.w, r), y, x) || (y == at.y + r && at.x <= x < at.x + c)
            then pic.rows[y - at.y][x - at.x]
            else old(vis[y, x])
      {
        vis[at.y + r, at.x + c] := pic.rows[r][c];
        c := c + 1;
      }
      r := r + 1;
    }
  }

  /** Every picture lies inside an `h` by `w` canvas at its place. */
  predicate Fits(pics: seq<Picture>, places: seq<Point>, h: nat, w: nat)
    requires |places| == |pics|
  {
    forall i :: 0 <= i < |pics| ==> places[i].y + pics[i].size.h <= h && places[i].x + pics[i].size.w <= w
  }

  /** No two pictures share a pixel. */
  ghost predicate Apart(pics: seq<Picture>, places: seq<Point>)
    requires |places| == |pics|
  {
    forall i, j, y, x ::
      (0 <= i < |pics| && 0 <= j < |pics| && i != j && InRect(places[i], pics[i].size, y, x)) ==>
      !InRect(places[j], pics[j].size, y, x)
  }

  /** Whether one of the first `k` pictures covers pixel (`y`, `x`). */
  ghost predicate Covered(pics: seq<Picture>, places: seq<Point>, k: nat, y: int, x: int)
    requires k <= |places| == |pics|
  {
    exists j :: 0 <= j < k && InRect(places[j], pics[j].size, y, x)
  }

  /** Every picture appears at its place on `vis`, and every pixel no
      picture covers has the background colour. */
  ghost predicate Shows(vis: array2<Rgb>, pics: seq<Picture>, places: seq<Point>, background: Rgb)
    requires |places| == |pics| && AllWellFormed(pics) && Fits(pics, places, vis.Length0, vis.Length1)
    reads vis
  {
    && (forall j, y, x :: 0 <= j < |pics| && InRect(places[j], pics[j].size, y, x) ==>
          vis[y, x] == pics[j].rows[y - places[j].y][x - places[j].x])
    && (forall y, x ::
          (0 <= y < vis.Length0 && 0 <= x < vis.Length1 && !Covered(pics, places, |pics|, y, x)) ==>
          vis[y, x] == background)
  }

  /** The loop of models.py:147-159 over the images: paste each in turn. */
  method PasteAll(vis: array2<Rgb>, pics: seq<Picture>, places: seq<Point>, background: Rgb)
    requires |places| == |pics| && AllWellFormed(pics)
    requires Fits(pics, places, vis.Length0, vis.Length1) && Apart(pics, places)
    requires forall y, x :: 0 <= y < vis.Length0 && 0 <= x < vis.Length1 ==> vis[y, x] == background
    modifies vis
    ensures Shows(vis, pics, places, background)
  {
    var i := 0;
    while i < |pics|
      invariant 0 <= i <= |pics|
      invariant forall j, y, x :: 0 <= j < i && InRect(places[j], pics[j].size, y, x) ==>
        vis[y, x] == pics[j].rows[y - places[j].y][x - places[j].x]
      invariant forall y, x ::
        (0 <= y < vis.Length0 && 0 <= x < vis.Length1 && !Covered(pics, places, i, y, x)) ==>
        vis[y, x] == background
    {
      label before:
      Paste(vis, pics[i], places[i]);
      forall j, y, x | 0 <= j <= i && InRect(places[j], pics[j].size, y, x)
        ensures vis[y, x] == pics[j].rows[y - places[j].y][x - places[j].x]
      {
        if j < i {
          assert !InRect(places[i], pics[i].size, y, x);
          assert vis[y, x] == old@before(vis[y, x]);
        }
      }
      forall y, x | 0 <= y < vis.Length0 && 0 <= x < vis.Length1 && !Covered(pics, places, i + 1, y, x)
        ensures vis[y, x] == background
      {
        assert !InRect(places[i], pics[i].size, y, x);
        assert !Covered(pics, places, i, y, x);
      }
      i := i + 1;
    }
  }

  /** The places of a stack keep every picture inside the canvas and apart
      from the others. */
  lemma StackFitsApart(pics: seq<Picture>, vertical: bool, pad: nat)
    requires |pics| > 0
    ensures var a := Stack(SizesOf(pics), vertical, pad);
      Fits(pics, a.places, a.canvas.h, a.canvas.w) && Apart(pics, a.places)
  {
    var sizes := SizesOf(pics);
    var a := Stack(sizes, vertical, pad);
    forall i | 0 <= i < |pics|
      ensures a.places[i].y + pics[i].size.h <= a.canvas.h && a.places[i].x + pics[i].size.w <= a.canvas.w
    {
      StackInside(sizes, vertical, pad, i);
    }
    forall i, j, y, x | 0 <= i < |pics| && 0 <= j < |pics| && i != j && InRect(a.places[i], pics[i].size, y, x)
      ensures !InRect(a.places[j], pics[j].size, y, x)
    {
      StackDisjoint(sizes, vertical, pad, i, j, y, x);
    }
  }

  /** The canvas of a collage's base case: each picture appears at its place
      in the stack, and every pixel no picture covers has the background
      colour. */
  method Compose(pics: seq<Picture>, vertical: bool, pad: nat, background: Rgb) returns (vis: array2<Rgb>)
    requires |pics| > 0 && AllWellFormed(pics)
    ensures fresh(vis)
    ensures var a := Stack(SizesOf(pics), vertical, pad);
      && vis.Length0 == a.canvas.h && vis.Length1 == a.canvas.w
      && Fits(pics, a.places, vis.Length0, vis.Length1)
      && Shows(vis, pics, a.places, background)
  {
    var a := Stack(SizesOf(pics), vertical, pad);
    StackFitsApart(pics, vertical, pad);
    vis := new Rgb[a.canvas.h, a.canvas.w]((_, _) => background);
    PasteAll(vis, pics, a.places, background);
  }
}
