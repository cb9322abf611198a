/** The grid cropper `create_grid` (models.py:357-368) and the panorama
    splitter `insta_pano_crop` (models.py:227-244). Crops are modelled by
    their boxes; the pixels PIL copies into them are not. */
module Grid {
  import opened Results
  import opened Geometry

  /** A crop box as PIL takes it: (left, upper, right, lower). */
  datatype Box = Box(left: int, upper: int, right: int, lower: int)

  /** How many steps of `step` `range(0, n, step)` takes. */
  function CeilDiv(n: nat, step: nat): (c: nat)
    requires step > 0
  {
    (n + step - 1) / step
  }

  /** `c` is the number of steps exactly when `c` steps reach `n` and
      one step fewer does not. */
  lemma CeilDivIs(n: nat, step: nat, c: nat)
    requires step > 0
    ensures c == CeilDiv(n, step) <==> n <= c * step < n + step
  {
    var q := CeilDiv(n, step);
    DivMod(n + step - 1, step);
    assert q * step == step * q;
    assert (q + 1) * step == q * step + step;
    if n <= c * step < n + step {
      assert (c + 1) * step == c * step + step;
      DivUnique(n + step - 1, step, c);
    }
  }

  /** Box `k` of a grid `rows` boxes high, counted column by column. */
  function Cell(k: nat, rows: nat, cw: nat, ch: nat): (b: Box)
    requires rows > 0
    ensures b.right - b.left == cw && b.lower - b.upper == ch
  {
    Box(k / rows * cw, k % rows * ch, k / rows * cw + cw, k % rows * ch + ch)
  }

  /** Every box the two nested loops visit, in their order. */
  function Cells(size: Size, cw: nat, ch: nat): (r: seq<Box>)
    requires cw > 0 && ch > 0
    ensures |r| == CeilDiv(size.w, cw) * CeilDiv(size.h, ch)
  {
    var rows := CeilDiv(size.h, ch);
    var n := CeilDiv(size.w, cw) * rows;
    seq(n, k requires 0 <= k < n => if rows == 0 then Box(0, 0, 0, 0) else Cell(k, rows, cw, ch))
  }

  /** `create_grid(img, nb_splits_horizontal, nb_splits_vertical)`: boxes of
      `(w div nh) x (h div nv)`, one surplus box dropped. A zero split count
      divides by zero; a zero box side is a zero `range` step. */
  function GridBoxes(size: Size, nh: nat, nv: nat): (r: Result<seq<Box>>)
    ensures r.Ok? <==> nh > 0 && nv > 0 && size.w / nh > 0 && size.h / nv > 0
  {
    if nh == 0 || nv == 0 then Err(DivisionByZero)
    else
      var cw := size.w / nh;
      var ch := size.h / nv;
      if cw == 0 || ch == 0 then Err(ZeroStep)
      else
        var cells := Cells(size, cw, ch);
        if |cells| > nh * nv then Ok(cells[..|cells| - 1]) else Ok(cells)
  }

  /** `create_grid`: the box sides, then the nested loops, then the drop. */
  method CreateGrid(size: Size, nh: nat, nv: nat) returns (r: Result<seq<Box>>)
    ensures r == GridBoxes(size, nh, nv)
  {
    if nh == 0 || nv == 0 {
      return Err(DivisionByZero);
    }
    var cw := size.w / nh;
    var ch := size.h / nv;
    if cw == 0 || ch == 0 {
      return Err(ZeroStep);
    }
    DivAtMost(size.h, nv);
    var boxes := CropBoxes(size, cw, ch);
    if |boxes| > nh * nv {
      boxes := boxes[..|boxes| - 1];
    }
    r := Ok(boxes);
  }

  /** The nested loops of `create_grid`, appending one crop box per step. */
  method CropBoxes(size: Size, cw: nat, ch: nat) returns (boxes: seq<Box>)
    requires 0 < cw && 0 < ch <= size.h
    ensures boxes == Cells(size, cw, ch)
  {
    ghost var rows := CeilDiv(size.h, ch);
    RowsPositive(size.h, ch);
    boxes := [];
    var i := 0;
    ghost var col := 0;
    while i < size.w
      invariant i == col * cw && i < size.w + cw
      invariant |boxes| == col * rows
      invariant forall k :: 0 <= k < |boxes| ==> boxes[k] == Cell(k, rows, cw, ch)
    {
      boxes := AppendColumn(boxes, i, size.h, cw, ch, col);
      NextMultiple(col, cw);
      i := i + cw;
      col := col + 1;
    }
    CeilDivIs(size.w, cw, col);
    ghost var cells := Cells(size, cw, ch);
    assert |boxes| == |cells|;
    forall k | 0 <= k < |boxes|
      ensures boxes[k] == cells[k]
    {
    }
  }

  /** The inner loop of `create_grid`: the boxes of one column, top to bottom. */
  method AppendColumn(boxes: seq<Box>, x: nat, height: nat, cw: nat, ch: nat, ghost col: nat)
    returns (out: seq<Box>)
    requires cw > 0 && 0 < ch <= height && x == col * cw
    requires |boxes| == col * CeilDiv(height, ch)
    requires forall k :: 0 <= k < |boxes| ==> boxes[k] == Cell(k, CeilDiv(height, ch), cw, ch)
    ensures |out| == (col + 1) * CeilDiv(height, ch)
    ensures forall k :: 0 <= k < |out| ==> out[k] == Cell(k, CeilDiv(height, ch), cw, ch)
  {
    ghost var rows := CeilDiv(height, ch);
    RowsPositive(height, ch);
    out := boxes;
    var j := 0;
    ghost var row := 0;
    while j < height
      invariant j == row * ch && j < height + ch
      invariant row <= rows
      invariant |out| == col * rows + row
      invariant forall k :: 0 <= k < |out| ==> out[k] == Cell(k, rows, cw, ch)
    {
      RowInRange(height, ch, row);
      CellAt(col, row, rows, cw, ch);
      out := out + [Box(x, j, x + cw, j + ch)];
      NextMultiple(row, ch);
      j := j + ch;
      row := row + 1;
    }
    CeilDivIs(height, ch, row);
    assert (col + 1) * rows == col * rows + rows;
  }

  lemma NextMultiple(n: nat, step: nat)
    ensures (n + 1) * step == n * step + step
  {
  }

  lemma DivAtMost(a: nat, d: nat)
    requires d > 0
    ensures a / d <= a
  {
    DivMod(a, d);
    MulLeInt(1, d, a / d);
  }

  lemma RowsPositive(h: nat, ch: nat)
    requires 0 < ch <= h
    ensures CeilDiv(h, ch) > 0
  {
    CeilDivIs(h, ch, CeilDiv(h, ch));
  }

  lemma RowInRange(h: nat, ch: nat, row: nat)
    requires ch > 0 && row * ch < h
    ensures row < CeilDiv(h, ch)
  {
    var rows := CeilDiv(h, ch);
    CeilDivIs(h, ch, rows);
    if row >= rows {
      MulLeInt(rows, row, ch);
    }
  }

  lemma CellAt(col: nat, row: nat, rows: nat, cw: nat, ch: nat)
    requires row < rows
    ensures Cell(col * rows + row, rows, cw, ch) == Box(col * cw, row * ch, col * cw + cw, row * ch + ch)
  {
    var k := col * rows + row;
    assert (col + 1) * rows == col * rows + rows;
    DivUnique(k, rows, col);
    DivMod(k, rows);
    assert rows * col == col * rows;
  }

  /** Every box is `cw x ch`, starts on a multiple of the box size inside
      the image, and follows the previous one down its column or starts the
      next column at the top; at least the requested number of boxes is
      kept, and at most one is dropped. */
  lemma GridShape(size: Size, nh: nat, nv: nat)
    requires GridBoxes(size, nh, nv).Ok?
    ensures var boxes, cw, ch := GridBoxes(size, nh, nv).value, size.w / nh, size.h / nv;
      && nh * nv <= |boxes|
      && |boxes| + 1 >= CeilDiv(size.w, cw) * CeilDiv(size.h, ch)
      && (forall k :: 0 <= k < |boxes| ==>
            && boxes[k].right - boxes[k].left == cw && boxes[k].lower - boxes[k].upper == ch
            && boxes[k].left % cw == 0 && 0 <= boxes[k].left < size.w
            && boxes[k].upper % ch == 0 && 0 <= boxes[k].upper < size.h)
      && (forall k :: 0 <= k < |boxes| - 1 ==>
            || (boxes[k + 1].left == boxes[k].left && boxes[k + 1].upper == boxes[k].lower)
            || (boxes[k + 1].left == boxes[k].right && boxes[k + 1].upper == 0))
  {
    var cw, ch := size.w / nh, size.h / nv;
    var cols, rows := CeilDiv(size.w, cw), CeilDiv(size.h, ch);
    var cells := Cells(size, cw, ch);
    var boxes := GridBoxes(size, nh, nv).value;
    DivAtMost(size.h, nv);
    RowsPositive(size.h, ch);
    CeilDivIs(size.w, cw, cols);
    CeilDivIs(size.h, ch, rows);
    AtLeastSplits(size.w, nh);
    AtLeastSplits(size.h, nv);
    MulLeInt(nh, cols, nv);
    MulLeInt(nv, rows, cols);
    assert nv * cols == cols * nv;
    forall k | 0 <= k < |boxes|
      ensures && boxes[k].right - boxes[k].left == cw && boxes[k].lower - boxes[k].upper == ch
              && boxes[k].left % cw == 0 && 0 <= boxes[k].left < size.w
              && boxes[k].upper % ch == 0 && 0 <= boxes[k].upper < size.h
    {
      CellInside(k, rows, cols, cw, ch, size);
    }
    forall k | 0 <= k < |boxes| - 1
      ensures || (boxes[k + 1].left == boxes[k].left && boxes[k + 1].upper == boxes[k].lower)
              || (boxes[k + 1].left == boxes[k].right && boxes[k + 1].upper == 0)
    {
      CellStep(k, rows, cw, ch);
    }
  }

  /** `range(0, n, n div s)` takes at least `s` steps. */
  lemma AtLeastSplits(n: nat, s: nat)
    requires s > 0 && n / s > 0
    ensures CeilDiv(n, n / s) >= s
  {
    var step := n / s;
    var c := CeilDiv(n, step);
    CeilDivIs(n, step, c);
    DivMod(n, s);
    if c < s {
      MulLeInt(c, s - 1, step);
    }
  }

  lemma CellInside(k: nat, rows: nat, cols: nat, cw: nat, ch: nat, size: Size)
    requires rows > 0 && cw > 0 && ch > 0 && k < cols * rows
    requires cols == CeilDiv(size.w, cw) && rows == CeilDiv(size.h, ch)
    ensures var b := Cell(k, rows, cw, ch);
      && b.right - b.left == cw && b.lower - b.upper == ch
      && b.left % cw == 0 && 0 <= b.left < size.w
      && b.upper % ch == 0 && 0 <= b.upper < size.h
  {
    var c, r := k / rows, k % rows;
    ColumnInRange(k, rows, cols);
    DivMod(k, rows);
    StepInside(c, cols, cw, size.w);
    StepInside(r, rows, ch, size.h);
  }

  /** Box `k` of a grid `rows` high lies in one of the first `k / rows`
      columns. */
  lemma ColumnInRange(k: nat, rows: nat, cols: nat)
    requires rows > 0 && k < cols * rows
    ensures k / rows < cols
  {
    DivMod(k, rows);
    if k / rows >= cols {
      MulLeInt(cols, k / rows, rows);
    }
  }

  /** Step `i` of `range(0, n, step)` starts on a multiple inside `n`. */
  lemma StepInside(i: nat, count: nat, step: nat, n: nat)
    requires step > 0 && i < count && count == CeilDiv(n, step)
    ensures i * step < n && (i * step) % step == 0
  {
    CeilDivIs(n, step, count);
    MulLeInt(i + 1, count, step);
    NextMultiple(i, step);
    MultipleMod(i, step);
  }

  lemma CellStep(k: nat, rows: nat, cw: nat, ch: nat)
    requires rows > 0
    ensures var a, b := Cell(k, rows, cw, ch), Cell(k + 1, rows, cw, ch);
      || (b.left == a.left && b.upper == a.lower)
      || (b.left == a.right && b.upper == 0)
  {
    var c, r := k / rows, k % rows;
    DivMod(k, rows);
    assert k == c * rows + r;
    NextMultiple(c, rows);
    NextMultiple(c, cw);
    NextMultiple(r, ch);
    if r + 1 < rows {
      assert c * rows <= k + 1 < (c + 1) * rows;
      DivUnique(k + 1, rows, c);
      DivMod(k + 1, rows);
      assert (k + 1) % rows == r + 1;
    } else {
      NextMultiple(c + 1, rows);
      assert (c + 1) * rows <= k + 1 < (c + 2) * rows;
      DivUnique(k + 1, rows, c + 1);
      DivMod(k + 1, rows);
      assert (k + 1) % rows == 0;
    }
  }

  /** One row of `nh` splits whose remainder is at most a box wide gives
      exactly `nh` boxes, all inside the image and the full height of it. */
  lemma SingleRow(size: Size, nh: nat)
    requires nh > 0 && size.h > 0 && size.w / nh > 0 && size.w / nh >= size.w % nh
    ensures GridBoxes(size, nh, 1).Ok?
    ensures var boxes := GridBoxes(size, nh, 1).value;
      && |boxes| == nh
      && forall k :: 0 <= k < nh ==>
           boxes[k] == Box(k * (size.w / nh), 0, (k + 1) * (size.w / nh), size.h)
           && boxes[k].right <= size.w
  {
    var cw := size.w / nh;
    var rem := size.w % nh;
    DivMod(size.w, nh);
    CeilDivIs(size.h, size.h, 1);
    var cols := CeilDiv(size.w, cw);
    if rem == 0 {
      CeilDivIs(size.w, cw, nh);
    } else {
      assert (nh + 1) * cw == nh * cw + cw;
      CeilDivIs(size.w, cw, nh + 1);
    }
    var boxes := GridBoxes(size, nh, 1).value;
    assert |boxes| == nh;
    forall k | 0 <= k < nh
      ensures boxes[k] == Box(k * cw, 0, (k + 1) * cw, size.h) && boxes[k].right <= size.w
    {
      assert k / 1 == k && k % 1 == 0;
      NextMultiple(k, cw);
      MulLeInt(k + 1, nh, cw);
    }
  }

  /** The centred canvas of a panorama and its tiles. */
  datatype Pano = Pano(canvas: Size, left: int, tiles: seq<Box>)

  /** `insta_pano_crop`: a canvas as high as the photo and 8/5 of that wide
      when the photo already has that shape (two tiles), else 12/5 of it
      (three tiles); the photo is centred horizontally. The float test
      `img_width / 8 * 5 == img_height` is `5 * w == 8 * h`. */
  function PanoCrop(img: Size): (r: Result<Pano>)
    ensures r.Ok? <==> img.h >= 2
  {
    var k := if 5 * img.w == 8 * img.h then 8 else 12;
    var canvas := Size(img.h * k / 5, img.h);
    var tiles :- GridBoxes(canvas, if k == 8 then 2 else 3, 1);
    Ok(Pano(canvas, (canvas.w - img.w) / 2, tiles))
  }

  /** A photo at least two pixels high gives two tiles when it is 8:5 (the
      canvas is then the photo's own width) and three tiles otherwise; the
      tiles are equal, side by side, full height, inside the canvas. */
  lemma PanoTiles(img: Size)
    requires img.h >= 2
    ensures PanoCrop(img).Ok?
    ensures var p := PanoCrop(img).value;
      var n := if 5 * img.w == 8 * img.h then 2 else 3;
      && p.canvas.h == img.h
      && (5 * img.w == 8 * img.h ==> p.canvas.w == img.w)
      && (5 * img.w != 8 * img.h ==> p.canvas.w == 12 * img.h / 5)
      && |p.tiles| == n
      && 2 * p.left <= p.canvas.w - img.w <= 2 * p.left + 1
      && forall k :: 0 <= k < n ==>
           p.tiles[k] == Box(k * (p.canvas.w / n), 0, (k + 1) * (p.canvas.w / n), img.h)
           && p.tiles[k].right <= p.canvas.w
  {
    var k := if 5 * img.w == 8 * img.h then 8 else 12;
    var canvas := Size(img.h * k / 5, img.h);
    var n := if k == 8 then 2 else 3;
    SingleRow(canvas, n);
  }

  /** A 4000x2500 photo (8:5) is cut into two 2000-pixel-wide tiles. */
  lemma PanoEightByFive()
    ensures PanoCrop(Size(4000, 2500)) ==
      Ok(Pano(Size(4000, 2500), 0, [Box(0, 0, 2000, 2500), Box(2000, 0, 4000, 2500)]))
  {
    var canvas := Size(4000, 2500);
    assert 2500 * 8 / 5 == 4000;
    assert CeilDiv(4000, 2000) == 2 && CeilDiv(2500, 2500) == 1;
    var cells := Cells(canvas, 2000, 2500);
    assert cells[0] == Cell(0, 1, 2000, 2500) == Box(0, 0, 2000, 2500);
    assert cells[1] == Cell(1, 1, 2000, 2500) == Box(2000, 0, 4000, 2500);
    assert cells == [Box(0, 0, 2000, 2500), Box(2000, 0, 4000, 2500)];
    assert GridBoxes(canvas, 2, 1) == Ok(cells);
  }
}
