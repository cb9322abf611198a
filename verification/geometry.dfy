/** Image sizes and the integer arithmetic shared by the layout engine:
    sums, extrema and the short-edge resize of models.py. */
module Geometry {
  import opened Results

  /** An image is modelled by its size in pixels (PIL's `img.size`). */
  datatype Size = Size(w: nat, h: nat)

  predicate Positive(s: Size) { s.w > 0 && s.h > 0 }

  /** The edge `resize` scales: the width when it is strictly smaller,
      the height otherwise (a square image is scaled by its height). */
  function ShortEdge(s: Size): (e: nat)
    ensures e <= s.w && e <= s.h
    ensures e == s.w || e == s.h
  {
    if s.w < s.h then s.w else s.h
  }

  /** `resize(image, short_edge)`: both sides are multiplied by
      `target / ShortEdge` and truncated; a zero short edge divides by zero. */
  function Resize(s: Size, target: nat): (r: Result<Size>)
    ensures r.Ok? <==> ShortEdge(s) > 0
    ensures r.Ok? ==> ProportionalFloor(s.w, target, ShortEdge(s), r.value.w)
    ensures r.Ok? ==> ProportionalFloor(s.h, target, ShortEdge(s), r.value.h)
  {
    var short := ShortEdge(s);
    if short == 0 then Err(DivisionByZero)
    else Ok(Size(Scale(s.w, target, short), Scale(s.h, target, short)))
  }

  /** `int(x * num / den)` on non-negative numbers. */
  function Scale(x: nat, num: nat, den: nat): (v: nat)
    requires den > 0
    ensures ProportionalFloor(x, num, den, v)
  {
    FloorDiv(x, num, den);
    x * num / den
  }

  /** `v` is `x * num / den` rounded down: the largest value whose
      multiple of `den` does not exceed `x * num`. */
  predicate ProportionalFloor(x: nat, num: nat, den: nat, v: nat)
  {
    v * den <= x * num < (v + 1) * den
  }

  /** The resized image keeps its orientation and, given a positive
      target, its positive size; its short edge becomes the target. */
  lemma ResizeKeepsShape(s: Size, target: nat)
    requires Positive(s) && target > 0
    ensures Resize(s, target).Ok?
    ensures var t := Resize(s, target).value;
      && Positive(t)
      && ShortEdge(t) == target
      && (s.w < s.h ==> t.w <= t.h)
      && (s.w >= s.h ==> t.w >= t.h)
  {
    if s.w < s.h {
      MulDivMonotone(s.w, s.h, target, s.w);
      MulDivCancel(target, s.w);
    } else {
      MulDivMonotone(s.h, s.w, target, s.h);
      MulDivCancel(target, s.h);
    }
  }

  /** Euclidean division by a positive divisor, as a product and a remainder. */
  lemma DivMod(a: int, d: int)
    requires d > 0
    ensures a == d * (a / d) + a % d && 0 <= a % d < d
  {
  }

  /** A quotient is determined by the interval its dividend falls in. */
  lemma DivUnique(a: int, d: int, q: int)
    requires d > 0 && q * d <= a < (q + 1) * d
    ensures a / d == q
  {
    var Q := a / d;
    DivMod(a, d);
    if Q < q {
      MulLeInt(Q + 1, q, d);
    } else if Q > q {
      MulLeInt(q + 1, Q, d);
    }
  }

  lemma MulLeInt(x: int, y: int, k: nat)
    requires x <= y
    ensures x * k <= y * k
  {
    var diff := y - x;
    assert y * k == x * k + diff * k;
  }

  /** `x * num / den` is the floor of the proportional value. */
  lemma FloorDiv(x: nat, num: nat, den: nat)
    requires den > 0
    ensures ProportionalFloor(x, num, den, x * num / den)
  {
    var v := x * num / den;
    DivMod(x * num, den);
    assert (v + 1) * den == v * den + den;
    assert v * den == den * v;
  }

  lemma MulDivCancel(a: nat, b: nat)
    requires b > 0
    ensures b * a / b == a && a * b / b == a
  {
    assert a * b == b * a;
    assert (a + 1) * b == a * b + b;
    DivUnique(a * b, b, a);
  }

  lemma MultipleMod(c: nat, step: nat)
    requires step > 0
    ensures (c * step) % step == 0
  {
    DivMod(c * step, step);
    MulDivCancel(c, step);
  }

  lemma MulDivMonotone(x: nat, y: nat, k: nat, d: nat)
    requires x <= y && d > 0
    ensures x * k / d <= y * k / d
  {
    MulLeInt(x, y, k);
    DivMonotone(x * k, y * k, d);
  }

  lemma DivMonotone(a: nat, b: nat, d: nat)
    requires a <= b && d > 0
    ensures a / d <= b / d
  {
    DivMod(a, d);
    DivMod(b, d);
    if a / d > b / d {
      MulLeInt(b / d + 1, a / d, d);
    }
  }

  /** The sum of a sequence of extents (`shapes[:i, k].sum()`). */
  function Sum(xs: seq<nat>): (s: nat)
  {
    if xs == [] then 0 else Sum(xs[..|xs| - 1]) + xs[|xs| - 1]
  }

  lemma SumPrefixStep(xs: seq<nat>, i: nat)
    requires i < |xs|
    ensures Sum(xs[..i + 1]) == Sum(xs[..i]) + xs[i]
  {
    assert xs[..i + 1][..i] == xs[..i];
  }

  /** A sum is at least each of its terms, and a prefix sum grows with the prefix. */
  lemma {:induction false} SumBounds(xs: seq<nat>, i: nat)
    requires i < |xs|
    ensures Sum(xs[..i]) + xs[i] <= Sum(xs)
  {
    if i == |xs| - 1 {
      assert xs[..|xs|] == xs;
      SumPrefixStep(xs, i);
    } else {
      var init := xs[..|xs| - 1];
      SumBounds(init, i);
      assert init[..i] == xs[..i];
    }
  }

  /** Prefix sums are monotone in the prefix length. */
  lemma {:induction false} SumPrefixMonotone(xs: seq<nat>, i: nat, j: nat)
    requires i <= j <= |xs|
    ensures Sum(xs[..i]) <= Sum(xs[..j])
    decreases j - i
  {
    if i < j {
      SumPrefixMonotone(xs, i, j - 1);
      SumPrefixStep(xs, j - 1);
    }
  }

  /** `max()` of a non-empty sequence of extents. */
  function Max(xs: seq<nat>): (m: nat)
    requires |xs| > 0
    ensures forall i :: 0 <= i < |xs| ==> xs[i] <= m
    ensures exists i :: 0 <= i < |xs| && xs[i] == m
  {
    if |xs| == 1 then xs[0]
    else
      var rest := Max(xs[1..]);
      assert forall i :: 1 <= i < |xs| ==> xs[i] == xs[1..][i - 1];
      if xs[0] >= rest then xs[0] else rest
  }

  /** `np.min()` of a non-empty sequence of extents. */
  function Min(xs: seq<nat>): (m: nat)
    requires |xs| > 0
    ensures forall i :: 0 <= i < |xs| ==> m <= xs[i]
    ensures exists i :: 0 <= i < |xs| && xs[i] == m
  {
    if |xs| == 1 then xs[0]
    else
      var rest := Min(xs[1..]);
      assert forall i :: 1 <= i < |xs| ==> xs[i] == xs[1..][i - 1];
      if xs[0] <= rest then xs[0] else rest
  }

  /** The widths and heights of a sequence of sizes (`shapes[:, 1]`, `shapes[:, 0]`). */
  function Widths(s: seq<Size>): (r: seq<nat>)
    ensures |r| == |s| && forall i :: 0 <= i < |s| ==> r[i] == s[i].w
  {
    seq(|s|, i requires 0 <= i < |s| => s[i].w)
  }

  function Heights(s: seq<Size>): (r: seq<nat>)
    ensures |r| == |s| && forall i :: 0 <= i < |s| ==> r[i] == s[i].h
  {
    seq(|s|, i requires 0 <= i < |s| => s[i].h)
  }
}
