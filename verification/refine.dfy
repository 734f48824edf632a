/** `refineEdges` and `isOnBorder`: the last step of the worker. Every pixel
    at least two pixels away from the frame that lies on the boundary
    between the foreground and the background mask gets a new alpha, the
    weighted average of the alphas of its 5x5 window with weight
    1 / (1 + distance). The alphas are read from a copy of the buffer taken
    before the pass, so the order in which pixels are visited does not
    matter. Math.sqrt is the parameter `sqrt`, of which only non-negativity
    is assumed (so that every weight is positive). */
module Smoothing {
  import opened Pixels

  /** `kernelSize`: the window reaches two pixels in each direction. */
  const KernelSize: nat := 2

  // ---------------------------------------------------------------------
  // isOnBorder
  // ---------------------------------------------------------------------

  /** The mask entry of the neighbour at offset (dx, dy) of pixel p. */
  function MaskAt(mask: seq<bool>, w: nat, h: nat, p: int, dx: int, dy: int): bool
    requires |mask| == w * h && InteriorPixel(p, w, h)
    requires -1 <= dx <= 1 && -1 <= dy <= 1
  {
    NeighborInImage(p, w, h, dx, dy);
    mask[Neighbor(p, w, dx, dy)]
  }

  /** The 3x3 window of `mask` around interior pixel p, row by row. */
  function MaskWindow(mask: seq<bool>, w: nat, h: nat, p: int): (win: seq<bool>)
    requires |mask| == w * h && InteriorPixel(p, w, h)
    ensures |win| == 9
  {
    seq(9, i requires 0 <= i < 9 => MaskAt(mask, w, h, p, OffsetX(i, 3), OffsetY(i, 3)))
  }

  /** `isOnBorder`: the pixel is in one of the masks and some pixel of its
      3x3 window (itself included) differs from it in the foreground mask.
      The background mask is only consulted for the first test. */
  predicate OnBorder(fgMask: seq<bool>, bgMask: seq<bool>, w: nat, h: nat, p: int)
    requires |fgMask| == w * h && |bgMask| == w * h && InteriorPixel(p, w, h)
  {
    NeighborInImage(p, w, h, 0, 0);
    && (fgMask[p] || bgMask[p])
    && exists i :: 0 <= i < 9 && MaskWindow(fgMask, w, h, p)[i] != fgMask[p]
  }

  /** `isOnBorder(fgMask, bgMask, x, y, width)`, loop for loop. */
  method IsOnBorder(fgMask: seq<bool>, bgMask: seq<bool>, x: nat, y: nat, w: nat, h: nat) returns (b: bool)
    requires |fgMask| == w * h && |bgMask| == w * h
    requires 1 <= x < w - 1 && 1 <= y < h - 1
    ensures b == OnBorder(fgMask, bgMask, w, h, PixelAt(x, y, w, h))
  {
    var idx := y * w + x;
    ghost var p := PixelAt(x, y, w, h);
    ghost var win := MaskWindow(fgMask, w, h, p);
    if !fgMask[idx] && !bgMask[idx] {
      return false;
    }
    var dy := -1;
    while dy <= 1
      invariant -1 <= dy <= 2
      invariant forall i :: 0 <= i < 3 * (dy + 1) ==> win[i] == fgMask[p]
    {
      var dx := -1;
      while dx <= 1
        invariant -1 <= dx <= 2
        invariant forall i :: 0 <= i < 3 * (dy + 1) + (dx + 1) ==> win[i] == fgMask[p]
      {
        var neighborIdx := (y + dy) * w + (x + dx);
        MaskWindowEntry(fgMask, x, y, w, h, dx, dy);
        if fgMask[neighborIdx] != fgMask[idx] {
          return true;
        }
        dx := dx + 1;
      }
      dy := dy + 1;
    }
    return false;
  }

  /** Entry (dx, dy) of the mask window of (x, y) is the mask at the index
      `isOnBorder` reads. */
  lemma MaskWindowEntry(mask: seq<bool>, x: nat, y: nat, w: nat, h: nat, dx: int, dy: int)
    requires |mask| == w * h
    requires 1 <= x < w - 1 && 1 <= y < h - 1
    requires -1 <= dx <= 1 && -1 <= dy <= 1
    ensures PixelAt(x, y, w, h) == y * w + x
    ensures 0 <= (y + dy) * w + (x + dx) < w * h
    ensures MaskWindow(mask, w, h, PixelAt(x, y, w, h))[3 * (dy + 1) + (dx + 1)] == mask[(y + dy) * w + (x + dx)]
  {
    var p := PixelAt(x, y, w, h);
    NeighborIndex(x, y, w, dx, dy);
    OffsetOfEntry(dx, dy, 1);
    NeighborInImage(p, w, h, dx, dy);
  }

  /** A pixel in neither mask is never on the border. */
  lemma UnmaskedNotOnBorder(fgMask: seq<bool>, bgMask: seq<bool>, w: nat, h: nat, p: int)
    requires |fgMask| == w * h && |bgMask| == w * h && InteriorPixel(p, w, h)
    requires 0 <= p < w * h && !fgMask[p] && !bgMask[p]
    ensures !OnBorder(fgMask, bgMask, w, h, p)
  {
  }

  /** A masked pixel is on the border exactly when one of its eight
      neighbours has the other foreground-mask value. */
  lemma BorderNeighbour(fgMask: seq<bool>, bgMask: seq<bool>, w: nat, h: nat, p: int)
    requires |fgMask| == w * h && |bgMask| == w * h && InteriorPixel(p, w, h)
    requires 0 <= p < w * h && (fgMask[p] || bgMask[p])
    ensures OnBorder(fgMask, bgMask, w, h, p) <==>
      exists dx, dy :: -1 <= dx <= 1 && -1 <= dy <= 1 && MaskAt(fgMask, w, h, p, dx, dy) != fgMask[p]
  {
    var win := MaskWindow(fgMask, w, h, p);
    if OnBorder(fgMask, bgMask, w, h, p) {
      var i :| 0 <= i < 9 && win[i] != fgMask[p];
      assert MaskAt(fgMask, w, h, p, OffsetX(i, 3), OffsetY(i, 3)) != fgMask[p];
    }
    if exists dx, dy :: -1 <= dx <= 1 && -1 <= dy <= 1 && MaskAt(fgMask, w, h, p, dx, dy) != fgMask[p] {
      var dx, dy :| -1 <= dx <= 1 && -1 <= dy <= 1 && MaskAt(fgMask, w, h, p, dx, dy) != fgMask[p];
      OffsetOfEntry(dx, dy, 1);
      assert win[3 * (dy + 1) + (dx + 1)] != fgMask[p];
    }
  }

  // ---------------------------------------------------------------------
  // The weighted window average
  // ---------------------------------------------------------------------

  /** The snapshot alpha of the neighbour at offset (dx, dy) of p. */
  function AlphaAt(snap: seq<Byte>, w: nat, h: nat, p: int, dx: int, dy: int): Byte
    requires ValidImage(snap, w, h) && InsetPixel(p, w, h, KernelSize)
    requires -2 <= dx <= 2 && -2 <= dy <= 2
  {
    NeighborInImage(p, w, h, dx, dy);
    Alpha(snap, Neighbor(p, w, dx, dy))
  }

  /** The 25 snapshot alphas of the 5x5 window around p, row by row. */
  function AlphaWindow(snap: seq<Byte>, w: nat, h: nat, p: int): (win: seq<Byte>)
    requires ValidImage(snap, w, h) && InsetPixel(p, w, h, KernelSize)
    ensures |win| == 25
  {
    seq(25, i requires 0 <= i < 25 => AlphaAt(snap, w, h, p, OffsetX(i, 5), OffsetY(i, 5)))
  }

  /** `1 / (1 + Math.sqrt(dx * dx + dy * dy))` for window entry i. */
  function Weight(i: nat, sqrt: int -> real): (wt: real)
    requires i < 25 && NonNegativeRoot(sqrt)
    ensures wt > 0.0
  {
    var dx := OffsetX(i, 5);
    var dy := OffsetY(i, 5);
    var root := sqrt(dx * dx + dy * dy);
    PositiveRecip(1.0 + root);
    1.0 / (1.0 + root)
  }

  /** The 25 weights, in window order. */
  function Weights(sqrt: int -> real): (ws: seq<real>)
    requires NonNegativeRoot(sqrt)
    ensures |ws| == 25 && Positive(ws)
  {
    seq(25, i requires 0 <= i < 25 => Weight(i, sqrt))
  }

  predicate Positive(ws: seq<real>)
  {
    forall i :: 0 <= i < |ws| ==> ws[i] > 0.0
  }

  /** `tempData[neighborIdx + 3] * weight`. */
  function Term(a: Byte, wt: real): real
  {
    a as real * wt
  }

  /** `alphaSum` after the first n entries of the window. */
  function AlphaSum(win: seq<Byte>, ws: seq<real>, n: nat): real
    requires n <= |win| == |ws|
  {
    if n == 0 then 0.0 else AlphaSum(win, ws, n - 1) + Term(win[n - 1], ws[n - 1])
  }

  /** `weightSum` after the first n entries of the window. */
  function WeightSum(ws: seq<real>, n: nat): (s: real)
    requires n <= |ws| && Positive(ws)
    ensures n > 0 ==> s > 0.0
  {
    if n == 0 then 0.0 else WeightSum(ws, n - 1) + ws[n - 1]
  }

  /** `Math.round(alphaSum / weightSum)` over the window of p. */
  function SmoothedAlpha(snap: seq<Byte>, w: nat, h: nat, p: int, sqrt: int -> real): Byte
    requires ValidImage(snap, w, h) && InsetPixel(p, w, h, KernelSize)
    requires NonNegativeRoot(sqrt)
  {
    var win := AlphaWindow(snap, w, h, p);
    var ws := Weights(sqrt);
    WeightedAverageBetween(win, ws, 0, 255);
    Round(AlphaSum(win, ws, 25) / WeightSum(ws, 25))
  }

  /** One more entry of the window in both sums. */
  lemma SumStep(win: seq<Byte>, ws: seq<real>, n: nat, a: Byte, wt: real)
    requires n < |win| == |ws| && Positive(ws)
    requires a == win[n] && wt == ws[n]
    ensures AlphaSum(win, ws, n + 1) == AlphaSum(win, ws, n) + Term(a, wt)
    ensures WeightSum(ws, n + 1) == WeightSum(ws, n) + wt
  {
  }

  lemma PositiveRecip(x: real)
    requires x >= 1.0
    ensures 1.0 / x > 0.0
  {
  }

  /** One more weighted term keeps the sum at least lo times the total
      weight. */
  lemma StepAbove(s: real, t: real, a: real, wt: real, s': real, t': real, lo: real)
    requires lo * t <= s && lo <= a && wt > 0.0
    requires s' == s + a * wt && t' == t + wt
    ensures lo * t' <= s'
  {
    assert a * wt - lo * wt == (a - lo) * wt;
    assert lo * t' == lo * t + lo * wt;
  }

  /** One more weighted term keeps the sum at most hi times the total
      weight. */
  lemma StepBelow(s: real, t: real, a: real, wt: real, s': real, t': real, hi: real)
    requires s <= hi * t && a <= hi && wt > 0.0
    requires s' == s + a * wt && t' == t + wt
    ensures s' <= hi * t'
  {
    assert hi * wt - a * wt == (hi - a) * wt;
    assert hi * t' == hi * t + hi * wt;
  }

  /** A weighted sum of values of at least lo is at least lo times the
      total weight. */
  lemma {:induction false} WeightedSumAbove(win: seq<Byte>, ws: seq<real>, n: nat, lo: int)
    requires n <= |win| == |ws| && Positive(ws)
    requires forall i :: 0 <= i < |win| ==> lo <= win[i]
    ensures lo as real * WeightSum(ws, n) <= AlphaSum(win, ws, n)
  {
    if n > 0 {
      WeightedSumAbove(win, ws, n - 1, lo);
      StepAbove(AlphaSum(win, ws, n - 1), WeightSum(ws, n - 1), win[n - 1] as real, ws[n - 1],
                AlphaSum(win, ws, n), WeightSum(ws, n), lo as real);
    }
  }

  /** A weighted sum of values of at most hi is at most hi times the total
      weight. */
  lemma {:induction false} WeightedSumBelow(win: seq<Byte>, ws: seq<real>, n: nat, hi: int)
    requires n <= |win| == |ws| && Positive(ws)
    requires forall i :: 0 <= i < |win| ==> win[i] <= hi
    ensures AlphaSum(win, ws, n) <= hi as real * WeightSum(ws, n)
  {
    if n > 0 {
      WeightedSumBelow(win, ws, n - 1, hi);
      StepBelow(AlphaSum(win, ws, n - 1), WeightSum(ws, n - 1), win[n - 1] as real, ws[n - 1],
                AlphaSum(win, ws, n), WeightSum(ws, n), hi as real);
    }
  }

  lemma DivBetween(s: real, t: real, lo: real, hi: real)
    requires t > 0.0 && lo * t <= s <= hi * t
    ensures lo <= s / t <= hi
  {
    assert s / t - lo == (s - lo * t) / t;
    assert hi - s / t == (hi * t - s) / t;
  }

  /** The weighted average of values in [lo, hi], rounded, is in [lo, hi]. */
  lemma WeightedAverageBetween(win: seq<Byte>, ws: seq<real>, lo: int, hi: int)
    requires |win| == |ws| > 0 && Positive(ws)
    requires forall i :: 0 <= i < |win| ==> lo <= win[i] <= hi
    ensures lo <= Round(AlphaSum(win, ws, |win|) / WeightSum(ws, |win|)) <= hi
  {
    var s, t := AlphaSum(win, ws, |win|), WeightSum(ws, |win|);
    WeightedSumAbove(win, ws, |win|, lo);
    WeightedSumBelow(win, ws, |win|, hi);
    DivBetween(s, t, lo as real, hi as real);
    RoundBetween(s / t, lo, hi);
  }

  /** The new alpha lies between the smallest and the largest snapshot alpha
      of the window: whatever bounds all 25 of them bounds it too. */
  lemma SmoothedBetween(snap: seq<Byte>, w: nat, h: nat, p: int, sqrt: int -> real, lo: int, hi: int)
    requires ValidImage(snap, w, h) && InsetPixel(p, w, h, KernelSize)
    requires NonNegativeRoot(sqrt)
    requires forall dx, dy :: -2 <= dx <= 2 && -2 <= dy <= 2 ==> lo <= AlphaAt(snap, w, h, p, dx, dy) <= hi
    ensures lo <= SmoothedAlpha(snap, w, h, p, sqrt) <= hi
  {
    var win := AlphaWindow(snap, w, h, p);
    forall i | 0 <= i < 25 ensures lo <= win[i] <= hi {
      assert win[i] == AlphaAt(snap, w, h, p, OffsetX(i, 5), OffsetY(i, 5));
    }
    WeightedAverageBetween(win, Weights(sqrt), lo, hi);
  }

  /** A window of one alpha keeps that alpha. */
  lemma SmoothedUniform(snap: seq<Byte>, w: nat, h: nat, p: int, sqrt: int -> real, a: Byte)
    requires ValidImage(snap, w, h) && InsetPixel(p, w, h, KernelSize)
    requires NonNegativeRoot(sqrt)
    requires forall dx, dy :: -2 <= dx <= 2 && -2 <= dy <= 2 ==> AlphaAt(snap, w, h, p, dx, dy) == a
    ensures SmoothedAlpha(snap, w, h, p, sqrt) == a
  {
    SmoothedBetween(snap, w, h, p, sqrt, a, a);
  }

  /** Entry (dx, dy) of the alpha window of p is the snapshot byte the
      inner loop reads, and its weight is the one the loop computes. */
  lemma AlphaWindowEntry(snap: seq<Byte>, p: int, w: nat, h: nat, dx: int, dy: int, sqrt: int -> real)
    requires ValidImage(snap, w, h) && NonNegativeRoot(sqrt)
    requires InsetPixel(p, w, h, KernelSize)
    requires -2 <= dx <= 2 && -2 <= dy <= 2
    ensures 0 <= (p + dy * w + dx) * 4 && (p + dy * w + dx) * 4 + 3 < |snap|
    ensures snap[(p + dy * w + dx) * 4 + 3] == AlphaWindow(snap, w, h, p)[5 * (dy + 2) + (dx + 2)]
    ensures sqrt(dx * dx + dy * dy) >= 0.0
    ensures 1.0 / (1.0 + sqrt(dx * dx + dy * dy)) == Weights(sqrt)[5 * (dy + 2) + (dx + 2)]
  {
    OffsetOfEntry(dx, dy, 2);
    NeighborInImage(p, w, h, dx, dy);
  }

  /** The body of the innermost loop of `refineEdges`: window entry
      (dx, dy) of p, read from the snapshot and weighted, is added to both
      sums. */
  method AddEntry(snap: seq<Byte>, p: int, w: nat, h: nat, dx: int, dy: int, sqrt: int -> real,
                  alphaSum0: real, weightSum0: real)
    returns (alphaSum: real, weightSum: real)
    requires ValidImage(snap, w, h) && NonNegativeRoot(sqrt)
    requires InsetPixel(p, w, h, KernelSize)
    requires -2 <= dx <= 2 && -2 <= dy <= 2
    requires alphaSum0 == AlphaSum(AlphaWindow(snap, w, h, p), Weights(sqrt), 5 * (dy + 2) + (dx + 2))
    requires weightSum0 == WeightSum(Weights(sqrt), 5 * (dy + 2) + (dx + 2))
    ensures alphaSum == AlphaSum(AlphaWindow(snap, w, h, p), Weights(sqrt), 5 * (dy + 2) + (dx + 3))
    ensures weightSum == WeightSum(Weights(sqrt), 5 * (dy + 2) + (dx + 3))
  {
    var neighborIdx := (p + dy * w + dx) * 4;
    AlphaWindowEntry(snap, p, w, h, dx, dy, sqrt);
    var weight := 1.0 / (1.0 + sqrt(dx * dx + dy * dy));
    SumStep(AlphaWindow(snap, w, h, p), Weights(sqrt), 5 * (dy + 2) + (dx + 2), snap[neighborIdx + 3], weight);
    alphaSum := alphaSum0 + Term(snap[neighborIdx + 3], weight);
    weightSum := weightSum0 + weight;
  }

  /** The innermost loop of `refineEdges` for pixel p and row offset dy:
      adds the five entries of that row of the window to both sums. */
  method WindowRow(snap: seq<Byte>, p: int, w: nat, h: nat, dy: int, sqrt: int -> real,
                   alphaSum0: real, weightSum0: real)
    returns (alphaSum: real, weightSum: real)
    requires ValidImage(snap, w, h) && NonNegativeRoot(sqrt)
    requires InsetPixel(p, w, h, KernelSize)
    requires -2 <= dy <= 2
    requires alphaSum0 == AlphaSum(AlphaWindow(snap, w, h, p), Weights(sqrt), 5 * (dy + 2))
    requires weightSum0 == WeightSum(Weights(sqrt), 5 * (dy + 2))
    ensures alphaSum == AlphaSum(AlphaWindow(snap, w, h, p), Weights(sqrt), 5 * (dy + 3))
    ensures weightSum == WeightSum(Weights(sqrt), 5 * (dy + 3))
  {
    alphaSum, weightSum := alphaSum0, weightSum0;
    var dx := -2;
    while dx <= 2
      invariant -2 <= dx <= 3
      invariant alphaSum == AlphaSum(AlphaWindow(snap, w, h, p), Weights(sqrt), 5 * (dy + 2) + (dx + 2))
      invariant weightSum == WeightSum(Weights(sqrt), 5 * (dy + 2) + (dx + 2))
    {
      alphaSum, weightSum := AddEntry(snap, p, w, h, dx, dy, sqrt, alphaSum, weightSum);
      dx := dx + 1;
    }
    assert 5 * (dy + 2) + (dx + 2) == 5 * (dy + 3);
  }

  /** The two inner loops of `refineEdges` for pixel p = y * width + x: the
      rounded weighted average of its 5x5 window. */
  method WindowAverage(snap: seq<Byte>, p: int, w: nat, h: nat, sqrt: int -> real) returns (alpha: int)
    requires ValidImage(snap, w, h) && NonNegativeRoot(sqrt)
    requires InsetPixel(p, w, h, KernelSize)
    ensures alpha == SmoothedAlpha(snap, w, h, p, sqrt)
  {
    ghost var win := AlphaWindow(snap, w, h, p);
    ghost var ws := Weights(sqrt);
    var alphaSum := 0.0;
    var weightSum := 0.0;
    var dy := -2;
    while dy <= 2
      invariant -2 <= dy <= 3
      invariant alphaSum == AlphaSum(win, ws, 5 * (dy + 2))
      invariant weightSum == WeightSum(ws, 5 * (dy + 2))
    {
      alphaSum, weightSum := WindowRow(snap, p, w, h, dy, sqrt, alphaSum, weightSum);
      dy := dy + 1;
    }
    alpha := Round(alphaSum / weightSum);
  }

  // ---------------------------------------------------------------------
  // refineEdges
  // ---------------------------------------------------------------------

  /** The alpha pixel q has after `refineEdges`: the smoothed alpha of the
      snapshot when q is two pixels inside the frame and on the border, its
      snapshot alpha otherwise. */
  function RefinedAlpha(snap: seq<Byte>, fgMask: seq<bool>, bgMask: seq<bool>, w: nat, h: nat,
                        sqrt: int -> real, q: int): Byte
    requires ValidImage(snap, w, h) && |fgMask| == w * h && |bgMask| == w * h
    requires NonNegativeRoot(sqrt) && 0 <= q < w * h
  {
    if InsetPixel(q, w, h, KernelSize) && OnBorder(fgMask, bgMask, w, h, q)
    then SmoothedAlpha(snap, w, h, q, sqrt)
    else Alpha(snap, q)
  }

  function RefinedAlphas(snap: seq<Byte>, fgMask: seq<bool>, bgMask: seq<bool>, w: nat, h: nat,
                         sqrt: int -> real): (a: seq<Byte>)
    requires ValidImage(snap, w, h) && |fgMask| == w * h && |bgMask| == w * h
    requires NonNegativeRoot(sqrt)
    ensures |a| == w * h
  {
    seq(w * h, q requires 0 <= q < w * h => RefinedAlpha(snap, fgMask, bgMask, w, h, sqrt, q))
  }

  /** The buffer after `refineEdges`. */
  function Refined(snap: seq<Byte>, fgMask: seq<bool>, bgMask: seq<bool>, w: nat, h: nat,
                   sqrt: int -> real): (out: seq<Byte>)
    requires ValidImage(snap, w, h) && |fgMask| == w * h && |bgMask| == w * h
    requires NonNegativeRoot(sqrt)
    ensures |out| == |snap|
  {
    SetAlphas(snap, RefinedAlphas(snap, fgMask, bgMask, w, h, sqrt))
  }

  /** `refineEdges` keeps every colour byte, and keeps the alpha of every
      pixel that is not both two pixels inside the frame and on the border. */
  lemma RefineFrame(snap: seq<Byte>, fgMask: seq<bool>, bgMask: seq<bool>, w: nat, h: nat,
                    sqrt: int -> real, q: int)
    requires ValidImage(snap, w, h) && |fgMask| == w * h && |bgMask| == w * h
    requires NonNegativeRoot(sqrt) && 0 <= q < w * h
    ensures ColorAt(Refined(snap, fgMask, bgMask, w, h, sqrt), q) == ColorAt(snap, q)
    ensures !(InsetPixel(q, w, h, KernelSize) && OnBorder(fgMask, bgMask, w, h, q)) ==>
      Alpha(Refined(snap, fgMask, bgMask, w, h, sqrt), q) == Alpha(snap, q)
  {
    SetAlphasAt(snap, RefinedAlphas(snap, fgMask, bgMask, w, h, sqrt), q);
  }

  /** A pixel in neither mask keeps its alpha. */
  lemma RefineUnmasked(snap: seq<Byte>, fgMask: seq<bool>, bgMask: seq<bool>, w: nat, h: nat,
                       sqrt: int -> real, q: int)
    requires ValidImage(snap, w, h) && |fgMask| == w * h && |bgMask| == w * h
    requires NonNegativeRoot(sqrt) && 0 <= q < w * h
    requires !fgMask[q] && !bgMask[q]
    ensures Alpha(Refined(snap, fgMask, bgMask, w, h, sqrt), q) == Alpha(snap, q)
  {
    RefineFrame(snap, fgMask, bgMask, w, h, sqrt, q);
  }

  /** A refined pixel gets an alpha between the smallest and the largest
      snapshot alpha of its 5x5 window; in particular a window of one alpha
      keeps it. */
  lemma RefineBetween(snap: seq<Byte>, fgMask: seq<bool>, bgMask: seq<bool>, w: nat, h: nat,
                      sqrt: int -> real, q: int, lo: int, hi: int)
    requires ValidImage(snap, w, h) && |fgMask| == w * h && |bgMask| == w * h
    requires NonNegativeRoot(sqrt) && 0 <= q < w * h
    requires InsetPixel(q, w, h, KernelSize) && OnBorder(fgMask, bgMask, w, h, q)
    requires forall dx, dy :: -2 <= dx <= 2 && -2 <= dy <= 2 ==> lo <= AlphaAt(snap, w, h, q, dx, dy) <= hi
    ensures Alpha(Refined(snap, fgMask, bgMask, w, h, sqrt), q) == SmoothedAlpha(snap, w, h, q, sqrt)
    ensures lo <= Alpha(Refined(snap, fgMask, bgMask, w, h, sqrt), q) <= hi
  {
    SetAlphasAt(snap, RefinedAlphas(snap, fgMask, bgMask, w, h, sqrt), q);
    SmoothedBetween(snap, w, h, q, sqrt, lo, hi);
  }

  /** Pixel q comes before column x of row y in row-major order. */
  predicate Before(q: int, w: nat, x: int, y: int)
  {
    w > 0 && (Row(q, w) < y || (Row(q, w) == y && Col(q, w) < x))
  }

  /** The invariant of the two outer loops: the pixels before (x, y) carry
      their refined alpha, the others their snapshot alpha. */
  ghost predicate Progress(alphas: seq<Byte>, snap: seq<Byte>, fgMask: seq<bool>, bgMask: seq<bool>,
                           w: nat, h: nat, sqrt: int -> real, x: int, y: int)
    requires ValidImage(snap, w, h) && |fgMask| == w * h && |bgMask| == w * h
    requires NonNegativeRoot(sqrt)
  {
    && |alphas| == w * h
    && forall q :: 0 <= q < w * h ==>
         alphas[q] == if Before(q, w, x, y) then RefinedAlpha(snap, fgMask, bgMask, w, h, sqrt, q) else Alpha(snap, q)
  }

  lemma ProgressStart(snap: seq<Byte>, fgMask: seq<bool>, bgMask: seq<bool>, w: nat, h: nat, sqrt: int -> real)
    requires ValidImage(snap, w, h) && |fgMask| == w * h && |bgMask| == w * h
    requires NonNegativeRoot(sqrt)
    ensures Progress(Alphas(snap), snap, fgMask, bgMask, w, h, sqrt, 0, KernelSize)
  {
  }

  /** Columns 0 and 1 are never refined. */
  lemma ProgressRowStart(alphas: seq<Byte>, snap: seq<Byte>, fgMask: seq<bool>, bgMask: seq<bool>,
                         w: nat, h: nat, sqrt: int -> real, y: int)
    requires ValidImage(snap, w, h) && |fgMask| == w * h && |bgMask| == w * h
    requires NonNegativeRoot(sqrt)
    requires Progress(alphas, snap, fgMask, bgMask, w, h, sqrt, 0, y)
    ensures Progress(alphas, snap, fgMask, bgMask, w, h, sqrt, KernelSize, y)
  {
  }

  /** Neither are the last two columns. */
  lemma ProgressRowEnd(alphas: seq<Byte>, snap: seq<Byte>, fgMask: seq<bool>, bgMask: seq<bool>,
                       w: nat, h: nat, sqrt: int -> real, x: int, y: int)
    requires ValidImage(snap, w, h) && |fgMask| == w * h && |bgMask| == w * h
    requires NonNegativeRoot(sqrt)
    requires x >= w - KernelSize
    requires Progress(alphas, snap, fgMask, bgMask, w, h, sqrt, x, y)
    ensures Progress(alphas, snap, fgMask, bgMask, w, h, sqrt, 0, y + 1)
  {
  }

  /** Nor the last two rows: once y reaches h - 2 every alpha is final. */
  lemma ProgressEnd(alphas: seq<Byte>, snap: seq<Byte>, fgMask: seq<bool>, bgMask: seq<bool>,
                    w: nat, h: nat, sqrt: int -> real, y: int)
    requires ValidImage(snap, w, h) && |fgMask| == w * h && |bgMask| == w * h
    requires NonNegativeRoot(sqrt)
    requires y >= h - KernelSize
    requires Progress(alphas, snap, fgMask, bgMask, w, h, sqrt, 0, y)
    ensures alphas == RefinedAlphas(snap, fgMask, bgMask, w, h, sqrt)
  {
  }

  /** Visiting pixel (x, y) and giving it its refined alpha moves the
      frontier one pixel on. */
  lemma ProgressStep(alphas: seq<Byte>, snap: seq<Byte>, fgMask: seq<bool>, bgMask: seq<bool>,
                     w: nat, h: nat, sqrt: int -> real, x: nat, y: nat)
    requires ValidImage(snap, w, h) && |fgMask| == w * h && |bgMask| == w * h
    requires NonNegativeRoot(sqrt)
    requires x < w && y < h
    requires Progress(alphas, snap, fgMask, bgMask, w, h, sqrt, x, y)
    ensures var p := PixelAt(x, y, w, h);
      Progress(alphas[p := RefinedAlpha(snap, fgMask, bgMask, w, h, sqrt, p)], snap, fgMask, bgMask, w, h, sqrt, x + 1, y)
  {
    var p := PixelAt(x, y, w, h);
    var next := alphas[p := RefinedAlpha(snap, fgMask, bgMask, w, h, sqrt, p)];
    forall q | 0 <= q < w * h
      ensures next[q] == if Before(q, w, x + 1, y) then RefinedAlpha(snap, fgMask, bgMask, w, h, sqrt, q) else Alpha(snap, q)
    {
      if q != p && Row(q, w) == y && Col(q, w) == x {
        SameRowCol(p, q, w);
      }
    }
  }

  /** The body of the inner loop of `refineEdges` at (x, y): a pixel on the
      border gets the weighted average of its window in the snapshot, any
      other keeps its alpha. */
  method RefinePixel(data: seq<Byte>, fgMask: seq<bool>, bgMask: seq<bool>, w: nat, h: nat, sqrt: int -> real,
                     out: seq<Byte>, ghost alphas: seq<Byte>, x: nat, y: nat)
    returns (out': seq<Byte>)
    requires ValidImage(data, w, h) && |fgMask| == w * h && |bgMask| == w * h
    requires NonNegativeRoot(sqrt)
    requires KernelSize <= x < w - KernelSize && KernelSize <= y < h - KernelSize
    requires |alphas| == w * h && out == SetAlphas(data, alphas)
    requires alphas[PixelAt(x, y, w, h)] == Alpha(data, PixelAt(x, y, w, h))
    ensures var p := PixelAt(x, y, w, h);
      out' == SetAlphas(data, alphas[p := RefinedAlpha(data, fgMask, bgMask, w, h, sqrt, p)])
  {
    var tempData := data;
    var idx := (y * w + x) * 4;
    ghost var p := PixelAt(x, y, w, h);
    var border := IsOnBorder(fgMask, bgMask, x, y, w, h);
    if border {
      var alpha := WindowAverage(tempData, y * w + x, w, h, sqrt);
      SetAlphasUpdate(data, alphas, p, alpha);
      out' := out[idx + 3 := alpha];
    } else {
      assert alphas[p := RefinedAlpha(data, fgMask, bgMask, w, h, sqrt, p)] == alphas;
      out' := out;
    }
  }

  /** `refineEdges`: for y in [2, h - 2) and x in [2, w - 2), a pixel on the
      border gets the weighted average of its window in the snapshot
      `tempData`. */
  method RefineEdges(data: seq<Byte>, fgMask: seq<bool>, bgMask: seq<bool>, w: nat, h: nat, sqrt: int -> real)
    returns (out: seq<Byte>)
    requires ValidImage(data, w, h) && |fgMask| == w * h && |bgMask| == w * h
    requires NonNegativeRoot(sqrt)
    ensures out == Refined(data, fgMask, bgMask, w, h, sqrt)
  {
    out := data;
    ghost var alphas: seq<Byte> := Alphas(data);
    SetOwnAlphas(data);
    ProgressStart(data, fgMask, bgMask, w, h, sqrt);
    var y := KernelSize;
    while y < h - KernelSize
      invariant KernelSize <= y
      invariant Progress(alphas, data, fgMask, bgMask, w, h, sqrt, 0, y)
      invariant out == SetAlphas(data, alphas)
    {
      ProgressRowStart(alphas, data, fgMask, bgMask, w, h, sqrt, y);
      var x := KernelSize;
      while x < w - KernelSize
        invariant KernelSize <= x
        invariant Progress(alphas, data, fgMask, bgMask, w, h, sqrt, x, y)
        invariant out == SetAlphas(data, alphas)
      {
        ProgressStep(alphas, data, fgMask, bgMask, w, h, sqrt, x, y);
        out := RefinePixel(data, fgMask, bgMask, w, h, sqrt, out, alphas, x, y);
        ghost var p := PixelAt(x, y, w, h);
        alphas := alphas[p := RefinedAlpha(data, fgMask, bgMask, w, h, sqrt, p)];
        x := x + 1;
      }
      ProgressRowEnd(alphas, data, fgMask, bgMask, w, h, sqrt, x, y);
      y := y + 1;
    }
    ProgressEnd(alphas, data, fgMask, bgMask, w, h, sqrt, y);
  }
}
