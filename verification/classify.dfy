/** `calculateColorScore` and the per-pixel decision of
    `processChunkEnhanced`.

    The score of a colour set is 1 / (1 + d) for the smallest Euclidean
    distance d from the pixel to a colour of the set, and 0 for an empty set
    (d stays Infinity). A pixel is background when

        bgScore > fgScore * (1 + e / 255)

    for its edge-map byte e. The scores are computed over the reals with
    Math.sqrt as the parameter `sqrt`, of which only non-negativity (so that
    the divisions are defined) and, for the nearest-colour properties,
    strict monotonicity are assumed. */
module Classification {
  import opened Pixels
  import opened Optional

  /** Squared Euclidean distance between two colours. */
  function SqDist(a: Color, b: Color): nat
  {
    var dr := a.r - b.r;
    var dg := a.g - b.g;
    var db := a.b - b.b;
    dr * dr + dg * dg + db * db
  }

  /** Smallest squared distance from `c` to a colour of `colors`; None when
      `colors` is empty. */
  function NearestSq(c: Color, colors: seq<Color>): (d: Option<nat>)
    ensures d.None? <==> |colors| == 0
    ensures d.Some? ==> forall i :: 0 <= i < |colors| ==> d.value <= SqDist(c, colors[i])
    ensures d.Some? ==> exists i :: 0 <= i < |colors| && d.value == SqDist(c, colors[i])
  {
    if |colors| == 0 then None
    else
      var last := SqDist(c, colors[|colors| - 1]);
      var rest := NearestSq(c, colors[..|colors| - 1]);
      if rest.None? || last < rest.value then Some(last) else rest
  }

  // ---------------------------------------------------------------------
  // Scores
  // ---------------------------------------------------------------------

  function RealMin(a: real, b: real): real
  {
    if a <= b then a else b
  }

  /** `minDiff` after the loop over a non-empty colour set: the running
      minimum of the distances, first colour first. */
  function MinRoot(c: Color, colors: seq<Color>, sqrt: int -> real): (d: real)
    requires |colors| > 0 && NonNegativeRoot(sqrt)
    ensures d >= 0.0
    ensures forall i :: 0 <= i < |colors| ==> d <= sqrt(SqDist(c, colors[i]))
  {
    var root := sqrt(SqDist(c, colors[|colors| - 1]));
    if |colors| == 1 then root else RealMin(MinRoot(c, colors[..|colors| - 1], sqrt), root)
  }

  /** `calculateColorScore`: 1 / (1 + minDiff), with 1 / (1 + Infinity) = 0. */
  function ScoreOf(c: Color, colors: seq<Color>, sqrt: int -> real): (s: real)
    requires NonNegativeRoot(sqrt)
    ensures |colors| == 0 <==> s == 0.0
    ensures 0.0 <= s <= 1.0
  {
    if |colors| == 0 then 0.0
    else
      var d := 1.0 + MinRoot(c, colors, sqrt);
      RecipInUnit(d);
      1.0 / d
  }

  /** `bgScore > fgScore * (1 + edgeStrength)` for edge byte v. */
  predicate Beats(bgScore: real, fgScore: real, v: Byte)
  {
    bgScore > fgScore * (1.0 + v as real / 255.0)
  }

  predicate IsBackground(c: Color, v: Byte, fg: seq<Color>, bg: seq<Color>, sqrt: int -> real)
    requires NonNegativeRoot(sqrt)
  {
    Beats(ScoreOf(c, bg, sqrt), ScoreOf(c, fg, sqrt), v)
  }

  /** `Math.round(255 * (1 - edgeStrength))` for edge byte v. */
  function FadeAlpha(v: Byte): int
  {
    Round(255.0 * (1.0 - v as real / 255.0))
  }

  lemma FadeAlphaValue(v: Byte)
    ensures FadeAlpha(v) == 255 - v
  {
    assert 255.0 * (1.0 - v as real / 255.0) == (255 - v) as real;
    RoundOfInteger(255 - v);
  }

  datatype Outcome = Outcome(alpha: Byte, foreground: bool)

  /** The alpha written and the mask set for a pixel of colour `c` whose
      edge-map byte is `v`: a background pixel gets 0 off the edges and the
      faded alpha on them; a foreground pixel gets 255. */
  function Classify(c: Color, v: Byte, fg: seq<Color>, bg: seq<Color>, sqrt: int -> real): (o: Outcome)
    requires NonNegativeRoot(sqrt)
    ensures o.foreground <==> !IsBackground(c, v, fg, bg, sqrt)
    ensures o.foreground ==> o.alpha == 255
    ensures !o.foreground ==> o.alpha == (if v > 0 then 255 - v else 0)
  {
    if IsBackground(c, v, fg, bg, sqrt) then
      FadeAlphaValue(v);
      Outcome(if v > 0 then FadeAlpha(v) else 0, false)
    else Outcome(255, true)
  }

  // ---------------------------------------------------------------------
  // Real arithmetic
  // ---------------------------------------------------------------------

  lemma MulWeak(z: real, x: real, y: real)
    requires x <= y && z >= 0.0
    ensures z * x <= z * y
  {
    assert z * y - z * x == z * (y - x);
  }

  lemma BeatsSmallerBonus(b: real, f: real, v1: Byte, v2: Byte)
    requires f >= 0.0 && v1 <= v2 && Beats(b, f, v2)
    ensures Beats(b, f, v1)
  {
    MulWeak(f, 1.0 + v1 as real / 255.0, 1.0 + v2 as real / 255.0);
  }

  lemma RecipOrder(x: real, y: real)
    requires x > 0.0 && y > 0.0
    ensures 1.0 / x > 1.0 / y <==> x < y
  {
    assert 1.0 / x - 1.0 / y == (y - x) / (x * y);
    assert x * y > 0.0;
  }

  lemma RecipInUnit(x: real)
    requires x >= 1.0
    ensures 0.0 < 1.0 / x <= 1.0
  {
    RecipOrder(1.0, x);
  }

  // ---------------------------------------------------------------------
  // Properties
  // ---------------------------------------------------------------------

  /** With an increasing root, the running minimum of the distances is the
      root of the smallest squared distance. */
  lemma {:induction false} MinRootIsRootOfNearest(c: Color, colors: seq<Color>, sqrt: int -> real)
    requires IncreasingRoot(sqrt)
    requires |colors| > 0
    ensures MinRoot(c, colors, sqrt) == sqrt(NearestSq(c, colors).value)
    decreases |colors|
  {
    if |colors| > 1 {
      var pre := colors[..|colors| - 1];
      MinRootIsRootOfNearest(c, pre, sqrt);
    }
  }

  /** Of two scores 1 / (1 + r), the one with the smaller r is larger. */
  lemma RecipScores(scoreA: real, scoreB: real, ra: real, rb: real)
    requires ra >= 0.0 && rb >= 0.0
    requires scoreA == 1.0 / (1.0 + ra) && scoreB == 1.0 / (1.0 + rb)
    ensures scoreA > scoreB <==> ra < rb
  {
    RecipOrder(1.0 + ra, 1.0 + rb);
  }

  lemma RootOrder(sqrt: int -> real, sa: nat, sb: nat)
    requires IncreasingRoot(sqrt)
    ensures sa < sb <==> sqrt(sa) < sqrt(sb)
  {
    if sb < sa {
      assert sqrt(sb) < sqrt(sa);
    }
  }

  /** Of two non-empty sets, the one with the smaller running minimum
      scores higher. */
  lemma ScoreOrderOfRoots(c: Color, a: seq<Color>, b: seq<Color>, sqrt: int -> real)
    requires NonNegativeRoot(sqrt)
    requires |a| > 0 && |b| > 0
    ensures ScoreOf(c, a, sqrt) > ScoreOf(c, b, sqrt) <==> MinRoot(c, a, sqrt) < MinRoot(c, b, sqrt)
  {
    RecipScores(ScoreOf(c, a, sqrt), ScoreOf(c, b, sqrt), MinRoot(c, a, sqrt), MinRoot(c, b, sqrt));
  }

  /** A non-empty set scores higher the nearer its nearest colour. */
  lemma ScoreOrder(c: Color, a: seq<Color>, b: seq<Color>, sqrt: int -> real)
    requires IncreasingRoot(sqrt)
    requires |a| > 0 && |b| > 0
    ensures ScoreOf(c, a, sqrt) > ScoreOf(c, b, sqrt) <==> NearestSq(c, a).value < NearestSq(c, b).value
  {
    ScoreOrderOfRoots(c, a, b, sqrt);
    MinRootIsRootOfNearest(c, a, sqrt);
    MinRootIsRootOfNearest(c, b, sqrt);
    RootOrder(sqrt, NearestSq(c, a).value, NearestSq(c, b).value);
  }

  lemma ScoreOfNearest(c: Color, colors: seq<Color>, sqrt: int -> real)
    requires IncreasingRoot(sqrt)
    requires |colors| > 0
    ensures ScoreOf(c, colors, sqrt) == 1.0 / (1.0 + sqrt(NearestSq(c, colors).value))
  {
    MinRootIsRootOfNearest(c, colors, sqrt);
  }

  /** With a binary edge map the alpha is binary too. */
  lemma BinaryAlpha(c: Color, v: Byte, fg: seq<Color>, bg: seq<Color>, sqrt: int -> real)
    requires NonNegativeRoot(sqrt)
    requires v == 0 || v == 255
    ensures Classify(c, v, fg, bg, sqrt).alpha == 0 || Classify(c, v, fg, bg, sqrt).alpha == 255
  {
  }

  /** Off the edges, a pixel is opaque foreground exactly when its nearest
      foreground colour is at least as near as its nearest background
      colour: ties go to the foreground. */
  lemma NonEdgeNearest(c: Color, fg: seq<Color>, bg: seq<Color>, sqrt: int -> real)
    requires IncreasingRoot(sqrt)
    requires |fg| > 0 && |bg| > 0
    ensures Classify(c, 0, fg, bg, sqrt).foreground
        <==> NearestSq(c, fg).value <= NearestSq(c, bg).value
    ensures Classify(c, 0, fg, bg, sqrt).alpha == 255
        <==> NearestSq(c, fg).value <= NearestSq(c, bg).value
  {
    ScoreOrder(c, bg, fg, sqrt);
  }

  /** No foreground colours but some background colours: every pixel is
      background, transparent off the edges and faded by the edge byte on
      them, so transparent everywhere with a binary edge map. */
  lemma EmptyForeground(c: Color, v: Byte, bg: seq<Color>, sqrt: int -> real)
    requires NonNegativeRoot(sqrt)
    requires |bg| > 0
    ensures !Classify(c, v, [], bg, sqrt).foreground
    ensures v > 0 ==> Classify(c, v, [], bg, sqrt).alpha == 255 - v
    ensures (v == 0 || v == 255) ==> Classify(c, v, [], bg, sqrt).alpha == 0
  {
  }

  /** No background colours: every pixel is opaque foreground. */
  lemma EmptyBackground(c: Color, v: Byte, fg: seq<Color>, sqrt: int -> real)
    requires NonNegativeRoot(sqrt)
    ensures Classify(c, v, fg, [], sqrt) == Outcome(255, true)
  {
  }

  /** The edge bonus only ever favours the foreground: a pixel that is
      background at edge byte v2 is background at every smaller edge byte. */
  lemma EdgeFavoursForeground(c: Color, v1: Byte, v2: Byte, fg: seq<Color>, bg: seq<Color>, sqrt: int -> real)
    requires NonNegativeRoot(sqrt)
    requires v1 <= v2
    requires IsBackground(c, v2, fg, bg, sqrt)
    ensures IsBackground(c, v1, fg, bg, sqrt)
  {
    BeatsSmallerBonus(ScoreOf(c, bg, sqrt), ScoreOf(c, fg, sqrt), v1, v2);
  }
}
