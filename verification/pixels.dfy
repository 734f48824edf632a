/** The value-or-nothing result of a partial operation. */
module Optional {
  datatype Option<T> = None | Some(value: T)
}

/** Shared vocabulary of the segmentation pass: bytes, colours, RGBA pixel
    buffers laid out row-major with four channels per pixel, neighbourhood
    addressing, and JavaScript's Math.round. */
module Pixels {

  /** One channel value of a Uint8ClampedArray / Uint8Array. */
  type Byte = b: int | 0 <= b < 256

  /** The red, green and blue channels of one pixel. */
  datatype Color = Color(r: Byte, g: Byte, b: Byte)

  /** A buffer of `w*h` RGBA pixels, as produced by canvas getImageData. */
  predicate ValidImage(data: seq<Byte>, w: nat, h: nat)
  {
    |data| == 4 * (w * h)
  }

  function ColorAt(data: seq<Byte>, p: nat): Color
    requires 4 * p + 2 < |data|
  {
    Color(data[4 * p], data[4 * p + 1], data[4 * p + 2])
  }

  function Alpha(data: seq<Byte>, p: nat): Byte
    requires 4 * p + 3 < |data|
  {
    data[4 * p + 3]
  }

  function ColorChannel(c: Color, ch: nat): Byte
    requires ch < 3
  {
    if ch == 0 then c.r else if ch == 1 then c.g else c.b
  }

  /** The alpha channel of every pixel, in pixel order. */
  function Alphas(data: seq<Byte>): (a: seq<Byte>)
    requires |data| % 4 == 0
    ensures |a| == |data| / 4
  {
    seq(|data| / 4, p requires 0 <= p < |data| / 4 => data[4 * p + 3])
  }

  /** `data` with the alpha channel of pixel p replaced by `alphas[p]` and
      every colour channel kept. */
  function SetAlphas(data: seq<Byte>, alphas: seq<Byte>): (out: seq<Byte>)
    requires |data| == 4 * |alphas|
    ensures |out| == |data|
  {
    seq(|data|, j requires 0 <= j < |data| => if j % 4 == 3 then alphas[j / 4] else data[j])
  }

  /** What SetAlphas leaves and what it writes at pixel p. */
  lemma SetAlphasAt(data: seq<Byte>, alphas: seq<Byte>, p: nat)
    requires |data| == 4 * |alphas| && p < |alphas|
    ensures SetAlphas(data, alphas)[4 * p + 3] == alphas[p]
    ensures ColorAt(SetAlphas(data, alphas), p) == ColorAt(data, p)
  {
  }

  /** Writing one alpha byte of a SetAlphas result is SetAlphas with that
      entry updated. */
  lemma SetAlphasUpdate(data: seq<Byte>, alphas: seq<Byte>, p: nat, v: Byte)
    requires |data| == 4 * |alphas| && p < |alphas|
    ensures SetAlphas(data, alphas)[4 * p + 3 := v] == SetAlphas(data, alphas[p := v])
  {
    var l := SetAlphas(data, alphas)[4 * p + 3 := v];
    var r := SetAlphas(data, alphas[p := v]);
    forall j | 0 <= j < |data| ensures l[j] == r[j] {
      if j % 4 == 3 && j / 4 == p {
        assert j == 4 * p + 3;
      }
    }
  }

  /** Setting the alphas a buffer already has changes nothing. */
  lemma SetOwnAlphas(data: seq<Byte>)
    requires |data| % 4 == 0
    ensures SetAlphas(data, Alphas(data)) == data
  {
    forall j | 0 <= j < |data| && j % 4 == 3 ensures data[4 * (j / 4) + 3] == data[j] {
      assert 4 * (j / 4) + 3 == j;
    }
  }

  /** A second SetAlphas overrides the first. */
  lemma SetAlphasTwice(data: seq<Byte>, a: seq<Byte>, b: seq<Byte>)
    requires |data| == 4 * |a| && |a| == |b|
    ensures SetAlphas(SetAlphas(data, a), b) == SetAlphas(data, b)
  {
  }

  /** The alphas of a SetAlphas result are the ones set. */
  lemma AlphasOfSetAlphas(data: seq<Byte>, a: seq<Byte>)
    requires |data| == 4 * |a|
    ensures Alphas(SetAlphas(data, a)) == a
  {
    forall p | 0 <= p < |a| ensures Alphas(SetAlphas(data, a))[p] == a[p] {
      SetAlphasAt(data, a, p);
    }
  }

  /** Row-major pixel index of the pixel at offset (dx, dy) from pixel `p`. */
  function Neighbor(p: int, w: int, dx: int, dy: int): int
  {
    p + dy * w + dx
  }

  /** The row-major pixel index of column `x`, row `y`. */
  function PixelIndex(x: int, y: int, w: int): int
  {
    y * w + x
  }

  lemma PixelIndexBounds(x: nat, y: nat, w: nat, h: nat)
    requires x < w && y < h
    ensures 0 <= PixelIndex(x, y, w) < w * h
    ensures 4 * PixelIndex(x, y, w) + 3 < 4 * (w * h)
  {
    assert y * w + x < y * w + w == (y + 1) * w;
    assert (y + 1) * w <= h * w by {
      assert y + 1 <= h;
    }
  }

  lemma {:induction false} MulAtLeast(w: nat, k: int)
    requires k >= 1
    ensures w * k >= w
    decreases k
  {
    if k > 1 {
      MulAtLeast(w, k - 1);
      assert w * k == w * (k - 1) + w;
    }
  }

  /** Euclidean division is unique: the quotient and remainder of `n` by `w`
      are the `q` and `r` with n = w*q + r and 0 <= r < w. */
  lemma DivModUnique(n: int, w: int, q: int, r: int)
    requires w > 0 && 0 <= r < w && n == w * q + r
    ensures n / w == q && n % w == r
  {
    var q' := n / w;
    var r' := n % w;
    assert n == w * q' + r';
    if q' > q {
      MulAtLeast(w, q' - q);
    } else if q' < q {
      MulAtLeast(w, q - q');
    }
  }

  /** The column and row of a pixel are recovered from its index. */
  lemma PixelIndexInverse(x: nat, y: nat, w: nat)
    requires x < w
    ensures PixelIndex(x, y, w) / w == y
    ensures PixelIndex(x, y, w) % w == x
  {
    DivModUnique(y * w + x, w, y, x);
  }

  lemma MulMonotone(w: nat, a: int, b: int)
    requires a <= b
    ensures w * a <= w * b
  {
    if a < b {
      MulAtLeast(w, b - a);
      assert w * b == w * a + w * (b - a);
    }
  }

  /** Column of pixel `p` in a row of `w` pixels. */
  function Col(p: int, w: int): int
    requires w > 0
  {
    p % w
  }

  /** Row of pixel `p` in a row of `w` pixels. */
  function Row(p: int, w: int): int
    requires w > 0
  {
    p / w
  }

  /** Pixel `p` of a `w` by `h` image has all eight neighbours. */
  predicate InteriorPixel(p: int, w: int, h: int)
  {
    && w > 0 && 0 <= p
    && 1 <= Col(p, w) < w - 1
    && 1 <= Row(p, w) < h - 1
  }

  /** Pixel `p` has every pixel within distance `k` (rows and columns) of
      it inside the image. */
  predicate InsetPixel(p: int, w: int, h: int, k: nat)
  {
    && w > 0 && 0 <= p
    && k <= Col(p, w) < w - k
    && k <= Row(p, w) < h - k
  }

  /** The neighbour at offset (dx, dy) of a pixel at least |dx| columns and
      |dy| rows away from the frame is in the image, in the expected row
      and column. */
  lemma NeighborInImage(p: int, w: nat, h: nat, dx: int, dy: int)
    requires w > 0 && 0 <= p
    requires 0 <= Col(p, w) + dx < w
    requires 0 <= Row(p, w) + dy < h
    ensures 0 <= Neighbor(p, w, dx, dy) < w * h
    ensures Col(Neighbor(p, w, dx, dy), w) == Col(p, w) + dx
    ensures Row(Neighbor(p, w, dx, dy), w) == Row(p, w) + dy
  {
    var x := p % w;
    var y := p / w;
    var n := Neighbor(p, w, dx, dy);
    assert p == w * y + x;
    assert w * (y + dy) == w * y + dy * w;
    assert n == w * (y + dy) + (x + dx);
    DivModUnique(n, w, y + dy, x + dx);
    MulMonotone(w, y + dy, h - 1);
    assert w * (h - 1) + w == w * h;
    MulMonotone(w, 0, y + dy);
  }

  /** Concatenation is associative. */
  lemma ConcatAssoc<T>(a: seq<T>, b: seq<T>, c: seq<T>)
    ensures a + (b + c) == (a + b) + c
  {
  }

  /** Column and row recovered from a row-major pixel index. */
  lemma PixelIndexDecompose(p: nat, w: nat)
    requires w > 0
    ensures PixelIndex(p % w, p / w, w) == p
    ensures 0 <= p % w < w
  {
  }

  /** Moving by (dx, dy) from pixel (x, y) lands on pixel (x+dx, y+dy). */
  lemma NeighborIndex(x: int, y: int, w: int, dx: int, dy: int)
    ensures Neighbor(PixelIndex(x, y, w), w, dx, dy) == PixelIndex(x + dx, y + dy, w)
  {
    assert (y + dy) * w == y * w + dy * w;
  }

  /** What Math.sqrt is assumed to satisfy: it is non-negative. */
  ghost predicate NonNegativeRoot(sqrt: int -> real)
  {
    forall n: nat :: sqrt(n) >= 0.0
  }

  /** ... and, where nearest colours are compared, strictly increasing. */
  ghost predicate IncreasingRoot(sqrt: int -> real)
  {
    && NonNegativeRoot(sqrt)
    && forall a: nat, b: nat :: a < b ==> sqrt(a) < sqrt(b)
  }

  /** `y * width + x` for a pixel (x, y) of the image, with its column and
      row. */
  function PixelAt(x: nat, y: nat, w: nat, h: nat): (p: nat)
    requires x < w && y < h
    ensures p == PixelIndex(x, y, w) && p < w * h
    ensures Col(p, w) == x && Row(p, w) == y
  {
    PixelIndexInverse(x, y, w);
    PixelIndexBounds(x, y, w, h);
    y * w + x
  }

  /** Two pixels with the same column and row are the same pixel. */
  lemma SameRowCol(p: nat, q: nat, w: nat)
    requires w > 0 && Col(p, w) == Col(q, w) && Row(p, w) == Row(q, w)
    ensures p == q
  {
    PixelIndexDecompose(p, w);
    PixelIndexDecompose(q, w);
  }

  /** Column offset of entry i of a window `side` entries wide. */
  function OffsetX(i: nat, side: nat): int
    requires side > 0
  {
    i % side - side / 2
  }

  /** Row offset of entry i of a window `side` entries wide. */
  function OffsetY(i: nat, side: nat): int
    requires side > 0
  {
    i / side - side / 2
  }

  /** Entry (dx + k, dy + k) of a window of side 2k + 1 has the offsets
      (dx, dy). */
  lemma OffsetOfEntry(dx: int, dy: int, k: nat)
    requires -(k as int) <= dx <= k && -(k as int) <= dy <= k
    ensures OffsetX((2 * k + 1) * (dy + k) + (dx + k), 2 * k + 1) == dx
    ensures OffsetY((2 * k + 1) * (dy + k) + (dx + k), 2 * k + 1) == dy
  {
    DivModUnique((2 * k + 1) * (dy + k) + (dx + k), 2 * k + 1, dy + k, dx + k);
  }

  /** JavaScript's Math.round: the nearest integer, halves rounded up. */
  function Round(x: real): int
  {
    (x + 0.5).Floor
  }

  lemma RoundOfInteger(n: int)
    ensures Round(n as real) == n
  {
  }

  /** Rounding a value that lies between two integers stays between them. */
  lemma RoundBetween(x: real, lo: int, hi: int)
    requires lo as real <= x <= hi as real
    ensures lo <= Round(x) <= hi
  {
    assert (lo as real + 0.5).Floor == lo;
    assert (hi as real + 0.5).Floor == hi;
  }

  function Min(a: int, b: int): int
  {
    if a <= b then a else b
  }

  function Max(a: int, b: int): int
  {
    if a >= b then a else b
  }
}
