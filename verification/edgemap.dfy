/** `createEdgeMap`: a binary Sobel edge map over the interior pixels. For
    each of the red, green and blue channels the 3x3 Sobel gradients gx and
    gy are taken, their magnitudes sqrt(gx^2 + gy^2) are summed, and the
    pixel is an edge (255) when the sum exceeds 30. The outermost rows and
    columns are never written and keep the Uint8Array's initial 0.

    Pixels are addressed by their row-major index `p`; the column and row
    the source loops over are `Col(p, w)` and `Row(p, w)`. Math.sqrt is the
    parameter `sqrt`; the properties below need nothing of it except, for a
    uniform window, sqrt(0) = 0. */
module EdgeMap {
  import opened Pixels

  const SobelThreshold: real := 30.0

  /** Colour of the neighbour at offset (dx, dy) of interior pixel `p`. */
  function WindowPixel(data: seq<Byte>, w: nat, h: nat, p: int, dx: int, dy: int): Color
    requires ValidImage(data, w, h) && InteriorPixel(p, w, h)
    requires -1 <= dx <= 1 && -1 <= dy <= 1
  {
    NeighborInImage(p, w, h, dx, dy);
    ColorAt(data, Neighbor(p, w, dx, dy))
  }

  /** The 3x3 window around interior pixel `p`, row by row: entry
      3*(dy+1) + (dx+1) is the neighbour at offset (dx, dy). */
  function Window(data: seq<Byte>, w: nat, h: nat, p: int): (win: seq<Color>)
    requires ValidImage(data, w, h) && InteriorPixel(p, w, h)
    ensures |win| == 9
  {
    [ WindowPixel(data, w, h, p, -1, -1), WindowPixel(data, w, h, p, 0, -1), WindowPixel(data, w, h, p, 1, -1),
      WindowPixel(data, w, h, p, -1, 0), WindowPixel(data, w, h, p, 0, 0), WindowPixel(data, w, h, p, 1, 0),
      WindowPixel(data, w, h, p, -1, 1), WindowPixel(data, w, h, p, 0, 1), WindowPixel(data, w, h, p, 1, 1) ]
  }

  /** The centre of the window is the pixel itself. */
  lemma WindowCentre(data: seq<Byte>, w: nat, h: nat, p: int)
    requires ValidImage(data, w, h) && InteriorPixel(p, w, h)
    ensures 0 <= p < w * h
    ensures Window(data, w, h, p)[4] == ColorAt(data, p)
  {
    NeighborInImage(p, w, h, 0, 0);
  }

  /** Channel `c` of window entry `i`. */
  function Value(win: seq<Color>, i: nat, c: nat): int
    requires i < |win| && c < 3
  {
    ColorChannel(win[i], c)
  }

  /** Horizontal Sobel response of channel `c`, term by term as the worker
      writes it: left column weighted -1, -2, -1, right column 1, 2, 1. */
  function SobelX(win: seq<Color>, c: nat): int
    requires |win| == 9 && c < 3
  {
    - Value(win, 0, c) - 2 * Value(win, 3, c) - Value(win, 6, c)
    + Value(win, 2, c) + 2 * Value(win, 5, c) + Value(win, 8, c)
  }

  /** Vertical Sobel response of channel `c`: top row weighted -1, -2, -1,
      bottom row 1, 2, 1. */
  function SobelY(win: seq<Color>, c: nat): int
    requires |win| == 9 && c < 3
  {
    - Value(win, 0, c) - 2 * Value(win, 1, c) - Value(win, 2, c)
    + Value(win, 6, c) + 2 * Value(win, 7, c) + Value(win, 8, c)
  }

  function ChannelMagnitude(win: seq<Color>, c: nat, sqrt: int -> real): real
    requires |win| == 9 && c < 3
  {
    var gx := SobelX(win, c);
    var gy := SobelY(win, c);
    sqrt(gx * gx + gy * gy)
  }

  /** `edgeValue`: the channel magnitudes summed over red, green and blue. */
  function EdgeValue(win: seq<Color>, sqrt: int -> real): real
    requires |win| == 9
  {
    ChannelMagnitude(win, 0, sqrt) + ChannelMagnitude(win, 1, sqrt) + ChannelMagnitude(win, 2, sqrt)
  }

  /** Edge-map byte of pixel `p`. */
  function EdgeAt(data: seq<Byte>, w: nat, h: nat, p: int, sqrt: int -> real): Byte
    requires ValidImage(data, w, h)
  {
    if InteriorPixel(p, w, h) && EdgeValue(Window(data, w, h, p), sqrt) > SobelThreshold then 255 else 0
  }

  /** `createEdgeMap`: one byte per pixel, only ever 0 or 255; 0 off the
      interior; on an interior pixel 255 exactly when the summed Sobel
      magnitude of its window exceeds the threshold. */
  function CreateEdgeMap(data: seq<Byte>, w: nat, h: nat, sqrt: int -> real): (m: seq<Byte>)
    requires ValidImage(data, w, h)
    ensures |m| == w * h
    ensures forall p :: 0 <= p < |m| ==> m[p] == 0 || m[p] == 255
    ensures forall p :: 0 <= p < |m| && !InteriorPixel(p, w, h) ==> m[p] == 0
    ensures forall p :: 0 <= p < |m| && InteriorPixel(p, w, h) ==>
      (m[p] == 255 <==> EdgeValue(Window(data, w, h, p), sqrt) > SobelThreshold)
  {
    seq(w * h, p requires 0 <= p < w * h => EdgeAt(data, w, h, p, sqrt))
  }

  /** The first and last row and the first and last column are 0. */
  lemma EdgeMapFrame(data: seq<Byte>, w: nat, h: nat, sqrt: int -> real, p: nat)
    requires ValidImage(data, w, h) && p < w * h
    requires Row(p, w) == 0 || Row(p, w) == h - 1 || Col(p, w) == 0 || Col(p, w) == w - 1
    ensures CreateEdgeMap(data, w, h, sqrt)[p] == 0
  {
  }

  /** Every pixel of the window has the colour of its centre. */
  predicate Uniform(win: seq<Color>)
    requires |win| == 9
  {
    forall i :: 0 <= i < 9 ==> win[i] == win[4]
  }

  /** Both Sobel kernels sum to zero, so a uniform window has no gradient. */
  lemma UniformGradient(win: seq<Color>, c: nat)
    requires |win| == 9 && c < 3 && Uniform(win)
    ensures SobelX(win, c) == 0 && SobelY(win, c) == 0
  {
    assert win[0] == win[1] == win[2] == win[3] == win[4];
    assert win[5] == win[6] == win[7] == win[8] == win[4];
  }

  /** A uniform window has edge value 0. */
  lemma UniformEdgeValue(win: seq<Color>, sqrt: int -> real)
    requires |win| == 9 && Uniform(win)
    requires sqrt(0) == 0.0
    ensures EdgeValue(win, sqrt) == 0.0
  {
    UniformGradient(win, 0);
    UniformGradient(win, 1);
    UniformGradient(win, 2);
  }

  /** A pixel whose 3x3 window is one colour is never an edge. */
  lemma UniformWindowNoEdge(data: seq<Byte>, w: nat, h: nat, p: nat, sqrt: int -> real)
    requires ValidImage(data, w, h) && p < w * h
    requires InteriorPixel(p, w, h) && Uniform(Window(data, w, h, p))
    requires sqrt(0) == 0.0
    ensures CreateEdgeMap(data, w, h, sqrt)[p] == 0
  {
    UniformEdgeValue(Window(data, w, h, p), sqrt);
  }
}
