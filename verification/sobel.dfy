/** `getSurroundingPixels` and `calculateEdgeStrength` of the page script:
    the same 3x3 window and Sobel operator the worker's edge map uses,
    written with explicit kernels and averaged over the three channels
    instead of summed. */
module EdgeStrength {
  import opened Pixels
  import EM = EdgeMap

  /** The kernels `gx` and `gy`, row by row. */
  const GX: seq<int> := [-1, 0, 1, -2, 0, 2, -1, 0, 1]
  const GY: seq<int> := [-1, -2, -1, 0, 0, 0, 1, 2, 1]

  /** `{ r: data[idx], g: data[idx + 1], b: data[idx + 2] }`. */
  function ColorAtByte(data: seq<Byte>, idx: int): Color
    requires 0 <= idx && idx + 2 < |data|
  {
    Color(data[idx], data[idx + 1], data[idx + 2])
  }

  /** Byte offset `((y + dy) * width + (x + dx)) * 4` of a neighbour. */
  function ByteOffset(x: int, y: int, width: int, dx: int, dy: int): int
  {
    ((y + dy) * width + (x + dx)) * 4
  }

  /** All nine reads of the window around (x, y) fall inside the buffer. */
  predicate WindowInBuffer(x: int, y: int, width: int, data: seq<Byte>)
  {
    forall dx, dy :: -1 <= dx <= 1 && -1 <= dy <= 1 ==>
      0 <= ByteOffset(x, y, width, dx, dy) && ByteOffset(x, y, width, dx, dy) + 2 < |data|
  }

  /** The nine colours `getSurroundingPixels` pushes: entry i is the
      neighbour at column offset i % 3 - 1 and row offset i / 3 - 1. */
  function Surrounding(x: int, y: int, width: int, data: seq<Byte>): (px: seq<Color>)
    requires WindowInBuffer(x, y, width, data)
    ensures |px| == 9
  {
    seq(9, i requires 0 <= i < 9 =>
      var dx, dy := OffsetX(i, 3), OffsetY(i, 3);
      assert -1 <= dx <= 1 && -1 <= dy <= 1;
      ColorAtByte(data, ByteOffset(x, y, width, dx, dy)))
  }

  /** `getSurroundingPixels(x, y, width, data)`: dy outer, dx inner. */
  method GetSurroundingPixels(x: int, y: int, width: int, data: seq<Byte>) returns (pixels: seq<Color>)
    requires WindowInBuffer(x, y, width, data)
    ensures pixels == Surrounding(x, y, width, data)
  {
    ghost var spec := Surrounding(x, y, width, data);
    pixels := [];
    var dy := -1;
    while dy <= 1
      invariant -1 <= dy <= 2
      invariant pixels == spec[..3 * (dy + 1)]
    {
      var dx := -1;
      while dx <= 1
        invariant -1 <= dx <= 2
        invariant pixels == spec[..3 * (dy + 1) + (dx + 1)]
      {
        var idx := ((y + dy) * width + (x + dx)) * 4;
        OffsetOfEntry(dx, dy, 1);
        assert spec[3 * (dy + 1) + (dx + 1)] == ColorAtByte(data, idx);
        pixels := pixels + [ColorAtByte(data, idx)];
        dx := dx + 1;
      }
      dy := dy + 1;
    }
  }

  /** Entry 3 * (dy + 1) + (dx + 1) is the neighbour at offset (dx, dy);
      entry 4 is the pixel (x, y) itself. */
  lemma SurroundingEntry(x: int, y: int, width: int, data: seq<Byte>, dx: int, dy: int)
    requires WindowInBuffer(x, y, width, data)
    requires -1 <= dx <= 1 && -1 <= dy <= 1
    ensures Surrounding(x, y, width, data)[3 * (dy + 1) + (dx + 1)]
         == ColorAtByte(data, ByteOffset(x, y, width, dx, dy))
    ensures Surrounding(x, y, width, data)[4] == ColorAtByte(data, ByteOffset(x, y, width, 0, 0))
  {
    OffsetOfEntry(dx, dy, 1);
    OffsetOfEntry(0, 0, 1);
  }

  /** On an interior pixel the neighbour read at offset (dx, dy) is inside
      the buffer and is the worker's window pixel at that offset. */
  lemma SurroundingNeighbor(data: seq<Byte>, w: nat, h: nat, p: int, dx: int, dy: int)
    requires ValidImage(data, w, h) && InteriorPixel(p, w, h)
    requires -1 <= dx <= 1 && -1 <= dy <= 1
    ensures 0 <= ByteOffset(Col(p, w), Row(p, w), w, dx, dy)
    ensures ByteOffset(Col(p, w), Row(p, w), w, dx, dy) + 2 < |data|
    ensures ColorAtByte(data, ByteOffset(Col(p, w), Row(p, w), w, dx, dy)) == EM.WindowPixel(data, w, h, p, dx, dy)
  {
    PixelIndexDecompose(p, w);
    NeighborInImage(p, w, h, dx, dy);
    NeighborIndex(Col(p, w), Row(p, w), w, dx, dy);
  }

  /** Entry i of the worker's window is its pixel at offset
      (i % 3 - 1, i / 3 - 1). */
  lemma WindowEntry(data: seq<Byte>, w: nat, h: nat, p: int, i: int)
    requires ValidImage(data, w, h) && InteriorPixel(p, w, h)
    requires 0 <= i < 9
    ensures -1 <= OffsetX(i, 3) <= 1 && -1 <= OffsetY(i, 3) <= 1
    ensures EM.Window(data, w, h, p)[i] == EM.WindowPixel(data, w, h, p, OffsetX(i, 3), OffsetY(i, 3))
  {
  }

  /** On an interior pixel of an image the window is the worker's 3x3
      window. */
  lemma SurroundingIsWindow(data: seq<Byte>, w: nat, h: nat, p: int)
    requires ValidImage(data, w, h) && InteriorPixel(p, w, h)
    ensures WindowInBuffer(Col(p, w), Row(p, w), w, data)
    ensures Surrounding(Col(p, w), Row(p, w), w, data) == EM.Window(data, w, h, p)
  {
    var x, y := Col(p, w), Row(p, w);
    forall dx, dy | -1 <= dx <= 1 && -1 <= dy <= 1
      ensures 0 <= ByteOffset(x, y, w, dx, dy) && ByteOffset(x, y, w, dx, dy) + 2 < |data|
    {
      SurroundingNeighbor(data, w, h, p, dx, dy);
    }
    var s := Surrounding(x, y, w, data);
    var win := EM.Window(data, w, h, p);
    forall i | 0 <= i < 9 ensures s[i] == win[i] {
      WindowEntry(data, w, h, p, i);
      SurroundingNeighbor(data, w, h, p, OffsetX(i, 3), OffsetY(i, 3));
    }
  }

  // ---------------------------------------------------------------------
  // calculateEdgeStrength
  // ---------------------------------------------------------------------

  /** `pixels[i][channel] * kernel[i]`. */
  function Term(px: Color, c: nat, k: int): int
    requires c < 3
  {
    ColorChannel(px, c) * k
  }

  /** `gradX` / `gradY` after the first n entries. */
  function Dot(pixels: seq<Color>, kernel: seq<int>, c: nat, n: nat): int
    requires c < 3 && n <= |pixels| && n <= |kernel|
  {
    if n == 0 then 0 else Dot(pixels, kernel, c, n - 1) + Term(pixels[n - 1], c, kernel[n - 1])
  }

  /** The explicit kernels give the worker's Sobel responses. */
  lemma DotUnroll(pixels: seq<Color>, k: seq<int>, c: nat)
    requires |pixels| == 9 && |k| == 9 && c < 3
    ensures Dot(pixels, k, c, 9) == Term(pixels[0], c, k[0]) + Term(pixels[1], c, k[1]) + Term(pixels[2], c, k[2])
      + Term(pixels[3], c, k[3]) + Term(pixels[4], c, k[4]) + Term(pixels[5], c, k[5])
      + Term(pixels[6], c, k[6]) + Term(pixels[7], c, k[7]) + Term(pixels[8], c, k[8])
  {
    forall n | 1 <= n <= 9
      ensures Dot(pixels, k, c, n) == Dot(pixels, k, c, n - 1) + Term(pixels[n - 1], c, k[n - 1])
    {
    }
  }

  lemma DotIsSobel(pixels: seq<Color>, c: nat)
    requires |pixels| == 9 && c < 3
    ensures Dot(pixels, GX, c, 9) == EM.SobelX(pixels, c)
    ensures Dot(pixels, GY, c, 9) == EM.SobelY(pixels, c)
  {
    DotUnroll(pixels, GX, c);
    DotUnroll(pixels, GY, c);
  }

  /** `edgeStrength` after the first c channels. */
  function ChannelSum(pixels: seq<Color>, c: nat, sqrt: int -> real): real
    requires |pixels| == 9 && c <= 3
  {
    if c == 0 then 0.0 else ChannelSum(pixels, c - 1, sqrt) + EM.ChannelMagnitude(pixels, c - 1, sqrt)
  }

  /** All three channels give the worker's edge value. */
  lemma ChannelSumAll(pixels: seq<Color>, sqrt: int -> real)
    requires |pixels| == 9
    ensures ChannelSum(pixels, 3, sqrt) == EM.EdgeValue(pixels, sqrt)
  {
    assert ChannelSum(pixels, 1, sqrt) == EM.ChannelMagnitude(pixels, 0, sqrt);
    assert ChannelSum(pixels, 2, sqrt) == ChannelSum(pixels, 1, sqrt) + EM.ChannelMagnitude(pixels, 1, sqrt);
  }

  /** The body of the `forEach` callback for channel c: the gradients of
      the channel and the square root of their squared sum. */
  method ChannelStrength(pixels: seq<Color>, c: nat, sqrt: int -> real) returns (m: real)
    requires |pixels| == 9 && c < 3
    ensures m == EM.ChannelMagnitude(pixels, c, sqrt)
  {
    var gradX := 0;
    var gradY := 0;
    var i := 0;
    while i < 9
      invariant 0 <= i <= 9
      invariant gradX == Dot(pixels, GX, c, i) && gradY == Dot(pixels, GY, c, i)
    {
      gradX := gradX + Term(pixels[i], c, GX[i]);
      gradY := gradY + Term(pixels[i], c, GY[i]);
      i := i + 1;
    }
    DotIsSobel(pixels, c);
    m := sqrt(gradX * gradX + gradY * gradY);
  }

  /** `calculateEdgeStrength(pixels)`: the worker's summed Sobel magnitude
      of the window, divided by three. */
  method CalculateEdgeStrength(pixels: seq<Color>, sqrt: int -> real) returns (strength: real)
    requires |pixels| == 9
    ensures strength == EM.EdgeValue(pixels, sqrt) / 3.0
  {
    var edgeStrength := 0.0;
    var c := 0;
    while c < 3
      invariant 0 <= c <= 3
      invariant edgeStrength == ChannelSum(pixels, c, sqrt)
    {
      var m := ChannelStrength(pixels, c, sqrt);
      edgeStrength := edgeStrength + m;
      c := c + 1;
    }
    ChannelSumAll(pixels, sqrt);
    strength := edgeStrength / 3.0;
  }

  /** Nine pixels of one colour give strength 0: both kernels sum to 0. */
  lemma UniformStrength(pixels: seq<Color>, sqrt: int -> real)
    requires |pixels| == 9 && EM.Uniform(pixels) && sqrt(0) == 0.0
    ensures EM.EdgeValue(pixels, sqrt) / 3.0 == 0.0
  {
    EM.UniformEdgeValue(pixels, sqrt);
  }

  /** On an interior pixel the script's strength is a third of the value
      the worker compares with its threshold, so it exceeds 10 exactly
      where the worker's edge map is 255. */
  lemma StrengthMatchesEdgeMap(data: seq<Byte>, w: nat, h: nat, p: int, sqrt: int -> real)
    requires ValidImage(data, w, h) && InteriorPixel(p, w, h)
    ensures WindowInBuffer(Col(p, w), Row(p, w), w, data)
    ensures 0 <= p < w * h
    ensures EM.EdgeValue(Surrounding(Col(p, w), Row(p, w), w, data), sqrt) / 3.0 > 10.0
        <==> EM.CreateEdgeMap(data, w, h, sqrt)[p] == 255
  {
    SurroundingIsWindow(data, w, h, p);
    EM.WindowCentre(data, w, h, p);
  }
}
