/** Step 3 of `onmessage` and `processChunkEnhanced`: the RGBA buffer is
    walked in chunks of 10000 pixels (40000 bytes); every pixel of a chunk
    is classified, its alpha byte overwritten and one of the two masks set.
    After each chunk a progress percentage is posted. */
module Chunks {
  import opened Pixels
  import opened Classification
  import EM = EdgeMap

  /** `chunkSize`, in pixels. */
  const ChunkPixels: nat := 10000

  /** The loop's stride `chunkSize * 4`, in bytes. */
  const ChunkBytes: nat := 40000

  /** Number of iterations of `for (i = 0; i < len; i += chunkSize * 4)`. */
  function NumChunks(len: nat): nat
  {
    (len + ChunkBytes - 1) / ChunkBytes
  }

  function ChunkStart(k: nat): nat
  {
    ChunkBytes * k
  }

  /** `Math.min(i + chunkSize * 4, imageData.data.length)`. */
  function ChunkEnd(k: nat, len: nat): nat
  {
    Min(ChunkStart(k) + ChunkBytes, len)
  }

  /** The chunks cover the buffer without overlap: byte j lies in chunk
      j / 40000 and in no other. */
  lemma ChunkPartition(len: nat, j: nat)
    requires j < len
    ensures j / ChunkBytes < NumChunks(len)
    ensures ChunkStart(j / ChunkBytes) <= j < ChunkEnd(j / ChunkBytes, len)
    ensures forall k: nat :: k < NumChunks(len) && ChunkStart(k) <= j < ChunkEnd(k, len) ==> k == j / ChunkBytes
  {
  }

  /** Every chunk starts on a pixel boundary inside the buffer and is
      non-empty. */
  lemma ChunkBounds(len: nat, k: nat)
    requires len % 4 == 0 && k < NumChunks(len)
    ensures ChunkStart(k) < ChunkEnd(k, len) <= len
    ensures ChunkStart(k) % 4 == 0 && ChunkEnd(k, len) % 4 == 0
  {
    var n := NumChunks(len);
    assert ChunkBytes * n <= len + ChunkBytes - 1;
    assert ChunkBytes * (k + 1) <= ChunkBytes * n;
    assert ChunkStart(k) == 4 * (10000 * k);
  }

  /** The alpha and mask decision for pixel `p`. */
  function PixelOutcome(data: seq<Byte>, edge: seq<Byte>, p: nat, fg: seq<Color>, bg: seq<Color>, sqrt: int -> real): Outcome
    requires 4 * p + 2 < |data| && p < |edge|
    requires NonNegativeRoot(sqrt)
  {
    Classify(ColorAt(data, p), edge[p], fg, bg, sqrt)
  }

  lemma PositiveWidth(p: nat, w: nat, h: nat)
    requires p < w * h
    ensures w > 0
  {
  }

  /** The alphas after classifying the pixels in [lo, hi): the classified
      alpha inside the range, the alpha `data` already has outside it. */
  function ClassifiedAlphas(data: seq<Byte>, edge: seq<Byte>, lo: nat, hi: nat,
                            fg: seq<Color>, bg: seq<Color>, sqrt: int -> real): (a: seq<Byte>)
    requires |data| == 4 * |edge|
    requires NonNegativeRoot(sqrt)
    ensures |a| == |edge|
  {
    seq(|edge|, q requires 0 <= q < |edge| =>
      if lo <= q < hi then PixelOutcome(data, edge, q, fg, bg, sqrt).alpha else Alpha(data, q))
  }

  /** `mask` with every pixel in [lo, hi) that goes to side `fgSide` set. */
  function Marked(mask: seq<bool>, data: seq<Byte>, edge: seq<Byte>, lo: nat, hi: nat, fgSide: bool,
                  fg: seq<Color>, bg: seq<Color>, sqrt: int -> real): (m: seq<bool>)
    requires |data| == 4 * |edge| && |mask| == |edge|
    requires NonNegativeRoot(sqrt)
    ensures |m| == |mask|
  {
    seq(|mask|, q requires 0 <= q < |mask| =>
      mask[q] || (lo <= q < hi && PixelOutcome(data, edge, q, fg, bg, sqrt).foreground == fgSide))
  }

  /** An empty range leaves the buffer as it is. */
  lemma ClassifiedEmpty(data: seq<Byte>, edge: seq<Byte>, lo: nat, fg: seq<Color>, bg: seq<Color>, sqrt: int -> real)
    requires |data| == 4 * |edge| && NonNegativeRoot(sqrt)
    ensures SetAlphas(data, ClassifiedAlphas(data, edge, lo, lo, fg, bg, sqrt)) == data
  {
    assert ClassifiedAlphas(data, edge, lo, lo, fg, bg, sqrt) == Alphas(data);
    SetOwnAlphas(data);
  }

  lemma MarkedEmpty(mask: seq<bool>, data: seq<Byte>, edge: seq<Byte>, lo: nat, fgSide: bool,
                    fg: seq<Color>, bg: seq<Color>, sqrt: int -> real)
    requires |data| == 4 * |edge| && |mask| == |edge| && NonNegativeRoot(sqrt)
    ensures Marked(mask, data, edge, lo, lo, fgSide, fg, bg, sqrt) == mask
  {
  }

  /** Classifying pixel p extends the range by one pixel. */
  lemma ClassifiedStep(data: seq<Byte>, edge: seq<Byte>, lo: nat, p: nat, fg: seq<Color>, bg: seq<Color>, sqrt: int -> real)
    requires |data| == 4 * |edge| && NonNegativeRoot(sqrt)
    requires lo <= p < |edge|
    ensures SetAlphas(data, ClassifiedAlphas(data, edge, lo, p, fg, bg, sqrt))[4 * p + 3 := PixelOutcome(data, edge, p, fg, bg, sqrt).alpha]
         == SetAlphas(data, ClassifiedAlphas(data, edge, lo, p + 1, fg, bg, sqrt))
  {
    var a := ClassifiedAlphas(data, edge, lo, p, fg, bg, sqrt);
    SetAlphasUpdate(data, a, p, PixelOutcome(data, edge, p, fg, bg, sqrt).alpha);
    assert a[p := PixelOutcome(data, edge, p, fg, bg, sqrt).alpha] == ClassifiedAlphas(data, edge, lo, p + 1, fg, bg, sqrt);
  }

  /** Setting the mask entry of pixel p extends the range by one pixel. */
  lemma MarkedStep(mask: seq<bool>, data: seq<Byte>, edge: seq<Byte>, lo: nat, p: nat,
                   fg: seq<Color>, bg: seq<Color>, sqrt: int -> real)
    requires |data| == 4 * |edge| && |mask| == |edge| && NonNegativeRoot(sqrt)
    requires lo <= p < |edge|
    ensures var side := PixelOutcome(data, edge, p, fg, bg, sqrt).foreground;
      && Marked(mask, data, edge, lo, p, side, fg, bg, sqrt)[p := true]
         == Marked(mask, data, edge, lo, p + 1, side, fg, bg, sqrt)
      && Marked(mask, data, edge, lo, p, !side, fg, bg, sqrt)
         == Marked(mask, data, edge, lo, p + 1, !side, fg, bg, sqrt)
  {
  }

  /** The decision reads only the colour channels. */
  lemma SetAlphasSameOutcome(data: seq<Byte>, a: seq<Byte>, edge: seq<Byte>, fg: seq<Color>, bg: seq<Color>, sqrt: int -> real)
    requires |data| == 4 * |edge| && |a| == |edge|
    requires NonNegativeRoot(sqrt)
    ensures forall p :: 0 <= p < |edge| ==>
      PixelOutcome(SetAlphas(data, a), edge, p, fg, bg, sqrt) == PixelOutcome(data, edge, p, fg, bg, sqrt)
  {
    forall p | 0 <= p < |edge|
      ensures PixelOutcome(SetAlphas(data, a), edge, p, fg, bg, sqrt) == PixelOutcome(data, edge, p, fg, bg, sqrt)
    {
      SetAlphasAt(data, a, p);
    }
  }

  /** Classifying [a, b) after [lo, a) classifies [lo, b). */
  lemma ClassifiedCompose(data: seq<Byte>, edge: seq<Byte>, lo: nat, a: nat, b: nat,
                          fg: seq<Color>, bg: seq<Color>, sqrt: int -> real)
    requires |data| == 4 * |edge| && NonNegativeRoot(sqrt)
    requires lo <= a <= b
    ensures var mid := SetAlphas(data, ClassifiedAlphas(data, edge, lo, a, fg, bg, sqrt));
      SetAlphas(mid, ClassifiedAlphas(mid, edge, a, b, fg, bg, sqrt))
        == SetAlphas(data, ClassifiedAlphas(data, edge, lo, b, fg, bg, sqrt))
  {
    var first := ClassifiedAlphas(data, edge, lo, a, fg, bg, sqrt);
    var mid := SetAlphas(data, first);
    SetAlphasSameOutcome(data, first, edge, fg, bg, sqrt);
    forall q | 0 <= q < |edge| ensures Alpha(mid, q) == first[q] {
      SetAlphasAt(data, first, q);
    }
    assert ClassifiedAlphas(mid, edge, a, b, fg, bg, sqrt) == ClassifiedAlphas(data, edge, lo, b, fg, bg, sqrt);
    SetAlphasTwice(data, first, ClassifiedAlphas(data, edge, lo, b, fg, bg, sqrt));
  }

  lemma MarkedCompose(mask: seq<bool>, data: seq<Byte>, a0: seq<Byte>, edge: seq<Byte>, lo: nat, a: nat, b: nat,
                      fgSide: bool, fg: seq<Color>, bg: seq<Color>, sqrt: int -> real)
    requires |data| == 4 * |edge| && |mask| == |edge| && |a0| == |edge| && NonNegativeRoot(sqrt)
    requires lo <= a <= b
    ensures Marked(Marked(mask, data, edge, lo, a, fgSide, fg, bg, sqrt), SetAlphas(data, a0), edge, a, b, fgSide, fg, bg, sqrt)
         == Marked(mask, data, edge, lo, b, fgSide, fg, bg, sqrt)
  {
    SetAlphasSameOutcome(data, a0, edge, fg, bg, sqrt);
  }

  /** The pixel index `processChunkEnhanced` derives from byte offset i:
      x = (i / 4) % width, y = floor((i / 4) / width), idx = y * width + x,
      which is the pixel that byte i belongs to. */
  function ChunkPixelIndex(i: nat, w: nat): (idx: nat)
    requires w > 0
    ensures idx == i / 4
  {
    var x := (i / 4) % w;
    var y := (i / 4) / w;
    PixelIndexDecompose(i / 4, w);
    y * w + x
  }

  /** One iteration of the loop of `processChunkEnhanced`, on the pixel at
      byte offset i = 4 * p: its alpha byte gets the classified alpha and
      the mask of its side is set, which extends the classified range
      [lo, p) by p. */
  method ClassifyPixel(data: seq<Byte>, fgMask: seq<bool>, bgMask: seq<bool>, edge: seq<Byte>,
                       cur: seq<Byte>, fgCur: seq<bool>, bgCur: seq<bool>,
                       lo: nat, ghost p: nat, i: nat, w: nat, h: nat,
                       fg: seq<Color>, bg: seq<Color>, sqrt: int -> real)
    returns (cur': seq<Byte>, fgCur': seq<bool>, bgCur': seq<bool>)
    requires |edge| == w * h && |data| == 4 * |edge|
    requires |fgMask| == |edge| && |bgMask| == |edge|
    requires NonNegativeRoot(sqrt)
    requires lo <= p < |edge| && i == 4 * p
    requires cur == SetAlphas(data, ClassifiedAlphas(data, edge, lo, p, fg, bg, sqrt))
    requires fgCur == Marked(fgMask, data, edge, lo, p, true, fg, bg, sqrt)
    requires bgCur == Marked(bgMask, data, edge, lo, p, false, fg, bg, sqrt)
    ensures cur' == SetAlphas(data, ClassifiedAlphas(data, edge, lo, p + 1, fg, bg, sqrt))
    ensures fgCur' == Marked(fgMask, data, edge, lo, p + 1, true, fg, bg, sqrt)
    ensures bgCur' == Marked(bgMask, data, edge, lo, p + 1, false, fg, bg, sqrt)
  {
    PositiveWidth(p, w, h);
    var idx := ChunkPixelIndex(i, w);
    SetAlphasAt(data, ClassifiedAlphas(data, edge, lo, p, fg, bg, sqrt), p);
    var color := Color(cur[i], cur[i + 1], cur[i + 2]);
    var outcome := Classify(color, edge[idx], fg, bg, sqrt);
    assert outcome == PixelOutcome(data, edge, p, fg, bg, sqrt);
    ClassifiedStep(data, edge, lo, p, fg, bg, sqrt);
    MarkedStep(fgMask, data, edge, lo, p, fg, bg, sqrt);
    MarkedStep(bgMask, data, edge, lo, p, fg, bg, sqrt);
    cur' := cur[i + 3 := outcome.alpha];
    fgCur', bgCur' := fgCur, bgCur;
    if !outcome.foreground {
      bgCur' := bgCur[idx := true];
    } else {
      fgCur' := fgCur[idx := true];
    }
  }

  /** `processChunkEnhanced` on bytes [start, end): the alpha byte of each
      pixel of the range becomes its classified alpha and its mask entry is
      set; every colour byte, every other alpha byte and every other mask
      entry keeps its value. */
  method ProcessChunk(data: seq<Byte>, fgMask: seq<bool>, bgMask: seq<bool>, edge: seq<Byte>,
                      start: nat, end: nat, w: nat, h: nat,
                      fg: seq<Color>, bg: seq<Color>, sqrt: int -> real)
    returns (data': seq<Byte>, fgMask': seq<bool>, bgMask': seq<bool>)
    requires |edge| == w * h && |data| == 4 * |edge|
    requires |fgMask| == |edge| && |bgMask| == |edge|
    requires NonNegativeRoot(sqrt)
    requires start % 4 == 0 && end % 4 == 0 && start <= end <= |data|
    ensures data' == SetAlphas(data, ClassifiedAlphas(data, edge, start / 4, end / 4, fg, bg, sqrt))
    ensures fgMask' == Marked(fgMask, data, edge, start / 4, end / 4, true, fg, bg, sqrt)
    ensures bgMask' == Marked(bgMask, data, edge, start / 4, end / 4, false, fg, bg, sqrt)
  {
    var lo := start / 4;
    var hi := end / 4;
    data', fgMask', bgMask' := data, fgMask, bgMask;
    ClassifiedEmpty(data, edge, lo, fg, bg, sqrt);
    MarkedEmpty(fgMask, data, edge, lo, true, fg, bg, sqrt);
    MarkedEmpty(bgMask, data, edge, lo, false, fg, bg, sqrt);
    var i := start;
    ghost var p := lo;
    while i < end
      invariant lo <= p <= hi && i == 4 * p
      invariant data' == SetAlphas(data, ClassifiedAlphas(data, edge, lo, p, fg, bg, sqrt))
      invariant fgMask' == Marked(fgMask, data, edge, lo, p, true, fg, bg, sqrt)
      invariant bgMask' == Marked(bgMask, data, edge, lo, p, false, fg, bg, sqrt)
    {
      data', fgMask', bgMask' := ClassifyPixel(data, fgMask, bgMask, edge, data', fgMask', bgMask',
                                               lo, p, i, w, h, fg, bg, sqrt);
      i := i + 4;
      p := p + 1;
    }
  }

  /** The buffer once every pixel is classified. */
  function ClassifyAll(data: seq<Byte>, edge: seq<Byte>, fg: seq<Color>, bg: seq<Color>, sqrt: int -> real): (out: seq<Byte>)
    requires |data| == 4 * |edge|
    requires NonNegativeRoot(sqrt)
    ensures |out| == |data|
  {
    SetAlphas(data, ClassifiedAlphas(data, edge, 0, |edge|, fg, bg, sqrt))
  }

  /** After classification each pixel keeps its colour and carries its
      classified alpha. */
  lemma ClassifyAllPixel(data: seq<Byte>, edge: seq<Byte>, fg: seq<Color>, bg: seq<Color>, sqrt: int -> real, p: nat)
    requires |data| == 4 * |edge| && NonNegativeRoot(sqrt)
    requires p < |edge|
    ensures ColorAt(ClassifyAll(data, edge, fg, bg, sqrt), p) == ColorAt(data, p)
    ensures Alpha(ClassifyAll(data, edge, fg, bg, sqrt), p) == PixelOutcome(data, edge, p, fg, bg, sqrt).alpha
  {
    SetAlphasAt(data, ClassifiedAlphas(data, edge, 0, |edge|, fg, bg, sqrt), p);
  }

  /** With the edge map of the image itself, whose bytes are 0 or 255,
      every alpha written by classification is 0 or 255. */
  lemma ClassifiedAlphaBinary(data: seq<Byte>, w: nat, h: nat, fg: seq<Color>, bg: seq<Color>, sqrt: int -> real)
    requires ValidImage(data, w, h) && NonNegativeRoot(sqrt)
    ensures var out := ClassifyAll(data, EM.CreateEdgeMap(data, w, h, sqrt), fg, bg, sqrt);
      forall p :: 0 <= p < w * h ==> Alpha(out, p) == 0 || Alpha(out, p) == 255
  {
    var edge := EM.CreateEdgeMap(data, w, h, sqrt);
    forall p | 0 <= p < w * h
      ensures Alpha(ClassifyAll(data, edge, fg, bg, sqrt), p) == 0 || Alpha(ClassifyAll(data, edge, fg, bg, sqrt), p) == 255
    {
      ClassifyAllPixel(data, edge, fg, bg, sqrt, p);
      BinaryAlpha(ColorAt(data, p), edge[p], fg, bg, sqrt);
    }
  }

  /** `Math.round(Math.min((processedPixels / totalPixels) * 100, 100))`
      after chunk k, when `processedPixels` is (k + 1) * 10000. */
  function ProgressAt(k: nat, total: nat): int
    requires total > 0
  {
    Round(RealMin(((k + 1) * ChunkPixels) as real / total as real * 100.0, 100.0))
  }

  /** The progress messages of a buffer of `len` bytes, one per chunk. */
  function ProgressReports(len: nat): (r: seq<int>)
    requires len % 4 == 0
    ensures |r| == NumChunks(len)
  {
    if len == 0 then [] else seq(NumChunks(len), k requires 0 <= k < NumChunks(len) => ProgressAt(k, len / 4))
  }

  lemma DivMonotone(a: real, b: real, t: real)
    requires a <= b && t > 0.0
    ensures a / t <= b / t
  {
    assert b / t - a / t == (b - a) / t;
  }

  lemma RoundMonotone(x: real, y: real)
    requires x <= y
    ensures Round(x) <= Round(y)
  {
  }

  /** Every report is a percentage. */
  lemma ProgressInRange(k: nat, total: nat)
    requires total > 0
    ensures 0 <= ProgressAt(k, total) <= 100
  {
    var ratio := ((k + 1) * ChunkPixels) as real / total as real;
    DivMonotone(0.0, ((k + 1) * ChunkPixels) as real, total as real);
    RoundBetween(RealMin(ratio * 100.0, 100.0), 0, 100);
  }

  /** Reports never decrease. */
  lemma ProgressMonotone(k1: nat, k2: nat, total: nat)
    requires total > 0 && k1 <= k2
    ensures ProgressAt(k1, total) <= ProgressAt(k2, total)
  {
    DivMonotone(((k1 + 1) * ChunkPixels) as real, ((k2 + 1) * ChunkPixels) as real, total as real);
    var r1 := ((k1 + 1) * ChunkPixels) as real / total as real;
    var r2 := ((k2 + 1) * ChunkPixels) as real / total as real;
    RoundMonotone(RealMin(r1 * 100.0, 100.0), RealMin(r2 * 100.0, 100.0));
  }

  /** The report after the last chunk is 100. */
  lemma ProgressLast(len: nat)
    requires len % 4 == 0 && len > 0
    ensures ProgressAt(NumChunks(len) - 1, len / 4) == 100
  {
    var k := NumChunks(len) - 1;
    var total := len / 4;
    assert (k + 1) * ChunkPixels >= total;
    DivMonotone(total as real, ((k + 1) * ChunkPixels) as real, total as real);
    RoundOfInteger(100);
  }

  /** What the reports of a non-empty buffer promise: one per chunk, each a
      percentage, never decreasing, the last one 100. */
  lemma ProgressReportsProperties(len: nat)
    requires len % 4 == 0 && len > 0
    ensures var r := ProgressReports(len);
      && |r| == NumChunks(len) > 0
      && (forall k :: 0 <= k < |r| ==> 0 <= r[k] <= 100)
      && (forall k1, k2 :: 0 <= k1 <= k2 < |r| ==> r[k1] <= r[k2])
      && r[|r| - 1] == 100
  {
    var r := ProgressReports(len);
    forall k | 0 <= k < |r| ensures 0 <= r[k] <= 100 {
      ProgressInRange(k, len / 4);
    }
    forall k1, k2 | 0 <= k1 <= k2 < |r| ensures r[k1] <= r[k2] {
      ProgressMonotone(k1, k2, len / 4);
    }
    ProgressLast(len);
  }

  /** Chunk k of a buffer it starts inside: its end is a pixel boundary and
      is where the next chunk's clipped start lies. */
  lemma ChunkStep(len: nat, k: nat, done: nat)
    requires len % 4 == 0 && ChunkStart(k) < len && 4 * done == ChunkStart(k)
    ensures var end := ChunkEnd(k, len);
      && ChunkStart(k) < end <= len && end % 4 == 0
      && ChunkStart(k) / 4 == done && done <= end / 4 && 4 * (end / 4) == end
      && Min(ChunkStart(k + 1), len) == end
  {
  }

  /** The percentage posted after chunk k, from the running pixel count. */
  lemma ProgressStep(processed: nat, k: nat, total: nat)
    requires total > 0 && processed == ChunkPixels * k
    ensures Round(RealMin((processed + ChunkPixels) as real / total as real * 100.0, 100.0)) == ProgressAt(k, total)
  {
    assert processed + ChunkPixels == (k + 1) * ChunkPixels;
  }

  /** When the loop stops it has run once per chunk. */
  lemma ChunkLoopExit(len: nat, k: nat, reports: seq<int>)
    requires len % 4 == 0
    requires ChunkStart(k) >= len && (k == 0 || ChunkStart(k - 1) < len)
    requires |reports| == k && forall m :: 0 <= m < k ==> reports[m] == ProgressAt(m, len / 4)
    ensures reports == ProgressReports(len)
  {
    assert k == NumChunks(len);
  }

  /** Masks built from nothing over every pixel: each pixel is in exactly
      the mask of its side. */
  lemma MarkedAll(none: seq<bool>, data: seq<Byte>, edge: seq<Byte>, fg: seq<Color>, bg: seq<Color>, sqrt: int -> real)
    requires |data| == 4 * |edge| && |none| == |edge| && NonNegativeRoot(sqrt)
    requires forall p :: 0 <= p < |none| ==> !none[p]
    ensures forall p :: 0 <= p < |edge| ==>
      Marked(none, data, edge, 0, |edge|, true, fg, bg, sqrt)[p] == PixelOutcome(data, edge, p, fg, bg, sqrt).foreground
    ensures forall p :: 0 <= p < |edge| ==>
      Marked(none, data, edge, 0, |edge|, false, fg, bg, sqrt)[p] == !PixelOutcome(data, edge, p, fg, bg, sqrt).foreground
  {
  }

  /** One `processChunkEnhanced` call of the chunk loop, on chunk k: the
      pixels classified so far, [0, done), grow to the end of the chunk. */
  method ClassifyNextChunk(data: seq<Byte>, w: nat, h: nat, edge: seq<Byte>, none: seq<bool>,
                           out: seq<Byte>, fgMask: seq<bool>, bgMask: seq<bool>,
                           i: nat, k: nat, ghost done: nat,
                           fg: seq<Color>, bg: seq<Color>, sqrt: int -> real)
    returns (out': seq<Byte>, fgMask': seq<bool>, bgMask': seq<bool>)
    requires ValidImage(data, w, h) && |edge| == w * h && |none| == |edge|
    requires NonNegativeRoot(sqrt)
    requires i == ChunkStart(k) && i < |data| && 4 * done == i
    requires out == SetAlphas(data, ClassifiedAlphas(data, edge, 0, done, fg, bg, sqrt))
    requires fgMask == Marked(none, data, edge, 0, done, true, fg, bg, sqrt)
    requires bgMask == Marked(none, data, edge, 0, done, false, fg, bg, sqrt)
    ensures 4 * (ChunkEnd(k, |data|) / 4) == ChunkEnd(k, |data|)
    ensures out' == SetAlphas(data, ClassifiedAlphas(data, edge, 0, ChunkEnd(k, |data|) / 4, fg, bg, sqrt))
    ensures fgMask' == Marked(none, data, edge, 0, ChunkEnd(k, |data|) / 4, true, fg, bg, sqrt)
    ensures bgMask' == Marked(none, data, edge, 0, ChunkEnd(k, |data|) / 4, false, fg, bg, sqrt)
  {
    var len := |data|;
    var end := Min(i + ChunkBytes, len);
    ChunkStep(len, k, done);
    ghost var next := end / 4;
    ghost var before := ClassifiedAlphas(data, edge, 0, done, fg, bg, sqrt);
    out', fgMask', bgMask' := ProcessChunk(out, fgMask, bgMask, edge, i, end, w, h, fg, bg, sqrt);
    ClassifiedCompose(data, edge, 0, done, next, fg, bg, sqrt);
    MarkedCompose(none, data, before, edge, 0, done, next, true, fg, bg, sqrt);
    MarkedCompose(none, data, before, edge, 0, done, next, false, fg, bg, sqrt);
  }

  /** The progress message after chunk k: `processedPixels` grows by one
      chunk and the percentage is appended to the messages so far. */
  method ReportProgress(reports: seq<int>, processed: nat, k: nat, len: nat)
    returns (reports': seq<int>, processed': nat)
    requires len % 4 == 0 && len > 0 && processed == ChunkPixels * k
    requires |reports| == k && forall m :: 0 <= m < k ==> reports[m] == ProgressAt(m, len / 4)
    ensures processed' == ChunkPixels * (k + 1)
    ensures |reports'| == k + 1 && forall m :: 0 <= m < k + 1 ==> reports'[m] == ProgressAt(m, len / 4)
  {
    ProgressStep(processed, k, len / 4);
    processed' := processed + ChunkPixels;
    var progress := Round(RealMin(processed' as real / (len / 4) as real * 100.0, 100.0));
    reports' := reports + [progress];
  }

  /** The chunk loop of `onmessage`: one `processChunkEnhanced` call and one
      progress report per chunk. Afterwards every pixel is classified once
      and lies in exactly one mask. */
  method ClassifyChunks(data: seq<Byte>, w: nat, h: nat, edge: seq<Byte>,
                        fg: seq<Color>, bg: seq<Color>, sqrt: int -> real)
    returns (out: seq<Byte>, fgMask: seq<bool>, bgMask: seq<bool>, reports: seq<int>)
    requires ValidImage(data, w, h) && |edge| == w * h
    requires NonNegativeRoot(sqrt)
    ensures out == ClassifyAll(data, edge, fg, bg, sqrt)
    ensures |fgMask| == w * h && |bgMask| == w * h
    ensures forall p :: 0 <= p < w * h ==> fgMask[p] == PixelOutcome(data, edge, p, fg, bg, sqrt).foreground
    ensures forall p :: 0 <= p < w * h ==> bgMask[p] == !PixelOutcome(data, edge, p, fg, bg, sqrt).foreground
    ensures |data| % 4 == 0 && reports == ProgressReports(|data|)
  {
    var len := |data|;
    var none := seq(w * h, _ => false);
    out, fgMask, bgMask := data, none, none;
    ClassifiedEmpty(data, edge, 0, fg, bg, sqrt);
    MarkedEmpty(none, data, edge, 0, true, fg, bg, sqrt);
    MarkedEmpty(none, data, edge, 0, false, fg, bg, sqrt);
    reports := [];
    var processed := 0;
    var k := 0;
    var i := 0;
    ghost var done := 0;
    while i < len
      invariant i == ChunkStart(k) && processed == ChunkPixels * k
      invariant k == 0 || ChunkStart(k - 1) < len
      invariant 4 * done == Min(i, len)
      invariant out == SetAlphas(data, ClassifiedAlphas(data, edge, 0, done, fg, bg, sqrt))
      invariant fgMask == Marked(none, data, edge, 0, done, true, fg, bg, sqrt)
      invariant bgMask == Marked(none, data, edge, 0, done, false, fg, bg, sqrt)
      invariant |reports| == k
      invariant forall m :: 0 <= m < k ==> reports[m] == ProgressAt(m, len / 4)
    {
      out, fgMask, bgMask := ClassifyNextChunk(data, w, h, edge, none, out, fgMask, bgMask, i, k, done, fg, bg, sqrt);
      reports, processed := ReportProgress(reports, processed, k, len);
      done := ChunkEnd(k, len) / 4;
      i := i + ChunkBytes;
      k := k + 1;
    }
    ChunkLoopExit(len, k, reports);
    MarkedAll(none, data, edge, fg, bg, sqrt);
  }
}
