/** `self.onmessage` of the worker: the whole segmentation pass from the
    RGBA buffer to the messages posted back. The colour sets are chosen,
    the edge map is built, the buffer is classified chunk by chunk with one
    progress message per chunk, the border is smoothed, and a single
    completion message carries the result. The messages are returned as a
    list instead of being posted. */
module Worker {
  import opened Pixels
  import CS = ColorSets
  import EM = EdgeMap
  import CH = Chunks
  import SM = Smoothing

  datatype Message = Progress(percent: int) | Complete(image: seq<Byte>)

  /** The buffer the pass produces: classification against the selected
      colour sets and the edge map, then smoothing of the border read from
      the classified buffer. */
  function Segmented(data: seq<Byte>, w: nat, h: nat, sqrt: int -> real): (out: seq<Byte>)
    requires ValidImage(data, w, h) && NonNegativeRoot(sqrt)
    ensures |out| == |data|
  {
    var cs := CS.SelectColors(data, w, h);
    var edge := EM.CreateEdgeMap(data, w, h, sqrt);
    var classified := CH.ClassifyAll(data, edge, cs.fg, cs.bg, sqrt);
    SM.Refined(classified, ForegroundMask(data, w, h, sqrt), BackgroundMask(data, w, h, sqrt), w, h, sqrt)
  }

  /** The foreground mask after classification. */
  function ForegroundMask(data: seq<Byte>, w: nat, h: nat, sqrt: int -> real): (m: seq<bool>)
    requires ValidImage(data, w, h) && NonNegativeRoot(sqrt)
    ensures |m| == w * h
  {
    var cs := CS.SelectColors(data, w, h);
    var edge := EM.CreateEdgeMap(data, w, h, sqrt);
    seq(w * h, p requires 0 <= p < w * h => CH.PixelOutcome(data, edge, p, cs.fg, cs.bg, sqrt).foreground)
  }

  /** The background mask after classification: the complement. */
  function BackgroundMask(data: seq<Byte>, w: nat, h: nat, sqrt: int -> real): (m: seq<bool>)
    requires ValidImage(data, w, h) && NonNegativeRoot(sqrt)
    ensures |m| == w * h
  {
    var fgMask := ForegroundMask(data, w, h, sqrt);
    seq(w * h, p requires 0 <= p < w * h => !fgMask[p])
  }

  /** `onmessage`: one progress message per chunk, in order, then exactly
      one completion message carrying the segmented buffer, whose colour
      bytes are those of the input. */
  method Segment(data: seq<Byte>, w: nat, h: nat, sqrt: int -> real) returns (msgs: seq<Message>)
    requires ValidImage(data, w, h) && NonNegativeRoot(sqrt)
    ensures |msgs| == CH.NumChunks(|data|) + 1
    ensures forall k :: 0 <= k < |msgs| - 1 ==> msgs[k] == Progress(CH.ProgressReports(|data|)[k])
    ensures msgs[|msgs| - 1] == Complete(Segmented(data, w, h, sqrt))
    ensures forall k :: 0 <= k < |msgs| - 1 ==> !msgs[k].Complete?
  {
    var cs := CS.AnalyzeImage(data, w, h);
    var edge := EM.CreateEdgeMap(data, w, h, sqrt);
    var classified, fgMask, bgMask, reports := CH.ClassifyChunks(data, w, h, edge, cs.fg, cs.bg, sqrt);
    assert fgMask == ForegroundMask(data, w, h, sqrt);
    assert bgMask == BackgroundMask(data, w, h, sqrt);
    var out := SM.RefineEdges(classified, fgMask, bgMask, w, h, sqrt);
    msgs := seq(|reports|, k requires 0 <= k < |reports| => Progress(reports[k])) + [Complete(out)];
  }

  /** The pass writes only alpha bytes: every colour byte of the result is
      the input's. */
  lemma SegmentedKeepsColors(data: seq<Byte>, w: nat, h: nat, sqrt: int -> real, q: nat)
    requires ValidImage(data, w, h) && NonNegativeRoot(sqrt) && q < w * h
    ensures ColorAt(Segmented(data, w, h, sqrt), q) == ColorAt(data, q)
  {
    var cs := CS.SelectColors(data, w, h);
    var edge := EM.CreateEdgeMap(data, w, h, sqrt);
    var classified := CH.ClassifyAll(data, edge, cs.fg, cs.bg, sqrt);
    CH.ClassifyAllPixel(data, edge, cs.fg, cs.bg, sqrt, q);
    SM.RefineFrame(classified, ForegroundMask(data, w, h, sqrt), BackgroundMask(data, w, h, sqrt), w, h, sqrt, q);
  }

  /** After classification each pixel is in exactly one of the two masks. */
  lemma MasksPartition(data: seq<Byte>, w: nat, h: nat, sqrt: int -> real, q: nat)
    requires ValidImage(data, w, h) && NonNegativeRoot(sqrt) && q < w * h
    ensures ForegroundMask(data, w, h, sqrt)[q] != BackgroundMask(data, w, h, sqrt)[q]
  {
  }

  /** A pixel that is not refined keeps the alpha classification gave it:
      255 for the foreground, 0 or the faded edge alpha for the
      background. */
  lemma SegmentedAlpha(data: seq<Byte>, w: nat, h: nat, sqrt: int -> real, q: nat)
    requires ValidImage(data, w, h) && NonNegativeRoot(sqrt) && q < w * h
    requires !InsetPixel(q, w, h, SM.KernelSize)
    ensures var cs := CS.SelectColors(data, w, h);
      var edge := EM.CreateEdgeMap(data, w, h, sqrt);
      Alpha(Segmented(data, w, h, sqrt), q) == CH.PixelOutcome(data, edge, q, cs.fg, cs.bg, sqrt).alpha
  {
    var cs := CS.SelectColors(data, w, h);
    var edge := EM.CreateEdgeMap(data, w, h, sqrt);
    var classified := CH.ClassifyAll(data, edge, cs.fg, cs.bg, sqrt);
    CH.ClassifyAllPixel(data, edge, cs.fg, cs.bg, sqrt, q);
    SM.RefineFrame(classified, ForegroundMask(data, w, h, sqrt), BackgroundMask(data, w, h, sqrt), w, h, sqrt, q);
  }
}
