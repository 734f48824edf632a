/** Step 1 of `analyzeImage`: every interior pixel's colour is quantised to
    multiples of 8 per channel and counted. The JavaScript Map keeps its keys
    in first-insertion order, which later decides ties in the sort, so the
    histogram is a sequence of buckets in that order. */
module Histogram {
  import opened Pixels

  /** `Math.floor(c / 8) * 8`. */
  function Quantize(c: Byte): (q: Byte)
    ensures q % 8 == 0
    ensures q <= c < q + 8
  {
    (c / 8) * 8
  }

  /** The bucket of a channel value is the only multiple of 8 within 7 below it. */
  lemma QuantizeUnique(c: Byte, q: int)
    requires q % 8 == 0 && q <= c < q + 8
    ensures q == Quantize(c)
  {
    var k := q / 8;
    assert q == 8 * k;
    assert 8 * k <= c < 8 * k + 8;
    assert c / 8 == k;
  }

  function QuantizeColor(c: Color): Color
  {
    Color(Quantize(c.r), Quantize(c.g), Quantize(c.b))
  }

  /** The histogram key of the pixel in column `x`, row `y`. */
  function KeyAt(data: seq<Byte>, w: nat, h: nat, x: nat, y: nat): Color
    requires ValidImage(data, w, h)
    requires x < w && y < h
  {
    PixelIndexBounds(x, y, w, h);
    QuantizeColor(ColorAt(data, PixelIndex(x, y, w)))
  }

  /** Keys of row `y`, columns 1 to w-2, left to right. */
  function InteriorRow(data: seq<Byte>, w: nat, h: nat, y: nat): (row: seq<Color>)
    requires ValidImage(data, w, h)
    requires y < h
    ensures |row| == Max(0, w - 2)
  {
    if w < 2 then []
    else seq(w - 2, i requires 0 <= i < w - 2 => KeyAt(data, w, h, i + 1, y))
  }

  /** Keys of the interior rows 1 .. y-1, row by row. */
  function KeysBefore(data: seq<Byte>, w: nat, h: nat, y: nat): seq<Color>
    requires ValidImage(data, w, h)
    requires y <= Max(1, h)
  {
    if y <= 1 then [] else KeysBefore(data, w, h, y - 1) + InteriorRow(data, w, h, y - 1)
  }

  /** Keys of every pixel with 1 <= x <= w-2 and 1 <= y <= h-2, in the
      row-major order of the two nested loops. */
  function InteriorKeys(data: seq<Byte>, w: nat, h: nat): seq<Color>
    requires ValidImage(data, w, h)
  {
    if h < 2 then [] else KeysBefore(data, w, h, h - 1)
  }

  /** Number of pixels the scan visits. */
  function InteriorCount(w: nat, h: nat): nat
  {
    Max(0, w - 2) * Max(0, h - 2)
  }

  lemma {:induction false} KeysBeforeLength(data: seq<Byte>, w: nat, h: nat, y: nat)
    requires ValidImage(data, w, h)
    requires 1 <= y <= h
    ensures |KeysBefore(data, w, h, y)| == Max(0, w - 2) * (y - 1)
    decreases y
  {
    if y > 1 {
      KeysBeforeLength(data, w, h, y - 1);
      assert Max(0, w - 2) * (y - 2) + Max(0, w - 2) == Max(0, w - 2) * (y - 1);
    }
  }

  /** The scan visits exactly (w-2)(h-2) pixels (none when w or h is below 3). */
  lemma InteriorKeysLength(data: seq<Byte>, w: nat, h: nat)
    requires ValidImage(data, w, h)
    ensures |InteriorKeys(data, w, h)| == InteriorCount(w, h)
  {
    if h >= 2 {
      KeysBeforeLength(data, w, h, h - 1);
    }
  }

  /** One entry of the colour Map: quantised colour and number of pixels. */
  datatype Bucket = Bucket(key: Color, count: nat)

  type Buckets = seq<Bucket>

  function KeySet(hist: Buckets): set<Color>
  {
    set b | b in hist :: b.key
  }

  predicate DistinctKeys(hist: Buckets)
  {
    forall i, j :: 0 <= i < j < |hist| ==> hist[i].key != hist[j].key
  }

  /** Sum of the counts. */
  function Total(hist: Buckets): nat
  {
    if |hist| == 0 then 0 else Total(hist[..|hist| - 1]) + hist[|hist| - 1].count
  }

  /** Position of key `k`, or -1 when the Map has no entry for it. */
  function IndexOf(hist: Buckets, k: Color): (i: int)
    ensures -1 <= i < |hist|
    ensures 0 <= i ==> hist[i].key == k
    ensures i == -1 <==> k !in KeySet(hist)
  {
    if |hist| == 0 then -1
    else if hist[|hist| - 1].key == k then |hist| - 1
    else
      var i := IndexOf(hist[..|hist| - 1], k);
      assert KeySet(hist) == KeySet(hist[..|hist| - 1]) + {hist[|hist| - 1].key} by {
        assert hist == hist[..|hist| - 1] + [hist[|hist| - 1]];
      }
      i
  }

  /** `colorStats.set(key, (colorStats.get(key) || 0) + 1)`: a present key
      is incremented in place, a new key is appended with count 1. */
  function Add(hist: Buckets, k: Color): Buckets
  {
    var i := IndexOf(hist, k);
    if i < 0 then hist + [Bucket(k, 1)] else hist[i := Bucket(k, hist[i].count + 1)]
  }

  /** The Map after inserting `keys` one after another into an empty Map. */
  function Build(keys: seq<Color>): Buckets
  {
    if |keys| == 0 then [] else Add(Build(keys[..|keys| - 1]), keys[|keys| - 1])
  }

  lemma BuildSnoc(keys: seq<Color>, k: Color)
    ensures Build(keys + [k]) == Add(Build(keys), k)
  {
    assert (keys + [k])[..|keys|] == keys;
  }

  lemma {:induction false} TotalUpdate(hist: Buckets, i: nat, b: Bucket)
    requires i < |hist|
    ensures Total(hist[i := b]) == Total(hist) - hist[i].count + b.count
    decreases |hist|
  {
    var n := |hist| - 1;
    if i < n {
      assert hist[i := b][..n] == hist[..n][i := b];
      TotalUpdate(hist[..n], i, b);
    } else {
      assert hist[i := b][..n] == hist[..n];
    }
  }

  lemma TotalAppend(hist: Buckets, b: Bucket)
    ensures Total(hist + [b]) == Total(hist) + b.count
  {
    assert (hist + [b])[..|hist|] == hist;
  }

  /** What the Map built from a key sequence holds: one bucket per distinct
      key, holding the number of times that key occurs. */
  predicate CountsOf(hist: Buckets, keys: seq<Color>)
  {
    && DistinctKeys(hist)
    && KeySet(hist) == (set k | k in keys)
    && (forall i :: 0 <= i < |hist| ==> hist[i].count == multiset(keys)[hist[i].key])
    && Total(hist) == |keys|
  }

  lemma KeysSnoc(keys: seq<Color>, k: Color)
    ensures multiset(keys + [k]) == multiset(keys) + multiset{k}
    ensures (set x | x in keys + [k]) == (set x | x in keys) + {k}
  {
  }

  /** A key not yet in the Map gets a new bucket with count 1. */
  lemma AddNewCounts(hist: Buckets, keys: seq<Color>, k: Color)
    requires CountsOf(hist, keys) && k !in KeySet(hist)
    ensures CountsOf(hist + [Bucket(k, 1)], keys + [k])
  {
    var hist' := hist + [Bucket(k, 1)];
    var keys' := keys + [k];
    KeysSnoc(keys, k);
    TotalAppend(hist, Bucket(k, 1));
    assert KeySet(hist') == KeySet(hist) + {k} by {
      assert forall j :: 0 <= j < |hist| ==> hist'[j] == hist[j];
      assert hist'[|hist|] == Bucket(k, 1);
    }
    assert k !in keys;
    assert DistinctKeys(hist') by {
      forall j | 0 <= j < |hist| ensures hist[j].key != k {
        assert hist[j] in hist;
      }
    }
    forall j | 0 <= j < |hist'|
      ensures hist'[j].count == multiset(keys')[hist'[j].key]
    {
      if j < |hist| {
        assert hist'[j] == hist[j] && hist[j] in hist;
      }
    }
  }

  /** Replacing a bucket by one of the same key keeps the key set. */
  lemma KeysUpdate(hist: Buckets, i: nat, b: Bucket)
    requires i < |hist| && hist[i].key == b.key
    ensures KeySet(hist[i := b]) == KeySet(hist)
  {
    var hist' := hist[i := b];
    forall c | c in KeySet(hist') ensures c in KeySet(hist) {
      var j :| 0 <= j < |hist'| && hist'[j].key == c;
      assert hist[j].key == c;
    }
    forall c | c in KeySet(hist) ensures c in KeySet(hist') {
      var j :| 0 <= j < |hist| && hist[j].key == c;
      assert hist'[j].key == c;
    }
  }

  /** A key already in the Map has its bucket incremented in place. */
  lemma AddExistingCounts(hist: Buckets, keys: seq<Color>, k: Color, i: nat)
    requires CountsOf(hist, keys) && i < |hist| && hist[i].key == k
    ensures CountsOf(hist[i := Bucket(k, hist[i].count + 1)], keys + [k])
  {
    var hist' := hist[i := Bucket(k, hist[i].count + 1)];
    var keys' := keys + [k];
    KeysSnoc(keys, k);
    TotalUpdate(hist, i, Bucket(k, hist[i].count + 1));
    KeysUpdate(hist, i, Bucket(k, hist[i].count + 1));
    assert hist[i] in hist;
    forall j | 0 <= j < |hist'|
      ensures hist'[j].count == multiset(keys')[hist'[j].key]
    {
      if j != i {
        assert hist[j].key != k;
      }
    }
  }

  /** One insertion keeps the Map in step with the keys seen so far. */
  lemma AddCounts(hist: Buckets, keys: seq<Color>, k: Color)
    requires CountsOf(hist, keys)
    ensures CountsOf(Add(hist, k), keys + [k])
  {
    var i := IndexOf(hist, k);
    if i < 0 {
      AddNewCounts(hist, keys, k);
    } else {
      AddExistingCounts(hist, keys, k, i);
    }
  }

  /** The Map built from `keys` has one bucket per distinct key, holding the
      number of times that key occurs, and its counts add up to |keys|. */
  lemma {:induction false} BuildCounts(keys: seq<Color>)
    ensures CountsOf(Build(keys), keys)
    decreases |keys|
  {
    if |keys| > 0 {
      var pre := keys[..|keys| - 1];
      assert keys == pre + [keys[|keys| - 1]];
      BuildCounts(pre);
      AddCounts(Build(pre), pre, keys[|keys| - 1]);
    }
  }

  /** A Map with distinct keys has as many buckets as distinct keys. */
  lemma {:induction false} DistinctKeysCard(hist: Buckets)
    requires DistinctKeys(hist)
    ensures |KeySet(hist)| == |hist|
    decreases |hist|
  {
    if |hist| > 0 {
      var pre := hist[..|hist| - 1];
      var b := hist[|hist| - 1];
      assert hist == pre + [b];
      DistinctKeysCard(pre);
      assert KeySet(hist) == KeySet(pre) + {b.key};
      assert b.key !in KeySet(pre);
    }
  }

  lemma RowPrefixStep(data: seq<Byte>, w: nat, h: nat, x: nat, y: nat)
    requires ValidImage(data, w, h)
    requires 1 <= x < w - 1 && y < h
    ensures InteriorRow(data, w, h, y)[..x] == InteriorRow(data, w, h, y)[..x - 1] + [KeyAt(data, w, h, x, y)]
  {
  }

  /** The Map built by the scan counts every interior pixel exactly once. */
  lemma InteriorHistogram(data: seq<Byte>, w: nat, h: nat)
    requires ValidImage(data, w, h)
    ensures CountsOf(Build(InteriorKeys(data, w, h)), InteriorKeys(data, w, h))
    ensures Total(Build(InteriorKeys(data, w, h))) == InteriorCount(w, h)
  {
    BuildCounts(InteriorKeys(data, w, h));
    InteriorKeysLength(data, w, h);
  }

  /** The inner loop of `analyzeImage` over the interior columns of row `y`. */
  method CountRow(data: seq<Byte>, w: nat, h: nat, y: nat, hist: Buckets, ghost before: seq<Color>)
    returns (hist': Buckets)
    requires ValidImage(data, w, h)
    requires y < h
    requires hist == Build(before)
    ensures hist' == Build(before + InteriorRow(data, w, h, y))
  {
    ghost var row := InteriorRow(data, w, h, y);
    hist' := hist;
    var x := 1;
    assert before + row[..0] == before;
    while x < w - 1
      invariant 1 <= x <= Max(1, w - 1)
      invariant hist' == Build(before + row[..x - 1])
    {
      var key := KeyAt(data, w, h, x, y);
      RowPrefixStep(data, w, h, x, y);
      assert before + row[..x] == (before + row[..x - 1]) + [key];
      BuildSnoc(before + row[..x - 1], key);
      hist' := Add(hist', key);
      x := x + 1;
    }
    assert row[..x - 1] == row;
  }

  /** The two nested loops of `analyzeImage` that fill `colorStats`. */
  method CountColors(data: seq<Byte>, w: nat, h: nat) returns (hist: Buckets)
    requires ValidImage(data, w, h)
    ensures hist == Build(InteriorKeys(data, w, h))
    ensures CountsOf(hist, InteriorKeys(data, w, h))
    ensures Total(hist) == InteriorCount(w, h)
  {
    hist := [];
    var y := 1;
    while y < h - 1
      invariant 1 <= y <= Max(1, h - 1)
      invariant hist == Build(KeysBefore(data, w, h, y))
    {
      hist := CountRow(data, w, h, y, hist, KeysBefore(data, w, h, y));
      y := y + 1;
    }
    assert KeysBefore(data, w, h, y) == InteriorKeys(data, w, h);
    InteriorHistogram(data, w, h);
  }
}
