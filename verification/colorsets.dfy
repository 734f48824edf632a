/** `analyzeImage` and `separateColors`: the three most frequent quantised
    colours of the interior become the background colours and the next
    seven the foreground colours. Also `isEdgePixel`, which `analyzeImage`
    evaluates for every interior pixel; the set it fills is never read by
    `separateColors`, so it has no influence on the colour sets. */
module ColorSets {
  import opened Pixels
  import opened Histogram
  import opened CountSort

  datatype ColorSets = ColorSets(fg: seq<Color>, bg: seq<Color>)

  function Keys(s: Buckets): seq<Color>
  {
    seq(|s|, i requires 0 <= i < |s| => s[i].key)
  }

  /** Array.prototype.slice(lo, hi) for 0 <= lo <= hi. */
  function Slice<T>(s: seq<T>, lo: nat, hi: nat): seq<T>
    requires lo <= hi
  {
    s[Min(lo, |s|)..Min(hi, |s|)]
  }

  /** `bgColors = sorted.slice(0, 3)`, `fgColors = sorted.slice(3, 10)`. */
  function SeparateColors(sorted: Buckets): (cs: ColorSets)
    ensures |cs.bg| == Min(3, |sorted|)
    ensures |cs.fg| == Max(0, Min(10, |sorted|) - 3)
    ensures forall i :: 0 <= i < |cs.bg| ==> cs.bg[i] == sorted[i].key
    ensures forall j :: 0 <= j < |cs.fg| ==> cs.fg[j] == sorted[3 + j].key
  {
    ColorSets(Keys(Slice(sorted, 3, 10)), Keys(Slice(sorted, 0, 3)))
  }

  /** The colour sets `analyzeImage` returns for an image. */
  function SelectColors(data: seq<Byte>, w: nat, h: nat): ColorSets
    requires ValidImage(data, w, h)
  {
    SeparateColors(Sort(Build(InteriorKeys(data, w, h))))
  }

  /** `analyzeImage`: count the interior colours, then separate them. */
  method AnalyzeImage(data: seq<Byte>, w: nat, h: nat) returns (cs: ColorSets)
    requires ValidImage(data, w, h)
    ensures cs == SelectColors(data, w, h)
  {
    var hist := CountColors(data, w, h);
    cs := SeparateColors(Sort(hist));
  }

  /** `r` lists every distinct element of `keys` once, with its number of
      occurrences, most frequent first. */
  predicate RankedBy(r: Buckets, keys: seq<Color>)
  {
    && SortedDesc(r)
    && DistinctKeys(r)
    && KeySet(r) == (set k | k in keys)
    && |r| == |set k | k in keys|
    && (forall t :: 0 <= t < |r| ==> r[t].count == multiset(keys)[r[t].key])
  }

  /** The sorted Map of the interior colours is such a ranking. */
  lemma SortedHistogram(keys: seq<Color>)
    ensures RankedBy(Sort(Build(keys)), keys)
  {
    var hist := Build(keys);
    var r := Sort(hist);
    BuildCounts(keys);
    SortDistinct(hist);
    DistinctKeysCard(hist);
    PermutedCounts(hist, r, keys);
  }

  /** A permutation of buckets that count `keys` counts them too. */
  lemma PermutedCounts(hist: Buckets, r: Buckets, keys: seq<Color>)
    requires multiset(r) == multiset(hist)
    requires forall u :: 0 <= u < |hist| ==> hist[u].count == multiset(keys)[hist[u].key]
    ensures forall t :: 0 <= t < |r| ==> r[t].count == multiset(keys)[r[t].key]
  {
    forall t | 0 <= t < |r| ensures r[t].count == multiset(keys)[r[t].key] {
      assert r[t] in multiset(r);
      assert r[t] in hist;
      var u :| 0 <= u < |hist| && hist[u] == r[t];
    }
  }

  lemma RankedMembers(r: Buckets, keys: seq<Color>)
    requires RankedBy(r, keys)
    ensures forall t :: 0 <= t < |r| ==> r[t].key in keys
    ensures forall k :: k in keys ==> exists t :: 0 <= t < |r| && r[t].key == k
  {
    forall t | 0 <= t < |r| ensures r[t].key in keys {
      assert r[t].key in KeySet(r);
    }
    forall k | k in keys ensures exists t :: 0 <= t < |r| && r[t].key == k {
      assert k in KeySet(r);
      var b :| b in r && b.key == k;
    }
  }

  /** Shape of the two sets for an image with the interior keys `keys`:
      sizes, membership, disjointness, no repeats. */
  predicate Shape(cs: ColorSets, keys: seq<Color>)
  {
    var d := |set k | k in keys|;
    && |cs.bg| == Min(3, d)
    && |cs.fg| == Max(0, Min(10, d) - 3)
    && (d < 4 ==> cs.fg == [])
    && (forall i :: 0 <= i < |cs.bg| ==> cs.bg[i] in keys)
    && (forall j :: 0 <= j < |cs.fg| ==> cs.fg[j] in keys)
    && (forall i, j :: 0 <= i < |cs.bg| && 0 <= j < |cs.fg| ==> cs.bg[i] != cs.fg[j])
    && (forall i, j :: 0 <= i < j < |cs.bg| ==> cs.bg[i] != cs.bg[j])
    && (forall i, j :: 0 <= i < j < |cs.fg| ==> cs.fg[i] != cs.fg[j])
  }

  /** Frequencies of the two sets: background colours most frequent first,
      each at least as frequent as every foreground colour and every colour
      left out of the background; each foreground colour at least as
      frequent as every colour left out of both. */
  predicate Ranks(cs: ColorSets, keys: seq<Color>)
  {
    var m := multiset(keys);
    && (forall i, j :: 0 <= i < j < |cs.bg| ==> m[cs.bg[i]] >= m[cs.bg[j]])
    && (forall i, j :: 0 <= i < |cs.bg| && 0 <= j < |cs.fg| ==> m[cs.bg[i]] >= m[cs.fg[j]])
    && (forall k, i :: k in keys && k !in cs.bg && 0 <= i < |cs.bg| ==> m[k] <= m[cs.bg[i]])
    && (forall k, j :: k in keys && k !in cs.bg && k !in cs.fg && 0 <= j < |cs.fg| ==> m[k] <= m[cs.fg[j]])
  }

  lemma SeparateShape(r: Buckets, keys: seq<Color>)
    requires RankedBy(r, keys)
    ensures Shape(SeparateColors(r), keys)
  {
    RankedMembers(r, keys);
  }

  /** Where the entry at rank `t` ends up. */
  lemma RankPosition(r: Buckets, t: nat)
    requires t < |r|
    ensures t < 3 ==> SeparateColors(r).bg[t] == r[t].key
    ensures 3 <= t < 10 ==> SeparateColors(r).fg[t - 3] == r[t].key
  {
  }

  /** Background colours come most frequent first and dominate the
      foreground colours. */
  lemma SeparateRanks(r: Buckets, keys: seq<Color>)
    requires RankedBy(r, keys)
    ensures var cs := SeparateColors(r);
            var m := multiset(keys);
            && (forall i, j :: 0 <= i < j < |cs.bg| ==> m[cs.bg[i]] >= m[cs.bg[j]])
            && (forall i, j :: 0 <= i < |cs.bg| && 0 <= j < |cs.fg| ==> m[cs.bg[i]] >= m[cs.fg[j]])
  {
  }

  /** Every colour outside the background set is at most as frequent as
      each background colour. */
  lemma BackgroundDominates(r: Buckets, keys: seq<Color>)
    requires RankedBy(r, keys)
    ensures var cs := SeparateColors(r);
            forall k, i :: k in keys && k !in cs.bg && 0 <= i < |cs.bg| ==>
              multiset(keys)[k] <= multiset(keys)[cs.bg[i]]
  {
    var cs := SeparateColors(r);
    RankedMembers(r, keys);
    forall k, i | k in keys && k !in cs.bg && 0 <= i < |cs.bg|
      ensures multiset(keys)[k] <= multiset(keys)[cs.bg[i]]
    {
      var t :| 0 <= t < |r| && r[t].key == k;
      RankPosition(r, t);
      assert r[i].count >= r[t].count;
    }
  }

  /** Every colour in neither set is at most as frequent as each
      foreground colour. */
  lemma ForegroundDominates(r: Buckets, keys: seq<Color>)
    requires RankedBy(r, keys)
    ensures var cs := SeparateColors(r);
            forall k, j :: k in keys && k !in cs.bg && k !in cs.fg && 0 <= j < |cs.fg| ==>
              multiset(keys)[k] <= multiset(keys)[cs.fg[j]]
  {
    var cs := SeparateColors(r);
    RankedMembers(r, keys);
    forall k, j | k in keys && k !in cs.bg && k !in cs.fg && 0 <= j < |cs.fg|
      ensures multiset(keys)[k] <= multiset(keys)[cs.fg[j]]
    {
      var t :| 0 <= t < |r| && r[t].key == k;
      RankPosition(r, t);
      assert r[3 + j].count >= r[t].count;
    }
  }

  /** Ranks of a ranking's separation, from the three lemmas above. */
  lemma SeparateRanksAll(r: Buckets, keys: seq<Color>)
    requires RankedBy(r, keys)
    ensures Ranks(SeparateColors(r), keys)
  {
    SeparateRanks(r, keys);
    BackgroundDominates(r, keys);
    ForegroundDominates(r, keys);
  }

  /** What `separateColors` promises about the image: with D distinct
      quantised interior colours, the background set holds the min(3, D)
      most frequent ones and the foreground set the next ones up to ten;
      the sets are disjoint and drawn from the image; every background
      colour is at least as frequent as every foreground colour and as every
      colour left out; fewer than four distinct colours leave the
      foreground set empty. */
  lemma SelectColorsProperties(data: seq<Byte>, w: nat, h: nat)
    requires ValidImage(data, w, h)
    ensures Shape(SelectColors(data, w, h), InteriorKeys(data, w, h))
    ensures Ranks(SelectColors(data, w, h), InteriorKeys(data, w, h))
  {
    var keys := InteriorKeys(data, w, h);
    SortedHistogram(keys);
    SeparateShape(Sort(Build(keys)), keys);
    SeparateRanksAll(Sort(Build(keys)), keys);
  }

  /** Sum of the two absolute channel differences `isEdgePixel` thresholds:
      against the pixel below and the pixel to the right. */
  function ChannelContrast(data: seq<Byte>, idx: nat, w: nat, c: nat): int
    requires c < 3
    requires idx + c + 4 * w < |data| && idx + c + 4 < |data|
  {
    Abs(data[idx + c] as int - data[idx + c + 4 * w]) + Abs(data[idx + c] as int - data[idx + c + 4])
  }

  function Abs(n: int): nat
  {
    if n < 0 then -n else n
  }

  /** `isEdgePixel`: true as soon as one of the red, green and blue channels
      differs from the pixel below and the pixel to the right by more than
      30 in total. */
  method IsEdgePixel(data: seq<Byte>, idx: nat, w: nat) returns (edge: bool)
    requires idx + 2 + 4 * w < |data| && idx + 6 < |data|
    ensures edge <==> exists c :: 0 <= c < 3 && ChannelContrast(data, idx, w, c) > 30
  {
    var c := 0;
    while c < 3
      invariant 0 <= c <= 3
      invariant forall c' :: 0 <= c' < c ==> ChannelContrast(data, idx, w, c') <= 30
    {
      if ChannelContrast(data, idx, w, c) > 30 {
        return true;
      }
      c := c + 1;
    }
    return false;
  }
}
