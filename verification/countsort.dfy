/** `Array.from(colorStats.entries()).sort((a, b) => b[1] - a[1])`: the
    histogram entries ordered by count, largest first. Array.prototype.sort
    is stable, so entries with equal counts keep their Map (first-insertion)
    order; an insertion sort that places each entry after every entry with
    a count at least as large has exactly that behaviour. */
module CountSort {
  import opened Pixels
  import opened Histogram

  predicate SortedDesc(s: Buckets)
  {
    forall i, j :: 0 <= i < j < |s| ==> s[i].count >= s[j].count
  }

  /** The entries of `s` whose count is `c`, in their order in `s`. */
  function WithCount(s: Buckets, c: nat): Buckets
  {
    if |s| == 0 then [] else (if s[0].count == c then [s[0]] else []) + WithCount(s[1..], c)
  }

  lemma {:induction false} WithCountAppend(a: Buckets, b: Buckets, c: nat)
    ensures WithCount(a + b, c) == WithCount(a, c) + WithCount(b, c)
    decreases |a|
  {
    if |a| == 0 {
      assert a + b == b;
    } else {
      assert (a + b)[1..] == a[1..] + b;
      WithCountAppend(a[1..], b, c);
      ConcatAssoc(if a[0].count == c then [a[0]] else [], WithCount(a[1..], c), WithCount(b, c));
    }
  }

  lemma {:induction false} WithCountNone(s: Buckets, c: nat)
    requires forall i :: 0 <= i < |s| ==> s[i].count < c
    ensures WithCount(s, c) == []
    decreases |s|
  {
    if |s| > 0 {
      WithCountNone(s[1..], c);
    }
  }

  /** A list that is count-descending stays so behind an entry whose count
      is at least that of its first element. */
  lemma PrependSorted(x: Bucket, rest: Buckets)
    requires SortedDesc(rest)
    requires |rest| > 0 ==> rest[0].count <= x.count
    ensures SortedDesc([x] + rest)
  {
    var r := [x] + rest;
    forall i, j | 0 <= i < j < |r| ensures r[i].count >= r[j].count {
      if i == 0 {
        assert r[j] == rest[j - 1];
        assert rest[0].count >= rest[j - 1].count;
      } else {
        assert r[i] == rest[i - 1] && r[j] == rest[j - 1];
      }
    }
  }

  /** Places `b` after every entry whose count is at least `b.count`. */
  function Insert(s: Buckets, b: Bucket): (r: Buckets)
    requires SortedDesc(s)
    ensures SortedDesc(r)
    ensures |r| == |s| + 1
    ensures r[0].count == if |s| > 0 then Max(s[0].count, b.count) else b.count
  {
    if |s| == 0 then [b]
    else if s[0].count >= b.count then
      var rest := Insert(s[1..], b);
      assert |s| > 1 ==> s[0].count >= s[1].count;
      PrependSorted(s[0], rest);
      [s[0]] + rest
    else
      PrependSorted(b, s);
      [b] + s
  }

  /** Inserting adds exactly the one entry: the result is a permutation of
      the list with `b` appended. */
  lemma {:induction false} InsertPermutes(s: Buckets, b: Bucket)
    requires SortedDesc(s)
    ensures multiset(Insert(s, b)) == multiset(s) + multiset{b}
    decreases |s|
  {
    if |s| > 0 && s[0].count >= b.count {
      var rest := Insert(s[1..], b);
      assert Insert(s, b) == [s[0]] + rest;
      InsertPermutes(s[1..], b);
      assert s == [s[0]] + s[1..];
      assert multiset([s[0]] + rest) == multiset([s[0]]) + multiset(rest);
      assert multiset(s) == multiset([s[0]]) + multiset(s[1..]);
    }
  }

  /** Entries ordered by count, largest first, ties in their original order. */
  function Sort(hist: Buckets): (r: Buckets)
    ensures SortedDesc(r)
    ensures multiset(r) == multiset(hist)
  {
    if |hist| == 0 then []
    else
      var pre := hist[..|hist| - 1];
      assert hist == pre + [hist[|hist| - 1]];
      InsertPermutes(Sort(pre), hist[|hist| - 1]);
      Insert(Sort(pre), hist[|hist| - 1])
  }

  lemma WithCountCons(x: Bucket, t: Buckets, c: nat)
    ensures WithCount([x] + t, c) == (if x.count == c then [x] else []) + WithCount(t, c)
  {
    assert ([x] + t)[1..] == t;
  }

  lemma {:induction false} InsertWithCount(s: Buckets, b: Bucket, c: nat)
    requires SortedDesc(s)
    ensures WithCount(Insert(s, b), c) == WithCount(s, c) + (if b.count == c then [b] else [])
    decreases |s|
  {
    if |s| == 0 {
      WithCountCons(b, [], c);
    } else if s[0].count >= b.count {
      InsertWithCount(s[1..], b, c);
      InsertBehindHead(s, b, c);
    } else {
      InsertInFront(s, b, c);
    }
  }

  /** The step of `InsertWithCount` where `b` goes behind the head. */
  lemma InsertBehindHead(s: Buckets, b: Bucket, c: nat)
    requires SortedDesc(s) && |s| > 0 && s[0].count >= b.count
    requires WithCount(Insert(s[1..], b), c) == WithCount(s[1..], c) + (if b.count == c then [b] else [])
    ensures WithCount(Insert(s, b), c) == WithCount(s, c) + (if b.count == c then [b] else [])
  {
    var rest := Insert(s[1..], b);
    var head := if s[0].count == c then [s[0]] else [];
    var tail := if b.count == c then [b] else [];
    assert Insert(s, b) == [s[0]] + rest;
    WithCountCons(s[0], rest, c);
    calc {
      WithCount(Insert(s, b), c);
      head + WithCount(rest, c);
      head + (WithCount(s[1..], c) + tail);
      { ConcatAssoc(head, WithCount(s[1..], c), tail); }
      (head + WithCount(s[1..], c)) + tail;
      WithCount(s, c) + tail;
    }
  }

  /** The step of `InsertWithCount` where `b` goes in front: every entry of
      `s` has a smaller count. */
  lemma InsertInFront(s: Buckets, b: Bucket, c: nat)
    requires SortedDesc(s) && |s| > 0 && s[0].count < b.count
    ensures WithCount(Insert(s, b), c) == WithCount(s, c) + (if b.count == c then [b] else [])
  {
    WithCountCons(b, s, c);
    if b.count == c {
      WithCountNone(s, c);
    }
  }

  /** Stability: among entries with any one count, the sorted order is the
      original order. */
  lemma {:induction false} SortIsStable(hist: Buckets, c: nat)
    ensures WithCount(Sort(hist), c) == WithCount(hist, c)
    decreases |hist|
  {
    if |hist| > 0 {
      var pre := hist[..|hist| - 1];
      var last := hist[|hist| - 1];
      assert hist == pre + [last];
      SortIsStable(pre, c);
      InsertWithCount(Sort(pre), last, c);
      WithCountAppend(pre, [last], c);
      WithCountCons(last, [], c);
      assert [last] + [] == [last];
    }
  }

  lemma MultisetKeySet(a: Buckets, b: Buckets)
    requires multiset(a) == multiset(b)
    ensures KeySet(a) == KeySet(b)
  {
    forall k | k in KeySet(a) ensures k in KeySet(b) {
      var x :| x in a && x.key == k;
      assert x in multiset(a);
    }
    forall k | k in KeySet(b) ensures k in KeySet(a) {
      var x :| x in b && x.key == k;
      assert x in multiset(b);
    }
  }

  /** The tail of a list with distinct keys has distinct keys, none of
      them the head's. */
  lemma DistinctTail(s: Buckets)
    requires DistinctKeys(s) && |s| > 0
    ensures DistinctKeys(s[1..])
    ensures s[0].key !in KeySet(s[1..])
    ensures KeySet(s[1..]) <= KeySet(s)
  {
    forall x | x in s[1..] ensures x.key != s[0].key {
      var j :| 0 <= j < |s[1..]| && s[1..][j] == x;
      assert s[j + 1] == x;
    }
  }

  lemma PrependDistinct(x: Bucket, rest: Buckets)
    requires DistinctKeys(rest) && x.key !in KeySet(rest)
    ensures DistinctKeys([x] + rest)
  {
    var r := [x] + rest;
    forall i, j | 0 <= i < j < |r| ensures r[i].key != r[j].key {
      assert r[j] == rest[j - 1];
      assert rest[j - 1] in rest;
      if i > 0 {
        assert r[i] == rest[i - 1];
      }
    }
  }

  /** Insertion adds exactly the new entry's key. */
  lemma InsertKeys(s: Buckets, b: Bucket)
    requires SortedDesc(s)
    ensures KeySet(Insert(s, b)) == KeySet(s) + {b.key}
  {
    InsertPermutes(s, b);
    assert multiset(s + [b]) == multiset(s) + multiset{b};
    MultisetKeySet(Insert(s, b), s + [b]);
    assert KeySet(s + [b]) == KeySet(s) + {b.key} by {
      forall k | k in KeySet(s + [b]) ensures k in KeySet(s) + {b.key} {
        var x :| x in s + [b] && x.key == k;
      }
      forall k | k in KeySet(s) ensures k in KeySet(s + [b]) {
        var x :| x in s && x.key == k;
        assert x in s + [b];
      }
      assert b in s + [b];
    }
  }

  lemma {:induction false} InsertDistinct(s: Buckets, b: Bucket)
    requires SortedDesc(s) && DistinctKeys(s)
    requires b.key !in KeySet(s)
    ensures DistinctKeys(Insert(s, b))
    decreases |s|
  {
    if |s| == 0 {
    } else if s[0].count >= b.count {
      var rest := Insert(s[1..], b);
      assert Insert(s, b) == [s[0]] + rest;
      DistinctTail(s);
      InsertDistinct(s[1..], b);
      InsertKeys(s[1..], b);
      assert s[0] in s;
      PrependDistinct(s[0], rest);
    } else {
      PrependDistinct(b, s);
    }
  }

  /** Sorting keeps the one-entry-per-key shape of the Map. */
  lemma {:induction false} SortDistinct(hist: Buckets)
    requires DistinctKeys(hist)
    ensures DistinctKeys(Sort(hist))
    ensures KeySet(Sort(hist)) == KeySet(hist)
    ensures |Sort(hist)| == |hist|
    decreases |hist|
  {
    assert |multiset(Sort(hist))| == |multiset(hist)|;
    MultisetKeySet(Sort(hist), hist);
    if |hist| > 0 {
      var pre := hist[..|hist| - 1];
      var last := hist[|hist| - 1];
      assert hist == pre + [last];
      SortDistinct(pre);
      assert last.key !in KeySet(pre) by {
        forall j | 0 <= j < |pre| ensures pre[j].key != last.key {
        }
      }
      InsertDistinct(Sort(pre), last);
    }
  }
}
