/**
 * The merge-sort visualizer: a top-down merge sort over a working copy `a`,
 * merging through the buffer `aux` with three cursors and copying each merged
 * range back, counting comparisons and writes and highlighting the two halves
 * and then the range being merged.
 */
module MergeSort {
  import opened Sequences
  import opened Runs

  /**
   * The highlight descriptor: the two halves `{left: [left, mid], right:
   * [mid + 1, right]}` before a merge, the range `{merge: [left, right]}`
   * during it, or nothing.
   */
  datatype Highlight =
    | NoHighlight
    | Halves(left: (int, int), right: (int, int))
    | Merging(range: (int, int))

  /**
   * The merge of two runs as the three loops of `merge` produce it: the
   * smaller head first, the left head on a tie, and the rest of whichever run
   * is left over once the other is exhausted.
   */
  function MergeSeqs(xs: seq<int>, ys: seq<int>): (m: seq<int>)
    ensures |m| == |xs| + |ys|
    decreases |xs| + |ys|
  {
    if xs == [] then ys
    else if ys == [] then xs
    else if xs[0] <= ys[0] then [xs[0]] + MergeSeqs(xs[1..], ys)
    else [ys[0]] + MergeSeqs(xs, ys[1..])
  }

  /** A merge is a rearrangement of its two runs. */
  lemma {:induction false} MergePermutes(xs: seq<int>, ys: seq<int>)
    ensures multiset(MergeSeqs(xs, ys)) == multiset(xs) + multiset(ys)
    decreases |xs| + |ys|
  {
    if xs != [] && ys != [] {
      if xs[0] <= ys[0] {
        MergePermutes(xs[1..], ys);
        assert MergeSeqs(xs, ys) == [xs[0]] + MergeSeqs(xs[1..], ys);
        assert xs == [xs[0]] + xs[1..];
        assert multiset(xs) == multiset{xs[0]} + multiset(xs[1..]);
      } else {
        MergePermutes(xs, ys[1..]);
        assert MergeSeqs(xs, ys) == [ys[0]] + MergeSeqs(xs, ys[1..]);
        assert ys == [ys[0]] + ys[1..];
        assert multiset(ys) == multiset{ys[0]} + multiset(ys[1..]);
      }
    }
  }

  /** The comparisons the first loop of `merge` makes: one per element it moves. */
  function MergeComparisons(xs: seq<int>, ys: seq<int>): (c: nat)
    ensures c == 0 <==> xs == [] || ys == []
    decreases |xs| + |ys|
  {
    if xs == [] || ys == [] then 0
    else if xs[0] <= ys[0] then 1 + MergeComparisons(xs[1..], ys)
    else 1 + MergeComparisons(xs, ys[1..])
  }

  /** The first step of a merge of two non-empty runs. */
  lemma MergeHead(xs: seq<int>, ys: seq<int>)
    requires xs != [] && ys != []
    ensures xs[0] <= ys[0] ==>
      && MergeSeqs(xs, ys) == [xs[0]] + MergeSeqs(xs[1..], ys)
      && MergeComparisons(xs, ys) == 1 + MergeComparisons(xs[1..], ys)
    ensures ys[0] < xs[0] ==>
      && MergeSeqs(xs, ys) == [ys[0]] + MergeSeqs(xs, ys[1..])
      && MergeComparisons(xs, ys) == 1 + MergeComparisons(xs, ys[1..])
  {
  }

  /** One turn of the first loop of `merge`, on the cursors i and j. */
  lemma InterleaveStep(s: seq<int>, i: int, mid: int, j: int, right: int)
    requires 0 <= i <= mid < j <= right < |s|
    ensures s[i] <= s[j] ==>
      && MergeSeqs(s[i..mid + 1], s[j..right + 1]) == [s[i]] + MergeSeqs(s[i + 1..mid + 1], s[j..right + 1])
      && MergeComparisons(s[i..mid + 1], s[j..right + 1]) == 1 + MergeComparisons(s[i + 1..mid + 1], s[j..right + 1])
    ensures s[j] < s[i] ==>
      && MergeSeqs(s[i..mid + 1], s[j..right + 1]) == [s[j]] + MergeSeqs(s[i..mid + 1], s[j + 1..right + 1])
      && MergeComparisons(s[i..mid + 1], s[j..right + 1]) == 1 + MergeComparisons(s[i..mid + 1], s[j + 1..right + 1])
  {
    assert s[i..mid + 1][1..] == s[i + 1..mid + 1];
    assert s[j..right + 1][1..] == s[j + 1..right + 1];
    MergeHead(s[i..mid + 1], s[j..right + 1]);
  }

  /** The same turn, stated on what has been written so far (`done`). */
  lemma TakeHeadMerge(done: seq<int>, s: seq<int>, i: int, mid: int, j: int, right: int)
    requires 0 <= i <= mid < j <= right < |s|
    ensures s[i] <= s[j] ==>
      && (done + [s[i]]) + MergeSeqs(s[i + 1..mid + 1], s[j..right + 1]) == done + MergeSeqs(s[i..mid + 1], s[j..right + 1])
      && 1 + MergeComparisons(s[i + 1..mid + 1], s[j..right + 1]) == MergeComparisons(s[i..mid + 1], s[j..right + 1])
    ensures s[j] < s[i] ==>
      && (done + [s[j]]) + MergeSeqs(s[i..mid + 1], s[j + 1..right + 1]) == done + MergeSeqs(s[i..mid + 1], s[j..right + 1])
      && 1 + MergeComparisons(s[i..mid + 1], s[j + 1..right + 1]) == MergeComparisons(s[i..mid + 1], s[j..right + 1])
  {
    InterleaveStep(s, i, mid, j, right);
    if s[i] <= s[j] {
      var m := MergeSeqs(s[i + 1..mid + 1], s[j..right + 1]);
      assert done + ([s[i]] + m) == (done + [s[i]]) + m;
    } else {
      var m := MergeSeqs(s[i..mid + 1], s[j + 1..right + 1]);
      assert done + ([s[j]] + m) == (done + [s[j]]) + m;
    }
  }

  /** A lower bound of both runs bounds their merge. */
  lemma {:induction false} MergeAtLeast(xs: seq<int>, ys: seq<int>, v: int)
    requires forall k :: 0 <= k < |xs| ==> v <= xs[k]
    requires forall k :: 0 <= k < |ys| ==> v <= ys[k]
    ensures forall k :: 0 <= k < |MergeSeqs(xs, ys)| ==> v <= MergeSeqs(xs, ys)[k]
    decreases |xs| + |ys|
  {
    if xs != [] && ys != [] {
      if xs[0] <= ys[0] {
        MergeAtLeast(xs[1..], ys, v);
        assert MergeSeqs(xs, ys) == [xs[0]] + MergeSeqs(xs[1..], ys);
      } else {
        MergeAtLeast(xs, ys[1..], v);
        assert MergeSeqs(xs, ys) == [ys[0]] + MergeSeqs(xs, ys[1..]);
      }
    }
  }

  /** Merging two sorted runs gives a sorted run. */
  lemma {:induction false} MergeSorted(xs: seq<int>, ys: seq<int>)
    requires Sorted(xs) && Sorted(ys)
    ensures Sorted(MergeSeqs(xs, ys))
    decreases |xs| + |ys|
  {
    if xs != [] && ys != [] {
      if xs[0] <= ys[0] {
        MergeSorted(xs[1..], ys);
        MergeAtLeast(xs[1..], ys, xs[0]);
        ConsSorted(xs[0], MergeSeqs(xs[1..], ys));
      } else {
        MergeSorted(xs, ys[1..]);
        MergeAtLeast(xs, ys[1..], ys[0]);
        ConsSorted(ys[0], MergeSeqs(xs, ys[1..]));
      }
    }
  }

  /**
   * The step of `sort(l, r)`: a1 has a[l..m] sorted, a2 keeps that and
   * sorts a[m + 1..r], and a3 is a2 with the two halves merged; so a3 has
   * a[l..r] sorted and is a rearrangement of a2.
   */
  lemma MergedRange(a0: seq<int>, a1: seq<int>, a2: seq<int>, a3: seq<int>, l: int, m: int, r: int)
    requires 0 <= l <= m < r < |a0| == |a1| == |a2| == |a3|
    requires SortedWithin(a1, l, m) && AgreeOutside(a1, a0, l, m)
    requires SortedWithin(a2, m + 1, r) && AgreeOutside(a2, a1, m + 1, r)
    requires a3[l..r + 1] == MergeSeqs(a2[l..m + 1], a2[m + 1..r + 1]) && AgreeOutside(a3, a2, l, r)
    ensures SortedWithin(a3, l, r) && AgreeOutside(a3, a0, l, r)
    ensures multiset(a3) == multiset(a2)
  {
    assert a2[l..m + 1] == a1[l..m + 1];
    var xs, ys := a2[l..m + 1], a2[m + 1..r + 1];
    SliceSorted(a1, l, m);
    SliceSorted(a2, m + 1, r);
    MergeSorted(xs, ys);
    SortedFromSlice(a3, l, r);
    MergePermutes(xs, ys);
    var zs, ws := a3[l..r + 1], a2[l..r + 1];
    assert ws == xs + ys;
    assert multiset(zs) == multiset(ws);
    PermutedInRange(a3, a2, l, r);
  }

  /** Rearranging s[l..r] and nothing else keeps the multiset of s. */
  lemma PermutedInRange(s: seq<int>, t: seq<int>, l: int, r: int)
    requires 0 <= l <= r < |s| && AgreeOutside(s, t, l, r)
    requires multiset(s[l..r + 1]) == multiset(t[l..r + 1])
    ensures multiset(s) == multiset(t)
  {
    assert s == s[..l] + s[l..r + 1] + s[r + 1..];
    assert t == t[..l] + t[l..r + 1] + t[r + 1..];
    assert s[..l] == t[..l];
    assert s[r + 1..] == t[r + 1..];
  }

  /** A range sorted in place gives a sorted slice. */
  lemma SliceSorted(s: seq<int>, l: int, r: int)
    requires 0 <= l <= r < |s| && SortedWithin(s, l, r)
    ensures Sorted(s[l..r + 1])
  {
    var t := s[l..r + 1];
    forall x, y | 0 <= x < y < |t|
      ensures t[x] <= t[y]
    {
      assert t[x] == s[l + x] && t[y] == s[l + y];
    }
  }

  /** ... and conversely. */
  lemma SortedFromSlice(s: seq<int>, l: int, r: int)
    requires 0 <= l <= r < |s| && Sorted(s[l..r + 1])
    ensures SortedWithin(s, l, r)
  {
    forall x, y | l <= x < y <= r
      ensures s[x] <= s[y]
    {
      assert s[x] == s[l..r + 1][x - l] && s[y] == s[l..r + 1][y - l];
    }
  }

  /**
   * The counters of `sort(l, r)`, read before it (c0, w0) and after it (c, w):
   * the writes are exactly RangeWrites(l, r), and the comparisons never
   * decrease and stay below the writes by at least r - l, one per merge.
   */
  ghost predicate SortCost(c0: int, c: int, w0: int, w: int, l: int, r: int)
  {
    c0 <= c && c - c0 + (r - l) <= w - w0 && w == w0 + RangeWrites(l, r)
  }

  /**
   * The writes of `sort(l, r)`, following its recursion: the two halves
   * around m = floor((l + r) / 2), then a merge that writes the whole range.
   */
  function RangeWrites(l: int, r: int): (w: nat)
    ensures l < r ==> r - l + 1 <= w
    ensures r <= l ==> w == 0
    decreases r - l
  {
    if l < r then RangeWrites(l, (l + r) / 2) + RangeWrites((l + r) / 2 + 1, r) + (r - l + 1) else 0
  }

  /** The writes of `sort(l, r)` depend only on the size n of the range. */
  lemma {:induction false} RangeWritesSize(l: int, r: int, n: int)
    requires n == r - l + 1
    ensures RangeWrites(l, r) == SortWrites(n)
    decreases r - l
  {
    if l < r {
      var m := (l + r) / 2;
      var n1, n2 := m - l + 1, r - m;
      RangeWritesSize(l, m, n1);
      RangeWritesSize(m + 1, r, n2);
      SortWritesSplit(n, n1, n2);
    }
  }

  /** The writes of a sort split into the halves' writes and the top merge's. */
  lemma SortWritesSplit(n: int, h1: int, h2: int)
    requires 1 <= h2 && (h1 == h2 || h1 == h2 + 1) && n == h1 + h2
    ensures SortWrites(n) == SortWrites(h1) + SortWrites(h2) + n
  {
    HalfBounds(n);
    assert Half(n) == h2;
  }

  /**
   * Where each element of `MergeSeqs(xs, ys)` comes from: its position in the
   * array, when xs starts at position ox and ys at position oy.
   */
  function MergeOrigins(xs: seq<int>, ys: seq<int>, ox: int, oy: int): (o: seq<int>)
    ensures |o| == |xs| + |ys|
    decreases |xs| + |ys|
  {
    if xs == [] then seq(|ys|, k => oy + k)
    else if ys == [] then seq(|xs|, k => ox + k)
    else if xs[0] <= ys[0] then [ox] + MergeOrigins(xs[1..], ys, ox + 1, oy)
    else [oy] + MergeOrigins(xs, ys[1..], ox, oy + 1)
  }

  /** v is the element of xs or of ys at position o, xs starting at ox and ys at oy. */
  ghost predicate FromRuns(v: int, o: int, xs: seq<int>, ys: seq<int>, ox: int, oy: int)
  {
    || (ox <= o < ox + |xs| && v == xs[o - ox])
    || (oy <= o < oy + |ys| && v == ys[o - oy])
  }

  /** Every element of the merge is the element of xs or of ys at its origin. */
  lemma {:induction false} MergeOriginsTrace(xs: seq<int>, ys: seq<int>, ox: int, oy: int)
    ensures |MergeSeqs(xs, ys)| == |xs| + |ys|
    ensures forall p :: 0 <= p < |xs| + |ys| ==>
      FromRuns(MergeSeqs(xs, ys)[p], MergeOrigins(xs, ys, ox, oy)[p], xs, ys, ox, oy)
    decreases |xs| + |ys|
  {
    if xs == [] || ys == [] {
      TraceRunOut(xs, ys, ox, oy);
    } else if xs[0] <= ys[0] {
      MergeOriginsTrace(xs[1..], ys, ox + 1, oy);
      TraceTakeLeft(xs, ys, ox, oy);
    } else {
      MergeOriginsTrace(xs, ys[1..], ox, oy + 1);
      TraceTakeRight(xs, ys, ox, oy);
    }
  }

  /** The trace once one run is exhausted: the merge is the other run, in place. */
  lemma TraceRunOut(xs: seq<int>, ys: seq<int>, ox: int, oy: int)
    requires xs == [] || ys == []
    ensures |MergeSeqs(xs, ys)| == |xs| + |ys|
    ensures forall p :: 0 <= p < |xs| + |ys| ==>
      FromRuns(MergeSeqs(xs, ys)[p], MergeOrigins(xs, ys, ox, oy)[p], xs, ys, ox, oy)
  {
    var m, o := MergeSeqs(xs, ys), MergeOrigins(xs, ys, ox, oy);
    if xs == [] {
      assert m == ys;
      forall p | 0 <= p < |m|
        ensures FromRuns(m[p], o[p], xs, ys, ox, oy)
      {
        assert o[p] == oy + p;
      }
    } else {
      assert m == xs;
      forall p | 0 <= p < |m|
        ensures FromRuns(m[p], o[p], xs, ys, ox, oy)
      {
        assert o[p] == ox + p;
      }
    }
  }

  /** The trace step when the left head is taken. */
  lemma TraceTakeLeft(xs: seq<int>, ys: seq<int>, ox: int, oy: int)
    requires xs != [] && ys != [] && xs[0] <= ys[0]
    requires |MergeSeqs(xs[1..], ys)| == |xs| - 1 + |ys|
    requires forall p :: 0 <= p < |xs| - 1 + |ys| ==>
      FromRuns(MergeSeqs(xs[1..], ys)[p], MergeOrigins(xs[1..], ys, ox + 1, oy)[p], xs[1..], ys, ox + 1, oy)
    ensures |MergeSeqs(xs, ys)| == |xs| + |ys|
    ensures forall p :: 0 <= p < |xs| + |ys| ==>
      FromRuns(MergeSeqs(xs, ys)[p], MergeOrigins(xs, ys, ox, oy)[p], xs, ys, ox, oy)
  {
    var m, o := MergeSeqs(xs, ys), MergeOrigins(xs, ys, ox, oy);
    var m', o' := MergeSeqs(xs[1..], ys), MergeOrigins(xs[1..], ys, ox + 1, oy);
    assert m == [xs[0]] + m' && o == [ox] + o';
    forall p | 0 <= p < |m|
      ensures FromRuns(m[p], o[p], xs, ys, ox, oy)
    {
      if 0 < p {
        assert m[p] == m'[p - 1] && o[p] == o'[p - 1];
        assert FromRuns(m'[p - 1], o'[p - 1], xs[1..], ys, ox + 1, oy);
        if ox + 1 <= o'[p - 1] < ox + |xs| {
          var k := o'[p - 1] - ox - 1;
          assert xs[1..][k] == xs[k + 1];
        }
      }
    }
  }

  /** The trace step when the right head is taken. */
  lemma TraceTakeRight(xs: seq<int>, ys: seq<int>, ox: int, oy: int)
    requires xs != [] && ys != [] && ys[0] < xs[0]
    requires |MergeSeqs(xs, ys[1..])| == |xs| + |ys| - 1
    requires forall p :: 0 <= p < |xs| + |ys| - 1 ==>
      FromRuns(MergeSeqs(xs, ys[1..])[p], MergeOrigins(xs, ys[1..], ox, oy + 1)[p], xs, ys[1..], ox, oy + 1)
    ensures |MergeSeqs(xs, ys)| == |xs| + |ys|
    ensures forall p :: 0 <= p < |xs| + |ys| ==>
      FromRuns(MergeSeqs(xs, ys)[p], MergeOrigins(xs, ys, ox, oy)[p], xs, ys, ox, oy)
  {
    var m, o := MergeSeqs(xs, ys), MergeOrigins(xs, ys, ox, oy);
    var m', o' := MergeSeqs(xs, ys[1..]), MergeOrigins(xs, ys[1..], ox, oy + 1);
    assert m == [ys[0]] + m' && o == [oy] + o';
    forall p | 0 <= p < |m|
      ensures FromRuns(m[p], o[p], xs, ys, ox, oy)
    {
      if 0 < p {
        assert m[p] == m'[p - 1] && o[p] == o'[p - 1];
        assert FromRuns(m'[p - 1], o'[p - 1], xs, ys[1..], ox, oy + 1);
        if oy + 1 <= o'[p - 1] < oy + |ys| {
          var k := o'[p - 1] - oy - 1;
          assert ys[1..][k] == ys[k + 1];
        }
      }
    }
  }

  /** Equal elements of `m` appear in the order of their origins `o`. */
  ghost predicate Stable(m: seq<int>, o: seq<int>)
  {
    |m| == |o| && forall p, q :: 0 <= p < q < |m| && m[p] == m[q] ==> o[p] < o[q]
  }

  /**
   * The merge is stable: when the left run lies before the right one, two
   * equal elements leave the merge in the order of their positions, because
   * a tie takes the left element.
   */
  lemma {:induction false} MergeStable(xs: seq<int>, ys: seq<int>, ox: int, oy: int)
    requires Sorted(xs) && Sorted(ys) && ox + |xs| <= oy
    ensures |MergeSeqs(xs, ys)| == |xs| + |ys|
    ensures Stable(MergeSeqs(xs, ys), MergeOrigins(xs, ys, ox, oy))
    decreases |xs| + |ys|, 1
  {
    if xs != [] && ys != [] {
      if xs[0] <= ys[0] {
        StableLeftCase(xs, ys, ox, oy);
      } else {
        StableRightCase(xs, ys, ox, oy);
      }
    }
  }

  /** MergeStable when the left head is taken. */
  lemma {:induction false} StableLeftCase(xs: seq<int>, ys: seq<int>, ox: int, oy: int)
    requires Sorted(xs) && Sorted(ys) && ox + |xs| <= oy
    requires xs != [] && ys != [] && xs[0] <= ys[0]
    ensures |MergeSeqs(xs, ys)| == |xs| + |ys|
    ensures Stable(MergeSeqs(xs, ys), MergeOrigins(xs, ys, ox, oy))
    decreases |xs| + |ys|, 0
  {
    MergeStable(xs[1..], ys, ox + 1, oy);
    OriginsAbove(xs[1..], ys, ox + 1, oy, ox + 1);
    StableTakeLeft(xs, ys, ox, oy, MergeOrigins(xs[1..], ys, ox + 1, oy));
  }

  /** MergeStable when the right head is taken. */
  lemma {:induction false} StableRightCase(xs: seq<int>, ys: seq<int>, ox: int, oy: int)
    requires Sorted(xs) && Sorted(ys) && ox + |xs| <= oy
    requires xs != [] && ys != [] && ys[0] < xs[0]
    ensures |MergeSeqs(xs, ys)| == |xs| + |ys|
    ensures Stable(MergeSeqs(xs, ys), MergeOrigins(xs, ys, ox, oy))
    decreases |xs| + |ys|, 0
  {
    MergeStable(xs, ys[1..], ox, oy + 1);
    MergeOriginsTrace(xs, ys[1..], ox, oy + 1);
    StableTakeRight(xs, ys, ox, oy);
  }

  /** No origin lies below a bound both starts respect. */
  lemma {:induction false} OriginsAbove(xs: seq<int>, ys: seq<int>, ox: int, oy: int, lo: int)
    requires lo <= ox && lo <= oy
    ensures forall p :: 0 <= p < |xs| + |ys| ==> lo <= MergeOrigins(xs, ys, ox, oy)[p]
    decreases |xs| + |ys|
  {
    var o := MergeOrigins(xs, ys, ox, oy);
    if xs == [] || ys == [] {
    } else if xs[0] <= ys[0] {
      OriginsAbove(xs[1..], ys, ox + 1, oy, lo);
      assert o == [ox] + MergeOrigins(xs[1..], ys, ox + 1, oy);
    } else {
      OriginsAbove(xs, ys[1..], ox, oy + 1, lo);
      assert o == [oy] + MergeOrigins(xs, ys[1..], ox, oy + 1);
    }
  }

  /** Putting in front an element whose equals all have later origins keeps the order stable. */
  lemma StableCons(v: int, ov: int, m: seq<int>, o: seq<int>)
    requires Stable(m, o)
    requires forall p :: 0 <= p < |m| && m[p] == v ==> ov < o[p]
    ensures Stable([v] + m, [ov] + o)
  {
    var m1, o1 := [v] + m, [ov] + o;
    forall p, q | 0 <= p < q < |m1| && m1[p] == m1[q]
      ensures o1[p] < o1[q]
    {
      assert m1[q] == m[q - 1] && o1[q] == o[q - 1];
      if 0 < p {
        assert m1[p] == m[p - 1] && o1[p] == o[p - 1];
      }
    }
  }

  /** The stability step when the left head is taken: it has the least origin of all. */
  lemma StableTakeLeft(xs: seq<int>, ys: seq<int>, ox: int, oy: int, rest: seq<int>)
    requires xs != [] && ys != [] && xs[0] <= ys[0] && ox + |xs| <= oy
    requires |MergeSeqs(xs[1..], ys)| == |xs| - 1 + |ys|
    requires rest == MergeOrigins(xs[1..], ys, ox + 1, oy)
    requires forall p :: 0 <= p < |rest| ==> ox < rest[p]
    requires Stable(MergeSeqs(xs[1..], ys), rest)
    ensures |MergeSeqs(xs, ys)| == |xs| + |ys|
    ensures Stable(MergeSeqs(xs, ys), MergeOrigins(xs, ys, ox, oy))
  {
    StableCons(xs[0], ox, MergeSeqs(xs[1..], ys), rest);
  }

  /**
   * The stability step when the right head is taken: no element of the left
   * run equals it, since every one of them is at least xs[0], above ys[0].
   */
  lemma StableTakeRight(xs: seq<int>, ys: seq<int>, ox: int, oy: int)
    requires xs != [] && ys != [] && ys[0] < xs[0] && Sorted(xs) && ox + |xs| <= oy
    requires |MergeSeqs(xs, ys[1..])| == |xs| + |ys| - 1
    requires forall p :: 0 <= p < |xs| + |ys| - 1 ==>
      FromRuns(MergeSeqs(xs, ys[1..])[p], MergeOrigins(xs, ys[1..], ox, oy + 1)[p], xs, ys[1..], ox, oy + 1)
    requires Stable(MergeSeqs(xs, ys[1..]), MergeOrigins(xs, ys[1..], ox, oy + 1))
    ensures |MergeSeqs(xs, ys)| == |xs| + |ys|
    ensures Stable(MergeSeqs(xs, ys), MergeOrigins(xs, ys, ox, oy))
  {
    var m', o' := MergeSeqs(xs, ys[1..]), MergeOrigins(xs, ys[1..], ox, oy + 1);
    forall p | 0 <= p < |m'| && m'[p] == ys[0]
      ensures oy < o'[p]
    {
      assert FromRuns(m'[p], o'[p], xs, ys[1..], ox, oy + 1);
    }
    StableCons(ys[0], oy, m', o');
  }

  /**
   * The first loop makes at most one comparison per element moved, never one
   * for the last element, and at least one per element of the shorter run.
   */
  lemma {:induction false} MergeComparisonsBounds(xs: seq<int>, ys: seq<int>)
    ensures xs != [] && ys != [] ==> MergeComparisons(xs, ys) <= |xs| + |ys| - 1
    ensures MergeComparisons(xs, ys) >= (if |xs| < |ys| then |xs| else |ys|)
    decreases |xs| + |ys|
  {
    if xs != [] && ys != [] {
      if xs[0] <= ys[0] {
        MergeComparisonsBounds(xs[1..], ys);
      } else {
        MergeComparisonsBounds(xs, ys[1..]);
      }
    }
  }

  /** floor(n / 2) for n >= 0, counted down in twos. */
  function Half(n: int): int
    decreases n
  {
    if n <= 1 then 0 else Half(n - 2) + 1
  }

  /** Half(n) is floor(n / 2): n == 2h or n == 2h + 1. */
  lemma {:induction false} HalfBounds(n: int)
    ensures 0 <= Half(n) && (n <= 1 ==> Half(n) == 0)
    ensures 0 <= n ==> 2 * Half(n) <= n <= 2 * Half(n) + 1
    decreases n
  {
    if 1 < n {
      HalfBounds(n - 2);
    }
  }

  /** ceil(log2 n): the depth of the recursion of `sort` over n elements. */
  function CeilLog(n: int): nat
    decreases n
  {
    if n <= 1 then 0 else HalfBounds(n); 1 + CeilLog(n - Half(n))
  }

  /** A longer range recurses at least as deep. */
  lemma {:induction false} CeilLogMonotone(m: int, n: int)
    requires m <= n
    ensures CeilLog(m) <= CeilLog(n)
    decreases n
  {
    if 1 < m {
      HalfBounds(m);
      HalfBounds(n);
      CeilLogMonotone(m - Half(m), n - Half(n));
    }
  }

  /**
   * The writes of `sort` over n elements: each merge writes its whole range,
   * and `sort(l, r)` splits at floor((l + r) / 2), so the left half holds
   * ceil(n / 2) elements and the right half floor(n / 2).
   */
  function SortWrites(n: int): nat
    decreases n
  {
    if n <= 1 then 0 else HalfBounds(n); SortWrites(n - Half(n)) + SortWrites(Half(n)) + n
  }

  /** The writes are at most n * ceil(log2 n). */
  lemma {:induction false} SortWritesBound(n: int)
    ensures SortWrites(n) <= (if n <= 0 then 0 else n * CeilLog(n))
    decreases n
  {
    if 1 < n {
      var d := CeilLog(n);
      HalfBounds(n);
      var h1, h2 := n - Half(n), Half(n);
      assert 1 <= h2 <= h1 && h1 + h2 == n && CeilLog(h1) == d - 1;
      SortWritesBound(h1);
      SortWritesBound(h2);
      CeilLogMonotone(h2, h1);
      SplitArithmetic(h1, h2, d - 1, SortWrites(h1), SortWrites(h2), CeilLog(h2));
    }
  }

  /** The halves' bounds add up to the whole's, one level deeper. */
  lemma SplitArithmetic(h1: nat, h2: nat, e: int, w1: int, w2: int, l2: int)
    requires w1 <= h1 * e && w2 <= h2 * l2 && l2 <= e
    ensures w1 + w2 + (h1 + h2) <= (h1 + h2) * (e + 1)
  {
    assert h2 * l2 <= h2 * e;
    assert (h1 + h2) * (e + 1) == h1 * e + h2 * e + h1 + h2;
  }

  class MergeSortVisualizer {
    var arr: seq<int>
    var comparisons: nat
    var writes: nat
    var isSorting: bool
    var highlight: Highlight

    constructor ()
      ensures arr == [12, 4, 8, 20, 1, 15, 7, 3, 10, 2, 18, 9, 11, 6, 5]
      ensures comparisons == 0 && writes == 0 && !isSorting && highlight == NoHighlight
    {
      arr := [12, 4, 8, 20, 1, 15, 7, 3, 10, 2, 18, 9, 11, 6, 5];
      comparisons, writes := 0, 0;
      isSorting := false;
      highlight := NoHighlight;
    }

    /** Publishes a highlight; the requires is the bound every publication must meet. */
    method Show(h: Highlight, n: int)
      requires h.Halves? ==> 0 <= h.left.0 <= h.left.1 && h.right.0 == h.left.1 + 1 && h.right.0 <= h.right.1 < n
      requires h.Merging? ==> 0 <= h.range.0 <= h.range.1 < n
      modifies this`highlight
      ensures highlight == h
    {
      highlight := h;
    }

    /** The random-array button: twenty draws from 1 to 100; the counters are kept. */
    method HandleRandom(draws: seq<int>)
      requires |draws| == 20
      requires forall k :: 0 <= k < |draws| ==> 1 <= draws[k] <= 100
      modifies this`arr
      ensures arr == draws
    {
      arr := draws;
    }

    /**
     * Editing the text: the parsed numbers replace the array even when the
     * parse is empty; this visualizer keeps no previous array.
     */
    method HandleLoadFromText(parsed: seq<int>)
      modifies this`arr
      ensures arr == parsed
    {
      arr := parsed;
    }

    /**
     * `merge(left, mid, right)`: merges the sorted runs a[left..mid] and
     * a[mid + 1..right] into aux[left..right] with the cursors i, j and k,
     * then copies that range back into `a`.
     */
    method Merge(a: array<int>, aux: array<int>, left: int, mid: int, right: int)
      requires a != aux && a.Length == aux.Length
      requires 0 <= left <= mid < right < a.Length
      modifies this`comparisons, this`writes, this`arr, this`highlight, a, aux
      ensures a[left..right + 1] == MergeSeqs(old(a[left..mid + 1]), old(a[mid + 1..right + 1]))
      ensures aux[left..right + 1] == a[left..right + 1]
      ensures forall t :: 0 <= t < a.Length && (t < left || right < t) ==> a[t] == old(a[t]) && aux[t] == old(aux[t])
      ensures comparisons == old(comparisons) + MergeComparisons(old(a[left..mid + 1]), old(a[mid + 1..right + 1]))
      ensures comparisons - old(comparisons) <= right - left
      ensures writes == old(writes) + (right - left + 1)
      ensures arr == a[..] && highlight == Merging((left, right))
    {
      Show(Halves((left, mid), (mid + 1, right)), a.Length);
      Fill(a, aux, left, mid, right);
      CopyBack(a, aux, left, right);
    }

    /** The three loops of `merge`, which fill aux[left..right] with the merge. */
    method Fill(a: array<int>, aux: array<int>, left: int, mid: int, right: int)
      requires a != aux && a.Length == aux.Length
      requires 0 <= left <= mid < right < a.Length
      modifies this`comparisons, this`writes, this`arr, this`highlight, aux
      ensures aux[left..right + 1] == MergeSeqs(a[left..mid + 1], a[mid + 1..right + 1])
      ensures forall t :: 0 <= t < aux.Length && (t < left || right < t) ==> aux[t] == old(aux[t])
      ensures comparisons == old(comparisons) + MergeComparisons(a[left..mid + 1], a[mid + 1..right + 1])
      ensures comparisons - old(comparisons) <= right - left
      ensures writes == old(writes) + (right - left + 1)
      ensures arr == aux[..] && highlight == Merging((left, right))
    {
      var i, j, k := Interleave(a, aux, left, mid, right);
      assert comparisons - old(comparisons) <= right - left by {
        MergeComparisonsBounds(a[left..mid + 1], a[mid + 1..right + 1]);
      }
      if i <= mid {
        assert MergeSeqs(a[i..mid + 1], a[j..right + 1]) == a[i..mid + 1];
      } else {
        assert a[i..mid + 1] == [];
      }
      k := Drain(a, aux, i, mid, k, left, right);
      k := Drain(a, aux, j, right, k, left, right);
    }

    /**
     * The first loop of `merge`: while both runs have elements left, one
     * comparison picks the smaller head, the left one on a tie, and writes it
     * to aux[k].
     */
    method Interleave(a: array<int>, aux: array<int>, left: int, mid: int, right: int) returns (i: int, j: int, k: int)
      requires a != aux && a.Length == aux.Length
      requires 0 <= left <= mid < right < a.Length
      modifies this`comparisons, this`writes, this`arr, this`highlight, aux
      ensures left <= i <= mid + 1 <= j <= right + 1 && k == i + j - mid - 1 && left < k
      ensures mid < i || right < j
      ensures aux[left..k] + MergeSeqs(a[i..mid + 1], a[j..right + 1]) == MergeSeqs(a[left..mid + 1], a[mid + 1..right + 1])
      ensures forall t :: 0 <= t < aux.Length && (t < left || k <= t) ==> aux[t] == old(aux[t])
      ensures comparisons == old(comparisons) + MergeComparisons(a[left..mid + 1], a[mid + 1..right + 1])
      ensures writes == old(writes) + (k - left)
      ensures arr == aux[..] && highlight == Merging((left, right))
    {
      ghost var A := a[..];
      ghost var xs, ys := A[left..mid + 1], A[mid + 1..right + 1];
      i, j, k := left, mid + 1, left;
      while i <= mid && j <= right
        invariant left <= i <= mid + 1 <= j <= right + 1 && k == i + j - mid - 1
        invariant a[..] == A
        invariant aux[left..k] + MergeSeqs(A[i..mid + 1], A[j..right + 1]) == MergeSeqs(xs, ys)
        invariant comparisons - old(comparisons) + MergeComparisons(A[i..mid + 1], A[j..right + 1]) == MergeComparisons(xs, ys)
        invariant writes == old(writes) + (k - left)
        invariant forall t :: 0 <= t < aux.Length && (t < left || k <= t) ==> aux[t] == old(aux[t])
        invariant left < k ==> arr == aux[..] && highlight == Merging((left, right))
      {
        i, j := TakeHead(a, aux, left, mid, right, i, j, k, A);
        k := k + 1;
      }
      assert A[left..mid + 1] == a[left..mid + 1] && A[mid + 1..right + 1] == a[mid + 1..right + 1];
      assert A[i..mid + 1] == a[i..mid + 1] && A[j..right + 1] == a[j..right + 1];
    }

    /**
     * One turn of the first loop of `merge`: a comparison of the two heads,
     * and the smaller one (the left one on a tie) written to aux[k]; `s` is
     * the contents of `a`, which the merge only reads.
     */
    method TakeHead(a: array<int>, aux: array<int>, left: int, mid: int, right: int, i: int, j: int, k: int, ghost s: seq<int>)
      returns (i': int, j': int)
      requires a != aux && a.Length == aux.Length && s == a[..]
      requires 0 <= left <= i <= mid < j <= right < a.Length && k == i + j - mid - 1
      modifies this`comparisons, this`writes, this`arr, this`highlight, aux
      ensures (i', j') == if s[i] <= s[j] then (i + 1, j) else (i, j + 1)
      ensures aux[left..k + 1] + MergeSeqs(s[i'..mid + 1], s[j'..right + 1])
        == old(aux[left..k]) + MergeSeqs(s[i..mid + 1], s[j..right + 1])
      ensures comparisons + MergeComparisons(s[i'..mid + 1], s[j'..right + 1])
        == old(comparisons) + MergeComparisons(s[i..mid + 1], s[j..right + 1])
      ensures forall t :: 0 <= t < aux.Length && t != k ==> aux[t] == old(aux[t])
      ensures writes == old(writes) + 1
      ensures arr == aux[..] && highlight == Merging((left, right))
    {
      ghost var done := aux[left..k];
      TakeHeadMerge(done, s, i, mid, j, right);
      comparisons := comparisons + 1;
      if a[i] <= a[j] {
        aux[k] := a[i];
        i', j' := i + 1, j;
        assert aux[left..k + 1] == done + [s[i]];
      } else {
        aux[k] := a[j];
        i', j' := i, j + 1;
        assert aux[left..k + 1] == done + [s[j]];
      }
      writes := writes + 1;
      arr := aux[..];
      Show(Merging((left, right)), a.Length);
    }

    /**
     * The second and third loops of `merge`: the rest a[from..to] of one run
     * is written to aux from position k on, without comparisons.
     */
    method Drain(a: array<int>, aux: array<int>, from: int, to: int, k: int, left: int, right: int) returns (k': int)
      requires a != aux && a.Length == aux.Length
      requires 0 <= from <= to + 1 <= a.Length
      requires 0 <= left <= k && k + (to + 1 - from) <= right + 1 <= a.Length
      requires arr == aux[..] && highlight == Merging((left, right))
      modifies this`writes, this`arr, this`highlight, aux
      ensures k' == k + (to + 1 - from)
      ensures aux[left..k'] == old(aux[left..k]) + a[from..to + 1]
      ensures forall t :: 0 <= t < aux.Length && (t < k || k' <= t) ==> aux[t] == old(aux[t])
      ensures writes == old(writes) + (k' - k)
      ensures arr == aux[..] && highlight == Merging((left, right))
    {
      var i := from;
      k' := k;
      while i <= to
        invariant from <= i <= to + 1 && k' == k + (i - from)
        invariant aux[left..k'] == old(aux[left..k]) + a[from..i]
        invariant forall t :: 0 <= t < aux.Length && (t < k || k' <= t) ==> aux[t] == old(aux[t])
        invariant writes == old(writes) + (k' - k)
        invariant arr == aux[..] && highlight == Merging((left, right))
      {
        ghost var done := aux[left..k'];
        aux[k'] := a[i];
        assert aux[left..k' + 1] == done + [a[i]];
        assert a[from..i + 1] == a[from..i] + [a[i]];
        i, k' := i + 1, k' + 1;
        writes := writes + 1;
        arr := aux[..];
        Show(Merging((left, right)), a.Length);
      }
    }

    /** The copy-back loop of `merge`: aux[left..right] into `a`, one element at a time. */
    method CopyBack(a: array<int>, aux: array<int>, left: int, right: int)
      requires a != aux && a.Length == aux.Length
      requires 0 <= left <= right < a.Length
      modifies this`arr, a
      ensures a[left..right + 1] == aux[left..right + 1]
      ensures forall t :: 0 <= t < a.Length && (t < left || right < t) ==> a[t] == old(a[t])
      ensures arr == a[..]
    {
      for idx := left to right + 1
        invariant a[left..idx] == aux[left..idx]
        invariant forall t :: 0 <= t < a.Length && (t < left || idx <= t) ==> a[t] == old(a[t])
        invariant left < idx ==> arr == a[..]
      {
        a[idx] := aux[idx];
        arr := a[..];
      }
    }

    /**
     * `sort(l, r)`: sorts a[l..r] by sorting both halves around
     * m = floor((l + r) / 2) and merging them; a range of at most one element
     * is left alone. Every merge writes its whole range and compares less
     * often than it writes, so the comparisons stay below the writes by at
     * least the number of merges, n - 1.
     */
    method Sort(a: array<int>, aux: array<int>, l: int, r: int)
      requires a != aux && a.Length == aux.Length
      requires l < r ==> 0 <= l && r < a.Length
      modifies this`comparisons, this`writes, this`arr, this`highlight, a, aux
      decreases r - l
      ensures SortedWithin(a[..], l, r) && AgreeOutside(a[..], old(a[..]), l, r)
      ensures multiset(a[..]) == multiset(old(a[..]))
      ensures r <= l ==> unchanged(this) && unchanged(aux) && a[..] == old(a[..])
      ensures l < r ==> arr == a[..] && highlight == Merging((l, r))
      ensures SortCost(old(comparisons), comparisons, old(writes), writes, l, r)
    {
      if l < r {
        ghost var a0 := a[..];
        var m := (l + r) / 2;
        Sort(a, aux, l, m);
        ghost var a1 := a[..];
        Sort(a, aux, m + 1, r);
        MergeHalves(a, aux, l, m, r, a0, a1);
      }
    }

    /**
     * The last step of `sort(l, r)`: with both halves sorted, `merge(l, m, r)`
     * leaves the whole range sorted, and the counters of the two halves and
     * of the merge add up to those of the whole range.
     */
    method MergeHalves(a: array<int>, aux: array<int>, l: int, m: int, r: int, ghost a0: seq<int>, ghost a1: seq<int>)
      requires a != aux && a.Length == aux.Length
      requires 0 <= l <= m < r < a.Length
      requires |a0| == |a1| == a.Length
      requires SortedWithin(a1, l, m) && AgreeOutside(a1, a0, l, m)
      requires SortedWithin(a[..], m + 1, r) && AgreeOutside(a[..], a1, m + 1, r)
      modifies this`comparisons, this`writes, this`arr, this`highlight, a, aux
      ensures SortedWithin(a[..], l, r) && AgreeOutside(a[..], a0, l, r)
      ensures multiset(a[..]) == multiset(old(a[..]))
      ensures arr == a[..] && highlight == Merging((l, r))
      ensures old(comparisons) <= comparisons <= old(comparisons) + (r - l) && writes == old(writes) + (r - l + 1)
    {
      ghost var a2 := a[..];
      Merge(a, aux, l, m, r);
      MergedRange(a0, a1, a2, a[..], l, m, r);
    }

    /**
     * `mergeSortVisual(a)`: marks a sort as running, fills `aux` with a copy
     * of `a`, sorts the whole of `a` and clears the highlight.
     */
    method MergeSortVisual(a: array<int>)
      modifies this, a
      ensures Sorted(a[..]) && multiset(a[..]) == multiset(old(a[..]))
      ensures 2 <= a.Length ==> arr == a[..]
      ensures a.Length < 2 ==> arr == old(arr) && a[..] == old(a[..])
      ensures writes == old(writes) + SortWrites(a.Length)
      ensures old(comparisons) <= comparisons
      ensures a.Length < 2 ==> comparisons == old(comparisons)
      ensures 2 <= a.Length ==> comparisons - old(comparisons) + (a.Length - 1) <= writes - old(writes)
      ensures !isSorting && highlight == NoHighlight
    {
      isSorting := true;
      var aux := new int[a.Length](k requires 0 <= k < a.Length reads a => a[k]);
      Sort(a, aux, 0, a.Length - 1);
      RangeWritesSize(0, a.Length - 1, a.Length);
      isSorting := false;
      highlight := NoHighlight;
      assert SortedWithin(a[..], 0, a.Length - 1);
    }

    /**
     * The start button: ignored while a sort runs; otherwise a run over a
     * copy of the array. There is no check for an empty array, and neither
     * counter is reset, so both go on from the previous run's totals.
     */
    method HandleStart() returns (outcome: StartOutcome)
      modifies this
      ensures old(isSorting) ==> outcome == Ignored && unchanged(this)
      ensures !old(isSorting) ==>
        && outcome == Completed
        && arr == SortAscending(old(arr))
        && writes == old(writes) + SortWrites(|old(arr)|)
        && old(comparisons) <= comparisons
        && (|old(arr)| < 2 ==> comparisons == old(comparisons))
        && (2 <= |old(arr)| ==> comparisons - old(comparisons) + (|old(arr)| - 1) <= writes - old(writes))
        && !isSorting && highlight == NoHighlight
    {
      if isSorting {
        return Ignored;
      }
      var s := arr;
      var a := new int[|s|](k requires 0 <= k < |s| => s[k]);
      assert a[..] == s;
      MergeSortVisual(a);
      SortedUnique(arr, SortAscending(s));
      outcome := Completed;
    }
  }
}
