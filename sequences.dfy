/**
 * Facts about sequences of numbers that the sorting and searching drivers
 * are specified with: order, counting, inversions and permutations.
 */
module Sequences {

  /** Non-descending order: what every sorting driver must leave behind. */
  ghost predicate Sorted(s: seq<int>)
  {
    forall x, y :: 0 <= x < y < |s| ==> s[x] <= s[y]
  }

  /** The number of elements of `s` strictly below `v`. */
  function CountLess(s: seq<int>, v: int): (c: nat)
    ensures c <= |s|
  {
    if s == [] then 0 else (if s[0] < v then 1 else 0) + CountLess(s[1..], v)
  }

  /**
   * The number of inversions of `s`: pairs of positions x < y with
   * s[x] > s[y], counted for each position as the later elements below it.
   */
  function Inversions(s: seq<int>): nat
  {
    if s == [] then 0 else CountLess(s[1..], s[0]) + Inversions(s[1..])
  }

  lemma {:induction false} CountLessAppend(s: seq<int>, t: seq<int>, v: int)
    ensures CountLess(s + t, v) == CountLess(s, v) + CountLess(t, v)
  {
    if s == [] {
      assert s + t == t;
    } else {
      assert (s + t)[1..] == s[1..] + t;
      CountLessAppend(s[1..], t, v);
    }
  }

  /** Extending a scanned prefix by one element counts that element alone. */
  lemma CountLessSnoc(s: seq<int>, x: int, v: int)
    ensures CountLess(s + [x], v) == CountLess(s, v) + (if x < v then 1 else 0)
  {
    CountLessAppend(s, [x], v);
  }

  /** No element below `v` is counted when every element is at least `v`. */
  lemma {:induction false} CountLessNone(s: seq<int>, v: int)
    requires forall k :: 0 <= k < |s| ==> v <= s[k]
    ensures CountLess(s, v) == 0
  {
    if s != [] {
      CountLessNone(s[1..], v);
    }
  }

  /** `s` with positions j and j + 1 exchanged: one step of bubble sort. */
  function SwapAdjacent(s: seq<int>, j: nat): (t: seq<int>)
    requires j + 1 < |s|
    ensures |t| == |s| && t[j] == s[j + 1] && t[j + 1] == s[j]
    ensures forall k :: 0 <= k < |s| && k != j && k != j + 1 ==> t[k] == s[k]
    ensures multiset(t) == multiset(s)
  {
    s[j := s[j + 1]][j + 1 := s[j]]
  }

  /** Counting is blind to the order of two neighbours. */
  lemma CountLessSwapAdjacent(s: seq<int>, j: nat, v: int)
    requires j + 1 < |s|
    ensures CountLess(SwapAdjacent(s, j), v) == CountLess(s, v)
  {
    var t := SwapAdjacent(s, j);
    assert s == s[..j] + [s[j], s[j + 1]] + s[j + 2..];
    assert t == s[..j] + [s[j + 1], s[j]] + s[j + 2..];
    CountLessAppend(s[..j] + [s[j], s[j + 1]], s[j + 2..], v);
    CountLessAppend(s[..j], [s[j], s[j + 1]], v);
    CountLessAppend(s[..j] + [s[j + 1], s[j]], s[j + 2..], v);
    CountLessAppend(s[..j], [s[j + 1], s[j]], v);
  }

  /** Exchanging an out-of-order pair of neighbours removes exactly one inversion. */
  lemma {:induction false} SwapRemovesOneInversion(s: seq<int>, j: nat)
    requires j + 1 < |s| && s[j] > s[j + 1]
    ensures Inversions(SwapAdjacent(s, j)) + 1 == Inversions(s)
  {
    var t := SwapAdjacent(s, j);
    if j == 0 {
      var rest := s[2..];
      assert s[1..] == [s[1]] + rest;
      assert t[1..] == [s[0]] + rest;
      assert s[1..][1..] == rest && t[1..][1..] == rest;
      CountLessAppend([s[1]], rest, s[0]);
      CountLessAppend([s[0]], rest, s[1]);
    } else {
      assert t[1..] == SwapAdjacent(s[1..], j - 1);
      SwapRemovesOneInversion(s[1..], j - 1);
      CountLessSwapAdjacent(s[1..], j - 1, s[0]);
    }
  }

  /** A sorted sequence has no inversions. */
  lemma {:induction false} SortedHasNoInversions(s: seq<int>)
    requires Sorted(s)
    ensures Inversions(s) == 0
  {
    if s != [] {
      CountLessNone(s[1..], s[0]);
      SortedHasNoInversions(s[1..]);
    }
  }

  /** Multiset union cancels. */
  lemma CancelMultiset(m: multiset<int>, n: multiset<int>, common: multiset<int>)
    requires m + common == n + common
    ensures m == n
  {
    forall x
      ensures m[x] == n[x]
    {
      assert (m + common)[x] == (n + common)[x];
    }
  }

  /** Two sequences with the same first element and the same multiset have tails with the same multiset. */
  lemma TailMultiset(s: seq<int>, t: seq<int>)
    requires s != [] && t != [] && s[0] == t[0] && multiset(s) == multiset(t)
    ensures multiset(s[1..]) == multiset(t[1..])
  {
    assert s == [s[0]] + s[1..] && t == [t[0]] + t[1..];
    assert multiset(s) == multiset(s[1..]) + multiset{s[0]};
    assert multiset(t) == multiset(t[1..]) + multiset{s[0]};
    CancelMultiset(multiset(s[1..]), multiset(t[1..]), multiset{s[0]});
  }

  /** The first element of a sorted sequence is at most any element of it. */
  lemma SortedHeadIsLeast(s: seq<int>, x: int)
    requires Sorted(s) && x in multiset(s)
    ensures s != [] && s[0] <= x
  {
    var k :| 0 <= k < |s| && s[k] == x;
  }

  /** Two sorted arrangements of the same multiset are the same sequence. */
  lemma {:induction false} SortedUnique(s: seq<int>, t: seq<int>)
    requires Sorted(s) && Sorted(t) && multiset(s) == multiset(t)
    ensures s == t
  {
    if s == [] {
      assert |t| == |multiset(t)| == 0;
    } else {
      assert s[0] in multiset(s);
      SortedHeadIsLeast(t, s[0]);
      assert t[0] in multiset(t);
      SortedHeadIsLeast(s, t[0]);
      TailMultiset(s, t);
      SortedUnique(s[1..], t[1..]);
      assert s == [s[0]] + s[1..] && t == [t[0]] + t[1..];
    }
  }

  /** Strictly increasing indices into [0, n) start no lower than their positions. */
  lemma {:induction false} IndexAtLeastPosition(idx: seq<int>, k: nat)
    requires forall a, b :: 0 <= a < b < |idx| ==> idx[a] < idx[b]
    requires forall a :: 0 <= a < |idx| ==> 0 <= idx[a]
    requires k < |idx|
    ensures k <= idx[k]
  {
    if 0 < k {
      IndexAtLeastPosition(idx, k - 1);
    }
  }

  /** ... and end no higher. */
  lemma {:induction false} IndexAtMostPosition(idx: seq<int>, k: nat)
    requires forall a, b :: 0 <= a < b < |idx| ==> idx[a] < idx[b]
    requires forall a :: 0 <= a < |idx| ==> idx[a] < |idx|
    requires k < |idx|
    ensures idx[k] <= k
    decreases |idx| - k
  {
    if k + 1 < |idx| {
      IndexAtMostPosition(idx, k + 1);
    }
  }

  /** A sequence that increases at every step increases between any two positions. */
  lemma {:induction false} StrictFromAdjacent(t: seq<int>, x: int, y: int)
    requires forall k :: 0 <= k < |t| - 1 ==> t[k] < t[k + 1]
    requires 0 <= x < y < |t|
    ensures t[x] < t[y]
    decreases y - x
  {
    if x + 1 < y {
      StrictFromAdjacent(t, x + 1, y);
    }
  }

  /**
   * A sorted sequence that contains every value of a strictly increasing
   * sequence of the same length is that sequence.
   */
  lemma SortedCoversStrict(s: seq<int>, t: seq<int>)
    requires Sorted(s) && |s| == |t|
    requires forall k :: 0 <= k < |t| - 1 ==> t[k] < t[k + 1]
    requires forall k :: 0 <= k < |t| ==> t[k] in s
    ensures s == t
  {
    var idx := seq(|t|, k requires 0 <= k < |t| => var p :| 0 <= p < |s| && s[p] == t[k]; p);
    forall a, b | 0 <= a < b < |idx|
      ensures idx[a] < idx[b]
    {
      StrictFromAdjacent(t, a, b);
    }
    forall k | 0 <= k < |t|
      ensures s[k] == t[k]
    {
      IndexAtLeastPosition(idx, k);
      IndexAtMostPosition(idx, k);
    }
  }

  /** Splitting a slice splits its multiset. */
  lemma SliceMultiset(s: seq<int>, lo: nat, mid: nat, hi: nat)
    requires lo <= mid <= hi <= |s|
    ensures multiset(s[lo..hi]) == multiset(s[lo..mid]) + multiset(s[mid..hi])
  {
    assert s[lo..hi] == s[lo..mid] + s[mid..hi];
  }

  /**
   * A permutation of the whole sequence that fixes every position outside
   * [lo, hi) permutes the slice [lo, hi) on its own.
   */
  lemma RangePermutation(s: seq<int>, t: seq<int>, lo: nat, hi: nat)
    requires lo <= hi <= |s| == |t|
    requires multiset(s) == multiset(t)
    requires forall k :: 0 <= k < |s| && (k < lo || hi <= k) ==> s[k] == t[k]
    ensures multiset(s[lo..hi]) == multiset(t[lo..hi])
  {
    var outside := s[..lo] + s[hi..];
    assert s == s[..lo] + s[lo..hi] + s[hi..];
    assert t == t[..lo] + t[lo..hi] + t[hi..];
    assert s[..lo] == t[..lo] && s[hi..] == t[hi..];
    assert multiset(s) == multiset(s[lo..hi]) + multiset(outside);
    assert multiset(t) == multiset(t[lo..hi]) + multiset(outside);
    CancelMultiset(multiset(s[lo..hi]), multiset(t[lo..hi]), multiset(outside));
  }

  /** A bound on every element survives a permutation. */
  lemma BelowAfterPermutation(s: seq<int>, t: seq<int>, v: int)
    requires multiset(s) == multiset(t)
    requires forall k :: 0 <= k < |t| ==> t[k] < v
    ensures forall k :: 0 <= k < |s| ==> s[k] < v
  {
    forall k | 0 <= k < |s|
      ensures s[k] < v
    {
      assert s[k] in multiset(t);
    }
  }

  lemma AtLeastAfterPermutation(s: seq<int>, t: seq<int>, v: int)
    requires multiset(s) == multiset(t)
    requires forall k :: 0 <= k < |t| ==> v <= t[k]
    ensures forall k :: 0 <= k < |s| ==> v <= s[k]
  {
    forall k | 0 <= k < |s|
      ensures v <= s[k]
    {
      assert s[k] in multiset(t);
    }
  }

  /** `x` put in its place in the sorted sequence `s`. */
  function Insert(x: int, s: seq<int>): (r: seq<int>)
    requires Sorted(s)
    ensures Sorted(r) && multiset(r) == multiset(s) + multiset{x}
  {
    if s == [] then [x]
    else if x <= s[0] then [x] + s
    else
      var tail := Insert(x, s[1..]);
      InsertBehind(x, s, tail);
      [s[0]] + tail
  }

  /** Inserting behind a head smaller than `x` keeps the head in front. */
  lemma InsertBehind(x: int, s: seq<int>, tail: seq<int>)
    requires Sorted(s) && s != [] && s[0] < x
    requires Sorted(tail) && multiset(tail) == multiset(s[1..]) + multiset{x}
    ensures Sorted([s[0]] + tail) && multiset([s[0]] + tail) == multiset(s) + multiset{x}
  {
    assert s == [s[0]] + s[1..];
    assert forall k :: 0 <= k < |s[1..] + [x]| ==> s[0] <= (s[1..] + [x])[k];
    assert multiset(tail) == multiset(s[1..] + [x]);
    AtLeastAfterPermutation(tail, s[1..] + [x], s[0]);
    ConsSorted(s[0], tail);
  }

  /** A head no greater than any element of a sorted tail keeps it sorted. */
  lemma ConsSorted(h: int, t: seq<int>)
    requires Sorted(t) && forall k :: 0 <= k < |t| ==> h <= t[k]
    ensures Sorted([h] + t)
  {
    assert forall k :: 0 < k <= |t| ==> ([h] + t)[k] == t[k - 1];
  }

  /**
   * `Array.prototype.sort` with the numeric comparator `(a, b) => a - b`:
   * an ascending arrangement of the same numbers. Any correct sort gives this
   * same sequence (SortedUnique), so the algorithm chosen here is immaterial.
   */
  function SortAscending(s: seq<int>): (r: seq<int>)
    ensures Sorted(r) && multiset(r) == multiset(s)
  {
    if s == [] then []
    else
      assert s == [s[0]] + s[1..];
      Insert(s[0], SortAscending(s[1..]))
  }

  /** s[lo..hi] (both ends included) is in ascending order. */
  ghost predicate SortedWithin(s: seq<int>, lo: int, hi: int)
  {
    forall x, y :: lo <= x < y <= hi && 0 <= x && y < |s| ==> s[x] <= s[y]
  }

  /** s and t have the same length and agree everywhere outside [lo, hi]. */
  ghost predicate AgreeOutside(s: seq<int>, t: seq<int>, lo: int, hi: int)
  {
    |s| == |t| && forall k :: 0 <= k < |s| && (k < lo || hi < k) ==> s[k] == t[k]
  }
}
