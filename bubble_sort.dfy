/**
 * The bubble-sort visualizer: passes of adjacent compare-and-swap over a
 * working copy of the array, counting comparisons and swaps and highlighting
 * the pair under comparison.
 */
module BubbleSort {
  import opened Sequences
  import opened Runs

  /** The highlight descriptor: the pair `{current: j, next: j + 1}`, or nothing. */
  datatype Highlight = NoHighlight | Pair(current: int, next: int)

  /** The comparisons made by the first `i` passes over `n` elements: pass t compares n - 1 - t pairs. */
  function PassComparisons(n: int, i: int): int
    decreases i
  {
    if i <= 0 then 0 else PassComparisons(n, i - 1) + (n - i)
  }

  /** The first `i` passes compare i(2n - i - 1)/2 pairs. */
  lemma {:induction false} PassComparisonsClosed(n: int, i: int)
    requires 0 <= i
    ensures 2 * PassComparisons(n, i) == i * (2 * n - i - 1)
    decreases i
  {
    if 0 < i {
      PassComparisonsClosed(n, i - 1);
    }
  }

  /** The n - 1 passes of a run over `n >= 1` elements compare n(n - 1)/2 pairs, every pair once. */
  lemma AllPairsCompared(n: int)
    requires 1 <= n
    ensures PassComparisons(n, n - 1) == n * (n - 1) / 2
  {
    PassComparisonsClosed(n, n - 1);
    assert (n - 1) * (2 * n - (n - 1) - 1) == n * (n - 1);
  }

  /** a[x] <= a[j] for every x <= j: a[j] is the largest of a[..j + 1]. */
  ghost predicate MaxAt(s: seq<int>, j: int)
  {
    forall x :: 0 <= x <= j < |s| ==> s[x] <= s[j]
  }

  /** Every element before position m is at most s[m]. */
  ghost predicate BoundedBy(s: seq<int>, m: int)
  {
    0 <= m < |s| && forall x :: 0 <= x < m ==> s[x] <= s[m]
  }

  /**
   * One compare-and-swap of the pair (j, j + 1) carries the largest of
   * s[..j + 1] on to position j + 1 and leaves everything from position m on,
   * and every bound it was below, alone.
   */
  lemma StepKeepsPass(s: seq<int>, t: seq<int>, j: nat, m: int)
    requires j + 1 < m <= |s|
    requires t == if s[j] > s[j + 1] then SwapAdjacent(s, j) else s
    requires MaxAt(s, j)
    ensures MaxAt(t, j + 1)
    ensures t[m..] == s[m..]
    ensures BoundedBy(s, m) ==> BoundedBy(t, m)
  {
  }

  /**
   * The end of a pass: the suffix from k + 1 on is sorted and bounds
   * everything before it, and a[k] is the largest of a[..k + 1]; so the
   * suffix from k on is sorted and bounds everything before it.
   */
  lemma SortedSuffixGrows(s: seq<int>, k: nat)
    requires k < |s|
    requires Sorted(s[k + 1..]) && MaxAt(s, k)
    requires k + 1 < |s| ==> BoundedBy(s, k + 1)
    ensures Sorted(s[k..])
    ensures 0 < k ==> BoundedBy(s, k)
  {
    forall x, y | k <= x < y < |s|
      ensures s[x] <= s[y]
    {
      if k < x {
        assert s[x] == s[k + 1..][x - k - 1] && s[y] == s[k + 1..][y - k - 1];
      } else if k + 1 < y {
        assert s[k + 1] == s[k + 1..][0] && s[y] == s[k + 1..][y - k - 1];
      }
    }
  }

  /** After the last pass a[1..] is sorted and bounds a[0]: the whole array is sorted, with no inversion left. */
  lemma SortedAfterPasses(s: seq<int>)
    requires 0 < |s| && Sorted(s[1..])
    requires 1 < |s| ==> BoundedBy(s, 1)
    ensures Sorted(s) && Inversions(s) == 0
  {
    forall x, y | 0 <= x < y < |s|
      ensures s[x] <= s[y]
    {
      if 0 < x {
        assert s[x] == s[1..][x - 1] && s[y] == s[1..][y - 1];
      } else if 1 < y {
        assert s[1] == s[1..][0] && s[y] == s[1..][y - 1];
      }
    }
    SortedHasNoInversions(s);
  }

  /**
   * The end of pass i over t (from a0): the largest of t[..n - i] is at
   * n - 1 - i and the last i positions are those of a0, sorted and bounding
   * the rest; so the last i + 1 positions of t are sorted and bound the rest.
   */
  lemma PassEnd(t: seq<int>, a0: seq<int>, n: int, i: int)
    requires n == |t| == |a0| && 0 <= i < n - 1
    requires MaxAt(t, n - i - 1) && t[n - i..] == a0[n - i..]
    requires Sorted(a0[n - i..])
    requires 0 < i ==> BoundedBy(t, n - i)
    ensures Sorted(t[n - i - 1..]) && BoundedBy(t, n - i - 1)
  {
    SortedSuffixGrows(t, n - i - 1);
  }

  class BubbleSortVisualizer {
    var arr: seq<int>
    var size: int
    var comparisons: nat
    var swaps: nat
    var isSorting: bool
    var highlight: Highlight

    constructor ()
      ensures arr == [12, 4, 8, 20, 1, 15, 7, 3, 10] && size == 20
      ensures comparisons == 0 && swaps == 0 && !isSorting && highlight == NoHighlight
    {
      arr := [12, 4, 8, 20, 1, 15, 7, 3, 10];
      size := 20;
      comparisons, swaps := 0, 0;
      isSorting := false;
      highlight := NoHighlight;
    }

    /** Publishes a highlight; the requires is the bound every publication must meet. */
    method Show(h: Highlight, n: int)
      requires h.Pair? ==> 0 <= h.current && h.next == h.current + 1 && h.next < n
      modifies this`highlight
      ensures highlight == h
    {
      highlight := h;
    }

    /**
     * The random-array button: asks the generator for `RandomLength(size)`
     * numbers (the generator's draws are the parameter) and resets both
     * counters.
     */
    method HandleRandom(draws: seq<int>)
      requires |draws| == RandomLength(size)
      requires forall k :: 0 <= k < |draws| ==> 1 <= draws[k] <= 100
      modifies this
      ensures arr == draws && 5 <= |arr| <= 20
      ensures comparisons == 0 && swaps == 0
      ensures size == old(size) && isSorting == old(isSorting) && highlight == old(highlight)
    {
      arr := draws;
      comparisons := 0;
      swaps := 0;
    }

    /** Loading from text: an empty parse keeps the array as it was. */
    method HandleLoadFromText(parsed: seq<int>)
      modifies this`arr
      ensures arr == if parsed == [] then old(arr) else parsed
    {
      if |parsed| > 0 {
        arr := parsed;
      }
    }

    /** The reset button: both counters are cleared; the array is set to a copy of itself. */
    method HandleReset()
      modifies this`comparisons, this`swaps
      ensures comparisons == 0 && swaps == 0
    {
      comparisons, swaps := 0, 0;
    }

    /**
     * One step of the inner loop: highlights and counts the comparison of
     * a[j] with a[j + 1], and swaps them, counted and published, exactly when
     * a[j] > a[j + 1].
     */
    method CompareStep(a: array<int>, j: int, ghost s: seq<int>, ghost base: int)
      requires 0 <= j < a.Length - 1
      requires swaps - base + Inversions(a[..]) == Inversions(s)
      modifies this`swaps, this`arr, this`comparisons, this`highlight, a
      ensures a[..] == if old(a[j]) > old(a[j + 1]) then SwapAdjacent(old(a[..]), j) else old(a[..])
      ensures swaps == old(swaps) + if old(a[j]) > old(a[j + 1]) then 1 else 0
      ensures comparisons == old(comparisons) + 1 && highlight == Pair(j, j + 1)
      ensures old(a[j]) > old(a[j + 1]) ==> arr == a[..]
      ensures old(a[j]) <= old(a[j + 1]) ==> arr == old(arr)
      ensures swaps - base + Inversions(a[..]) == Inversions(s)
    {
      Show(Pair(j, j + 1), a.Length);
      comparisons := comparisons + 1;
      if a[j] > a[j + 1] {
        ghost var before := a[..];
        a[j], a[j + 1] := a[j + 1], a[j];
        assert a[..] == SwapAdjacent(before, j);
        SwapRemovesOneInversion(before, j);
        swaps := swaps + 1;
        arr := a[..];
      }
    }

    /** A compare step inside a pass that ends before position m, with the facts the pass keeps. */
    method PassStep(a: array<int>, j: int, m: int, ghost s: seq<int>, ghost base: int, ghost a0: seq<int>)
      requires 0 <= j && j + 1 < m <= a.Length && |a0| == a.Length
      requires MaxAt(a[..], j) && a[m..] == a0[m..]
      requires multiset(a[..]) == multiset(s)
      requires swaps - base + Inversions(a[..]) == Inversions(s)
      modifies this`swaps, this`arr, this`comparisons, this`highlight, a
      ensures MaxAt(a[..], j + 1) && a[m..] == a0[m..]
      ensures BoundedBy(old(a[..]), m) ==> BoundedBy(a[..], m)
      ensures multiset(a[..]) == multiset(s)
      ensures comparisons == old(comparisons) + 1 && highlight == Pair(j, j + 1)
      ensures swaps > old(swaps) ==> arr == a[..]
      ensures swaps <= old(swaps) ==> swaps == old(swaps) && arr == old(arr) && a[..] == old(a[..])
      ensures swaps - base + Inversions(a[..]) == Inversions(s)
    {
      ghost var b := a[..];
      CompareStep(a, j, s, base);
      ghost var t := a[..];
      StepKeepsPass(b, t, j, m);
    }

    /**
     * Pass i of the inner loop: compares the pairs (j, j + 1) for
     * j < n - 1 - i, swapping each pair that is out of order, which carries
     * the largest of a[..n - i] to position n - 1 - i and leaves a[n - i..]
     * alone: when the last i positions held the i largest elements in order,
     * the last i + 1 do afterwards.
     */
    method Pass(a: array<int>, i: int, ghost s: seq<int>, ghost base: int)
      requires 0 <= i < a.Length - 1
      requires Sorted(a[a.Length - i..])
      requires 0 < i ==> BoundedBy(a[..], a.Length - i)
      requires multiset(a[..]) == multiset(s)
      requires swaps - base + Inversions(a[..]) == Inversions(s)
      modifies this`swaps, this`arr, this`comparisons, this`highlight, a
      ensures Sorted(a[a.Length - i - 1..]) && BoundedBy(a[..], a.Length - i - 1)
      ensures multiset(a[..]) == multiset(s)
      ensures comparisons == old(comparisons) + (a.Length - i - 1)
      ensures highlight == Pair(a.Length - i - 2, a.Length - i - 1)
      ensures swaps > old(swaps) ==> arr == a[..]
      ensures swaps <= old(swaps) ==> swaps == old(swaps) && arr == old(arr) && a[..] == old(a[..])
      ensures swaps - base + Inversions(a[..]) == Inversions(s)
    {
      var n := a.Length;
      ghost var a0 := a[..];
      for j := 0 to n - i - 1
        invariant MaxAt(a[..], j)
        invariant 0 < i ==> BoundedBy(a[..], n - i)
        invariant a[n - i..] == a0[n - i..]
        invariant multiset(a[..]) == multiset(s)
        invariant comparisons == old(comparisons) + j
        invariant 0 < j ==> highlight == Pair(j - 1, j)
        invariant swaps > old(swaps) ==> arr == a[..]
        invariant swaps <= old(swaps) ==> swaps == old(swaps) && arr == old(arr) && a[..] == a0
        invariant swaps - base + Inversions(a[..]) == Inversions(s)
      {
        PassStep(a, j, n - i, s, base, a0);
      }
      PassEnd(a[..], a0, n, i);
      assert a[..][n - i - 1..] == a[n - i - 1..];
    }

    /**
     * The two loops: n - 1 passes over `a`, pass i carrying the largest of
     * a[..n - i] to position n - 1 - i.
     */
    method Passes(a: array<int>)
      requires 0 < a.Length
      modifies this`swaps, this`arr, this`comparisons, this`highlight, a
      ensures Sorted(a[..]) && multiset(a[..]) == multiset(old(a[..]))
      ensures comparisons == old(comparisons) + a.Length * (a.Length - 1) / 2
      ensures swaps == old(swaps) + Inversions(old(a[..]))
      ensures 2 <= a.Length ==> highlight == Pair(0, 1)
      ensures a.Length < 2 ==> highlight == old(highlight)
      ensures swaps > old(swaps) ==> arr == a[..]
      ensures swaps == old(swaps) ==> arr == old(arr)
    {
      ghost var s := a[..];
      ghost var c0, w0 := comparisons, swaps;
      var n := a.Length;
      for i := 0 to n - 1
        // the last i positions hold the i largest elements, in order
        invariant Sorted(a[n - i..])
        invariant 0 < i ==> BoundedBy(a[..], n - i)
        invariant multiset(a[..]) == multiset(s)
        invariant comparisons - c0 == PassComparisons(n, i)
        invariant 0 < i ==> highlight == Pair(n - i - 1, n - i)
        invariant i == 0 ==> highlight == old(highlight)
        invariant swaps > w0 ==> arr == a[..]
        invariant swaps <= w0 ==> swaps == w0 && arr == old(arr)
        invariant (swaps - w0) + Inversions(a[..]) == Inversions(s)
      {
        Pass(a, i, s, w0);
        assert PassComparisons(n, i + 1) == PassComparisons(n, i) + (n - 1 - i);
      }
      SortedAfterPasses(a[..]);
      AllPairsCompared(n);
    }

    /**
     * The start button: ignored while a sort runs, an alert for an empty
     * array, and otherwise n - 1 passes over a copy of the array, pass i
     * comparing the pairs (j, j + 1) for j < n - 1 - i and swapping each pair
     * that is out of order. Every pair is compared once per pass, so the
     * comparisons are n(n - 1)/2, and every swap removes exactly one
     * inversion, so the swaps are the inversions of the input.
     */
    method HandleStart() returns (outcome: StartOutcome)
      modifies this
      ensures old(isSorting) ==> outcome == Ignored && unchanged(this)
      ensures !old(isSorting) && old(arr) == [] ==> outcome == RejectedEmpty && unchanged(this)
      ensures !old(isSorting) && old(arr) != [] ==>
        && outcome == Completed
        && Sorted(arr) && multiset(arr) == multiset(old(arr)) && |arr| == |old(arr)|
        && comparisons == |arr| * (|arr| - 1) / 2
        && swaps == Inversions(old(arr))
        && !isSorting && highlight == NoHighlight && size == old(size)
    {
      if isSorting {
        return Ignored;
      }
      if arr == [] {
        return RejectedEmpty;
      }
      comparisons := 0;
      swaps := 0;
      isSorting := true;
      var s := arr;
      var a := new int[|s|](k requires 0 <= k < |s| => s[k]);
      assert a[..] == s;
      Passes(a);
      arr := a[..];
      highlight := NoHighlight;
      isSorting := false;
      outcome := Completed;
    }
  }

  /**
   * The array the component starts with, sorted: 36 comparisons (9 * 8 / 2),
   * and one swap per inversion of [12, 4, 8, 20, 1, 15, 7, 3, 10], of which
   * there are 20.
   */
  method DefaultRun() returns (sorted: seq<int>, comparisons: nat, swaps: nat)
    ensures sorted == [1, 3, 4, 7, 8, 10, 12, 15, 20]
    ensures comparisons == 36 && swaps == 20
  {
    var v := new BubbleSortVisualizer();
    var outcome := v.HandleStart();
    sorted, comparisons, swaps := v.arr, v.comparisons, v.swaps;
    DefaultSorted(sorted);
    DefaultComparisons(|sorted|, comparisons);
    DefaultInversions();
  }

  /** Bubble sort compares every pair once: 9 * 8 / 2 for the default array. */
  lemma DefaultComparisons(n: int, c: int)
    requires n == 9 && c == n * (n - 1) / 2
    ensures c == 36
  {
  }

  /** The only sorted arrangement of the default array. */
  lemma DefaultSorted(s: seq<int>)
    requires Sorted(s) && multiset(s) == multiset([12, 4, 8, 20, 1, 15, 7, 3, 10])
    ensures s == [1, 3, 4, 7, 8, 10, 12, 15, 20]
  {
    var output := [1, 3, 4, 7, 8, 10, 12, 15, 20];
    DefaultCovered(s, output);
    DefaultAscending(output);
    SortedCoversStrict(s, output);
  }

  /** The sorted default array has no repeated value. */
  lemma DefaultAscending(output: seq<int>)
    requires output == [1, 3, 4, 7, 8, 10, 12, 15, 20]
    ensures forall k :: 0 <= k < |output| - 1 ==> output[k] < output[k + 1]
  {
  }

  /** Every value of the sorted default array occurs in any rearrangement of it. */
  lemma DefaultCovered(s: seq<int>, output: seq<int>)
    requires multiset(s) == multiset([12, 4, 8, 20, 1, 15, 7, 3, 10])
    requires output == [1, 3, 4, 7, 8, 10, 12, 15, 20]
    ensures |s| == |output| && forall k :: 0 <= k < |output| ==> output[k] in s
  {
    assert |s| == |multiset(s)| == 9;
    forall k | 0 <= k < 9
      ensures output[k] in s
    {
      assert output[k] in multiset(s);
    }
  }

  /** Counted suffix by suffix: each element adds the later elements below it. */
  lemma DefaultInversions()
    ensures Inversions([12, 4, 8, 20, 1, 15, 7, 3, 10]) == 20
  {
    InversionsPrepend([3, 10], 0);
    InversionsPrepend([7, 3, 10], 1);
    InversionsPrepend([15, 7, 3, 10], 4);
    InversionsPrepend([1, 15, 7, 3, 10], 4);
    InversionsPrepend([20, 1, 15, 7, 3, 10], 9);
    InversionsPrepend([8, 20, 1, 15, 7, 3, 10], 12);
    InversionsPrepend([4, 8, 20, 1, 15, 7, 3, 10], 14);
    InversionsPrepend([12, 4, 8, 20, 1, 15, 7, 3, 10], 20);
  }

  /** One step of the suffix count, with the tail's count already known. */
  lemma InversionsPrepend(s: seq<int>, total: int)
    requires s != [] && CountLess(s[1..], s[0]) + Inversions(s[1..]) == total
    ensures Inversions(s) == total
  {
  }
}
