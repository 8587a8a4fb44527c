/**
 * The quick-sort visualizer: a Lomuto partition and the recursive sort over a
 * working copy of the array, with a comparison counter, a swap counter and a
 * highlight of the pivot and the two cursors.
 */
module QuickSort {
  import opened Sequences
  import opened Runs

  /**
   * The highlight descriptor: the pivot alone, the pivot with the scanning
   * cursor `j` (`right`), the pivot with both cursors after an exchange
   * (`left` is `i`), or nothing.
   */
  datatype Highlight =
    | NoHighlight
    | Pivot(pivot: int)
    | Scan(pivot: int, right: int)
    | Exchange(pivot: int, left: int, right: int)

  /** Every index the descriptor carries lies in [lo, hi]. */
  predicate Within(h: Highlight, lo: int, hi: int)
  {
    match h
    case NoHighlight => true
    case Pivot(p) => lo <= p <= hi
    case Scan(p, r) => lo <= p <= hi && lo <= r <= hi
    case Exchange(p, l, r) => lo <= p <= hi && lo <= l <= hi && lo <= r <= hi
  }

  /** The number of unordered pairs among `n` elements: 0 + 1 + ... + (n - 1). */
  function Pairs(n: int): nat
  {
    if n <= 1 then 0 else (n - 1) + Pairs(n - 1)
  }

  /** Pairs(n) is n(n - 1)/2. */
  lemma {:induction false} PairsClosedForm(n: nat)
    ensures 2 * Pairs(n) == n * (n - 1)
  {
    if 1 < n {
      PairsClosedForm(n - 1);
    }
  }

  /** A count within Pairs(n) is within n(n - 1)/2. */
  lemma WithinPairs(c: nat, n: nat)
    requires c <= Pairs(n)
    ensures 2 * c <= n * (n - 1)
  {
    PairsClosedForm(n);
  }

  /**
   * Splitting n = l + r + 1 elements around one of them: the pairs on each
   * side plus the l + r pairs with the split element are at most all pairs.
   */
  lemma {:induction false} PairsSplit(l: nat, r: nat)
    ensures Pairs(l) + Pairs(r) + (l + r) <= Pairs(l + r + 1)
    decreases r
  {
    if r > 0 {
      PairsSplit(l, r - 1);
    }
  }

  /**
   * The counter budgets of a partitioned range low..high with the pivot at
   * `pi`, from the partition's own counts (c0 to c1, w0 to w1) and the budgets
   * of the two recursive sorts (c1 to c2 left of the pivot, c2 to c3 right).
   */
  lemma CounterBudget(low: int, pi: int, high: int, c0: int, c1: int, c2: int, c3: int, w0: int, w1: int, w2: int, w3: int)
    requires low <= pi <= high
    requires c1 == c0 + (high - low) && w1 <= w0 + 1 + (high - low)
    requires c1 <= c2 && c2 - c1 <= Pairs(pi - low) && w2 - w1 <= c2 - c1 + (pi - low)
    requires c2 <= c3 && c3 - c2 <= Pairs(high - pi) && w3 - w2 <= c3 - c2 + (high - pi)
    ensures c3 - c0 <= Pairs(high - low + 1)
    ensures w3 - w0 <= c3 - c0 + (high - low + 1)
  {
    PairsSplit(pi - low, high - pi);
  }

  /** The destructuring swap `[a[x], a[y]] = [a[y], a[x]]`. */
  method Swap(a: array<int>, x: int, y: int)
    requires 0 <= x < a.Length && 0 <= y < a.Length
    modifies a
    ensures a[x] == old(a[y]) && a[y] == old(a[x])
    ensures forall k :: 0 <= k < a.Length && k != x && k != y ==> a[k] == old(a[k])
    ensures multiset(a[..]) == multiset(old(a[..]))
  {
    a[x], a[y] := a[y], a[x];
  }

  /** A sequence sorted over its whole index range is sorted. */
  lemma SortedWhole(s: seq<int>)
    requires SortedWithin(s, 0, |s| - 1)
    ensures Sorted(s)
  {
  }

  /** Permuting lo..hi - 1 keeps every value there below `v`. */
  lemma StaysBelow(s: seq<int>, t: seq<int>, lo: nat, hi: nat, v: int)
    requires lo <= hi <= |s| && AgreeOutside(t, s, lo, hi - 1) && multiset(t) == multiset(s)
    requires forall k :: lo <= k < hi ==> s[k] < v
    ensures forall k :: lo <= k < hi ==> t[k] < v
  {
    RangePermutation(t, s, lo, hi);
    assert forall k :: lo <= k < hi ==> s[lo..hi][k - lo] == s[k];
    BelowAfterPermutation(t[lo..hi], s[lo..hi], v);
    assert forall k :: lo <= k < hi ==> t[k] == t[lo..hi][k - lo];
  }

  /** Permuting lo..hi - 1 keeps every value there at least `v`. */
  lemma StaysAtLeast(s: seq<int>, t: seq<int>, lo: nat, hi: nat, v: int)
    requires lo <= hi <= |s| && AgreeOutside(t, s, lo, hi - 1) && multiset(t) == multiset(s)
    requires forall k :: lo <= k < hi ==> v <= s[k]
    ensures forall k :: lo <= k < hi ==> v <= t[k]
  {
    RangePermutation(t, s, lo, hi);
    assert forall k :: lo <= k < hi ==> s[lo..hi][k - lo] == s[k];
    AtLeastAfterPermutation(t[lo..hi], s[lo..hi], v);
    assert forall k :: lo <= k < hi ==> t[k] == t[lo..hi][k - lo];
  }

  /**
   * The step of quick sort: a range a0[low..high] partitioned around `pi`
   * (a1), then sorted left of the pivot (a2), then right of it (a3), ends
   * sorted, a permutation of a0, and unchanged outside the range.
   */
  lemma SortedAroundPivot(a0: seq<int>, a1: seq<int>, a2: seq<int>, a3: seq<int>, low: nat, pi: nat, high: nat)
    requires low <= pi <= high < |a0|
    requires AgreeOutside(a1, a0, low, high) && multiset(a1) == multiset(a0)
    requires forall k :: low <= k < pi ==> a1[k] < a1[pi]
    requires forall k :: pi < k <= high ==> a1[pi] <= a1[k]
    requires AgreeOutside(a2, a1, low, pi - 1) && multiset(a2) == multiset(a1) && SortedWithin(a2, low, pi - 1)
    requires AgreeOutside(a3, a2, pi + 1, high) && multiset(a3) == multiset(a2) && SortedWithin(a3, pi + 1, high)
    ensures SortedWithin(a3, low, high) && AgreeOutside(a3, a0, low, high) && multiset(a3) == multiset(a0)
  {
    var pv := a1[pi];
    StaysBelow(a1, a2, low, pi, pv);
    assert forall k :: pi < k <= high ==> pv <= a2[k];
    StaysAtLeast(a2, a3, pi + 1, high + 1, pv);
  }

  class QuickSortVisualizer {
    var arr: seq<int>
    var size: int
    var comparisons: nat
    var swaps: nat
    var isSorting: bool
    var highlight: Highlight

    constructor ()
      ensures arr == [12, 4, 8, 20, 1, 15, 7, 3, 10, 2, 18, 9, 11, 6, 5] && size == 20
      ensures comparisons == 0 && swaps == 0 && !isSorting && highlight == NoHighlight
    {
      arr := [12, 4, 8, 20, 1, 15, 7, 3, 10, 2, 18, 9, 11, 6, 5];
      size := 20;
      comparisons, swaps := 0, 0;
      isSorting := false;
      highlight := NoHighlight;
    }

    /** Publishes a highlight; the requires is the bound every publication must meet. */
    method Show(h: Highlight, lo: int, hi: int, n: int)
      requires 0 <= lo && hi < n && Within(h, lo, hi)
      modifies this`highlight
      ensures highlight == h
    {
      highlight := h;
    }

    /**
     * The random button: an array of the clamped length drawn from [1, 100]
     * (the draws are a parameter); the counters are left as they are.
     */
    method HandleRandom(draws: seq<int>)
      requires |draws| == RandomLength(size)
      requires forall k :: 0 <= k < |draws| ==> 1 <= draws[k] <= 100
      modifies this`arr
      ensures arr == draws && 5 <= |arr| <= 20
    {
      arr := draws;
    }

    /** Loading from text: an empty parse keeps the array as it was. */
    method HandleLoadFromText(parsed: seq<int>)
      modifies this`arr
      ensures arr == if parsed == [] then old(arr) else parsed
    {
      if |parsed| > 0 {
        arr := parsed;
      }
    }

    /** The reset button: both counters are cleared; the array is set to a copy of itself. */
    method HandleReset()
      modifies this`comparisons, this`swaps
      ensures comparisons == 0 && swaps == 0
    {
      comparisons, swaps := 0, 0;
    }

    /**
     * One turn of the partition loop at cursor `j`: a comparison against the
     * pivot, and for a smaller cell an exchange that grows the lower part.
     */
    method ScanStep(a: array<int>, low: int, high: int, i: int, j: int, pivot: int, ghost s0: seq<int>) returns (i': int)
      requires 0 <= low <= j < high < a.Length == |s0|
      requires low - 1 <= i < j && a[high] == pivot
      requires forall k :: low <= k <= i ==> a[k] < pivot
      requires forall k :: i < k < j ==> pivot <= a[k]
      requires forall k :: 0 <= k < a.Length && (k < low || j <= k) ==> a[k] == s0[k]
      modifies this`comparisons, this`swaps, this`arr, this`highlight, a
      ensures low - 1 <= i' < j + 1 && a[high] == pivot
      ensures forall k :: low <= k <= i' ==> a[k] < pivot
      ensures forall k :: i' < k < j + 1 ==> pivot <= a[k]
      ensures forall k :: 0 <= k < a.Length && (k < low || j + 1 <= k) ==> a[k] == s0[k]
      ensures multiset(a[..]) == multiset(old(a[..]))
      ensures comparisons == old(comparisons) + 1
      ensures swaps == old(swaps) + (if s0[j] < pivot then 1 else 0)
      ensures i' == if s0[j] < pivot then i + 1 else i
      ensures highlight == if s0[j] < pivot then Exchange(high, i', j) else Scan(high, j)
      ensures s0[j] < pivot ==> arr == a[..]
      ensures pivot <= s0[j] ==> arr == old(arr)
    {
      Show(Scan(high, j), low, high, a.Length);
      comparisons := comparisons + 1;
      i' := i;
      if a[j] < pivot {
        i' := i + 1;
        Swap(a, i', j);
        swaps := swaps + 1;
        arr := a[..];
        Show(Exchange(high, i', j), low, high, a.Length);
      }
    }

    /**
     * Lomuto partition of a[low..high] around the pivot a[high]: `i` marks the
     * end of the part below the pivot, `j` scans, and the pivot is finally
     * swapped into place at i + 1, which is returned.
     */
    method Partition(a: array<int>, low: int, high: int) returns (p: int)
      requires 0 <= low <= high < a.Length
      modifies this`comparisons, this`swaps, this`arr, this`highlight, a
      ensures low <= p <= high
      ensures a[p] == old(a[high])
      ensures forall k :: low <= k < p ==> a[k] < a[p]
      ensures forall k :: p < k <= high ==> a[p] <= a[k]
      ensures multiset(a[..]) == multiset(old(a[..]))
      ensures AgreeOutside(a[..], old(a[..]), low, high)
      ensures comparisons == old(comparisons) + (high - low)
      ensures swaps == old(swaps) + 1 + CountLess(old(a[low..high]), old(a[high]))
      ensures arr == a[..] && highlight == Pivot(p)
    {
      ghost var s0 := a[..];
      var pivot := a[high];
      var i := low - 1;
      Show(Pivot(high), low, high, a.Length);
      for j := low to high
        invariant low - 1 <= i < j
        invariant a[high] == pivot
        invariant forall k :: low <= k <= i ==> a[k] < pivot
        invariant forall k :: i < k < j ==> pivot <= a[k]
        invariant forall k :: 0 <= k < a.Length && (k < low || j <= k) ==> a[k] == s0[k]
        invariant multiset(a[..]) == multiset(s0)
        invariant comparisons == old(comparisons) + (j - low)
        invariant swaps == old(swaps) + CountLess(s0[low..j], pivot)
      {
        assert s0[low..j + 1] == s0[low..j] + [s0[j]];
        CountLessSnoc(s0[low..j], s0[j], pivot);
        i := ScanStep(a, low, high, i, j, pivot, s0);
      }
      Swap(a, i + 1, high);
      swaps := swaps + 1;
      arr := a[..];
      Show(Pivot(i + 1), low, high, a.Length);
      p := i + 1;
    }

    /**
     * Sorts a[low..high] in place. A range of at most one element is left
     * untouched; the counters only grow, by at most the quadratic worst case.
     */
    method QuickSort(a: array<int>, low: int, high: int)
      requires low < high ==> 0 <= low && high < a.Length
      modifies this`comparisons, this`swaps, this`arr, this`highlight, a
      decreases high - low
      ensures SortedWithin(a[..], low, high)
      ensures multiset(a[..]) == multiset(old(a[..]))
      ensures AgreeOutside(a[..], old(a[..]), low, high)
      ensures high <= low ==> a[..] == old(a[..]) && unchanged(this)
      ensures low < high ==> arr == a[..] && highlight.Pivot? && low <= highlight.pivot <= high
      ensures old(comparisons) <= comparisons && old(swaps) <= swaps
      ensures comparisons - old(comparisons) <= Pairs(high - low + 1)
      ensures swaps - old(swaps) <= comparisons - old(comparisons) + (if low < high then high - low + 1 else 0)
    {
      if low < high {
        ghost var a0, c0, w0 := a[..], comparisons, swaps;
        var pi := Partition(a, low, high);
        ghost var a1, c1, w1 := a[..], comparisons, swaps;
        QuickSort(a, low, pi - 1);
        ghost var a2, c2, w2 := a[..], comparisons, swaps;
        QuickSort(a, pi + 1, high);
        SortedAroundPivot(a0, a1, a2, a[..], low, pi, high);
        CounterBudget(low, pi, high, c0, c1, c2, comparisons, w0, w1, w2, swaps);
      }
    }

    /**
     * The start button: ignored while a sort runs, an alert for an empty
     * array, and otherwise a fresh run over a copy of the array with both
     * counters reset first.
     */
    method HandleStart() returns (outcome: StartOutcome)
      modifies this
      ensures old(isSorting) ==> outcome == Ignored && unchanged(this)
      ensures !old(isSorting) && old(arr) == [] ==> outcome == RejectedEmpty && unchanged(this)
      ensures !old(isSorting) && old(arr) != [] ==>
        && outcome == Completed
        && Sorted(arr) && multiset(arr) == multiset(old(arr))
        && comparisons <= Pairs(|arr|) && 2 * comparisons <= |arr| * (|arr| - 1)
        && swaps <= comparisons + |arr|
        && !isSorting && highlight == NoHighlight && size == old(size)
    {
      if isSorting {
        return Ignored;
      }
      if arr == [] {
        return RejectedEmpty;
      }
      comparisons := 0;
      swaps := 0;
      isSorting := true;
      var s := arr;
      var copy := new int[|s|](k requires 0 <= k < |s| => s[k]);
      assert copy[..] == s;
      QuickSort(copy, 0, copy.Length - 1);
      SortedWhole(copy[..]);
      arr := copy[..];
      WithinPairs(comparisons, |arr|);
      isSorting := false;
      highlight := NoHighlight;
      outcome := Completed;
    }
  }
}
