/**
 * The binary-search visualizer: a halving search of a sorted array for the
 * target, highlighting the window [left, right] and its midpoint, and showing
 * an index or "not found" as the result.
 */
module BinarySearch {
  import opened Sequences
  import opened Runs

  /** The window descriptor `{left, right, mid, found}`, or nothing. */
  datatype Highlight = NoHighlight | Window(left: int, right: int, mid: int, found: bool)

  /** The result field: `null` (shown as a dash), -1 (shown as "not found") or an index. */
  datatype SearchResult = NoResult | NotFound | FoundAt(index: nat)

  /** How the loop ends: a `break` on a hit at `mid`, or the window running empty. */
  datatype Exit = Hit(mid: nat) | Exhausted

  /**
   * The loop from the window [left, right] on: probe the midpoint, stop on
   * a hit, otherwise keep the half on the side of the target. Both bounds are
   * non-negative, so `Math.floor` of the half sum is Euclidean division.
   */
  function SearchFrom(s: seq<int>, t: int, left: nat, right: int): (e: Exit)
    requires right < |s|
    ensures e.Hit? ==> left <= e.mid <= right
    decreases right - left + 1
  {
    if left > right then Exhausted
    else
      var mid := (left + right) / 2;
      if s[mid] == t then Hit(mid)
      else if s[mid] < t then SearchFrom(s, t, mid + 1, right)
      else SearchFrom(s, t, left, mid - 1)
  }

  /** A hit is reported only at an index inside the window that holds the target. */
  lemma {:induction false} SearchHitIsTarget(s: seq<int>, t: int, left: nat, right: int)
    requires right < |s|
    ensures SearchFrom(s, t, left, right).Hit? ==>
      var m := SearchFrom(s, t, left, right).mid;
      left <= m <= right && s[m] == t
    decreases right - left + 1
  {
    if left <= right {
      var mid := (left + right) / 2;
      if s[mid] < t {
        SearchHitIsTarget(s, t, mid + 1, right);
      } else if s[mid] > t {
        SearchHitIsTarget(s, t, left, mid - 1);
      }
    }
  }

  /**
   * On a sorted array the search runs empty exactly when no index of the
   * window holds the target: every half it drops lies wholly on one side.
   */
  lemma {:induction false} SearchExhaustedIffAbsent(s: seq<int>, t: int, left: nat, right: int)
    requires right < |s| && Sorted(s)
    ensures SearchFrom(s, t, left, right) == Exhausted <==> forall k :: left <= k <= right ==> s[k] != t
    decreases right - left + 1
  {
    if left <= right {
      var mid := (left + right) / 2;
      if s[mid] < t {
        SearchExhaustedIffAbsent(s, t, mid + 1, right);
        BelowMissesTarget(s, t, left, mid);
      } else if s[mid] > t {
        SearchExhaustedIffAbsent(s, t, left, mid - 1);
        AboveMissesTarget(s, t, mid, right);
      }
    }
  }

  /** In a sorted array, a run ending below the target does not hold it. */
  lemma BelowMissesTarget(s: seq<int>, t: int, lo: nat, hi: nat)
    requires lo <= hi < |s| && Sorted(s) && s[hi] < t
    ensures forall k :: lo <= k <= hi ==> s[k] != t
  {
  }

  /** In a sorted array, a run starting above the target does not hold it. */
  lemma AboveMissesTarget(s: seq<int>, t: int, lo: nat, hi: nat)
    requires lo <= hi < |s| && Sorted(s) && t < s[lo]
    ensures forall k :: lo <= k <= hi ==> s[k] != t
  {
  }

  function Pow2(k: nat): (p: nat)
    ensures 1 <= p
  {
    if k == 0 then 1 else 2 * Pow2(k - 1)
  }

  /** The number of midpoints the loop probes from the window [left, right] on. */
  function Probes(s: seq<int>, t: int, left: nat, right: int): (p: nat)
    requires right < |s|
    ensures p == 0 <==> left > right
    decreases right - left + 1
  {
    if left > right then 0
    else
      var mid := (left + right) / 2;
      if s[mid] == t then 1
      else if s[mid] < t then 1 + Probes(s, t, mid + 1, right)
      else 1 + Probes(s, t, left, mid - 1)
  }

  /**
   * Each probe at least halves the window, so a window of w cells is
   * settled within floor(log2 w) + 1 probes: 2^(probes - 1) <= w.
   */
  lemma {:induction false} ProbesHalve(s: seq<int>, t: int, left: nat, right: int)
    requires right < |s|
    ensures left > right ==> Probes(s, t, left, right) == 0
    ensures left <= right ==> Pow2(Probes(s, t, left, right)) <= 2 * (right - left + 1)
    decreases right - left + 1
  {
    if left <= right {
      var mid := (left + right) / 2;
      if s[mid] < t {
        ProbesHalve(s, t, mid + 1, right);
        assert 2 * (right - mid) <= right - left + 1;
      } else if s[mid] > t {
        ProbesHalve(s, t, left, mid - 1);
        assert 2 * (mid - left) <= right - left + 1;
      }
    }
  }

  /** The result the search should leave behind, decided by how the loop ended. */
  function ResultOfExit(exit: Exit): (r: SearchResult)
    ensures r != NoResult
    ensures r == NotFound <==> exit == Exhausted
    ensures exit.Hit? ==> r == FoundAt(exit.mid)
  {
    match exit
    case Hit(mid) => FoundAt(mid)
    case Exhausted => NotFound
  }

  /**
   * Over a whole sorted array the result names an index holding the target,
   * and reads "not found" exactly when no index holds it.
   */
  lemma ResultMeaning(s: seq<int>, t: int)
    requires 0 < |s| && Sorted(s)
    ensures var r := ResultOfExit(SearchFrom(s, t, 0, |s| - 1));
      && (r == NotFound <==> forall k :: 0 <= k < |s| ==> s[k] != t)
      && (r.FoundAt? ==> r.index < |s| && s[r.index] == t)
  {
    SearchHitIsTarget(s, t, 0, |s| - 1);
    SearchExhaustedIffAbsent(s, t, 0, |s| - 1);
  }

  /**
   * The result the handler leaves as written: the loop sets the index on a
   * hit, but the closing test reads `result` as it was when the handler was
   * created (`prior`), not as the loop left it. A null prior turns every
   * outcome into -1; any other prior leaves a miss at the null set at the start.
   * So the result is right exactly when the prior was null and the search missed,
   * or the prior was set and the search hit.
   */
  function WrittenResult(prior: SearchResult, exit: Exit): (r: SearchResult)
    ensures r == ResultOfExit(exit) <==> (prior == NoResult <==> exit == Exhausted)
  {
    if prior == NoResult then NotFound
    else
      match exit
      case Hit(mid) => FoundAt(mid)
      case Exhausted => NoResult
  }

  const DefaultArray: seq<int> := [1, 3, 4, 7, 8, 10, 12, 15, 20]

  /**
   * The first search after the page loads, with the default array and the
   * default target 7: the loop finds 7 at index 3, yet the result as written
   * reads "not found". A second search then finds the index, and a later
   * miss leaves the dash instead of "not found".
   */
  lemma StaleReadHidesHit()
    ensures SearchFrom(DefaultArray, 7, 0, 8) == Hit(3) && DefaultArray[3] == 7
    ensures WrittenResult(NoResult, SearchFrom(DefaultArray, 7, 0, 8)) == NotFound
    ensures ResultOfExit(SearchFrom(DefaultArray, 7, 0, 8)) == FoundAt(3)
    ensures WrittenResult(NotFound, SearchFrom(DefaultArray, 7, 0, 8)) == FoundAt(3)
    ensures WrittenResult(FoundAt(3), SearchFrom(DefaultArray, 5, 0, 8)) == NoResult
    ensures ResultOfExit(SearchFrom(DefaultArray, 5, 0, 8)) == NotFound
  {
    assert SearchFrom(DefaultArray, 7, 0, 8) == SearchFrom(DefaultArray, 7, 0, 3);
    assert SearchFrom(DefaultArray, 7, 0, 3) == SearchFrom(DefaultArray, 7, 2, 3);
    assert SearchFrom(DefaultArray, 7, 2, 3) == SearchFrom(DefaultArray, 7, 3, 3);
    assert SearchFrom(DefaultArray, 5, 0, 8) == SearchFrom(DefaultArray, 5, 0, 3);
    assert SearchFrom(DefaultArray, 5, 0, 3) == SearchFrom(DefaultArray, 5, 2, 3);
    assert SearchFrom(DefaultArray, 5, 2, 3) == SearchFrom(DefaultArray, 5, 3, 3);
    assert SearchFrom(DefaultArray, 5, 3, 3) == SearchFrom(DefaultArray, 5, 3, 2);
  }

  class BinarySearchVisualizer {
    var arr: seq<int>
    var target: int
    var isSearching: bool
    var highlight: Highlight
    var result: SearchResult

    /** The array is kept in ascending order by every way of setting it. */
    ghost predicate Valid()
      reads this
    {
      Sorted(arr)
    }

    constructor ()
      ensures Valid()
      ensures arr == DefaultArray && target == 7
      ensures !isSearching && highlight == NoHighlight && result == NoResult
    {
      arr := DefaultArray;
      target := 7;
      isSearching := false;
      highlight := NoHighlight;
      result := NoResult;
    }

    /** Publishes a window; the requires is the bound every publication must meet. */
    method Show(h: Highlight, n: int)
      requires h.Window? ==> 0 <= h.left <= h.mid <= h.right < n
      modifies this`highlight
      ensures highlight == h
    {
      highlight := h;
    }

    /** Loading from text: a non-empty parse is sorted ascending and clears the result. */
    method HandleLoadFromText(parsed: seq<int>)
      requires Valid()
      modifies this`arr, this`result
      ensures Valid()
      ensures parsed == [] ==> arr == old(arr) && result == old(result)
      ensures parsed != [] ==> arr == SortAscending(parsed) && result == NoResult
      ensures multiset(arr) == if parsed == [] then multiset(old(arr)) else multiset(parsed)
    {
      if |parsed| > 0 {
        arr := SortAscending(parsed);
        result := NoResult;
      }
    }

    /** The random button: twelve draws from [1, 100], sorted ascending, and the result cleared. */
    method HandleRandom(draws: seq<int>)
      requires |draws| == 12 && forall k :: 0 <= k < |draws| ==> 1 <= draws[k] <= 100
      modifies this`arr, this`result
      ensures Valid()
      ensures arr == SortAscending(draws) && multiset(arr) == multiset(draws) && result == NoResult
    {
      arr := SortAscending(draws);
      result := NoResult;
    }

    /** The reset button: the result and the highlight are cleared. */
    method HandleReset()
      modifies this`result, this`highlight
      ensures result == NoResult && highlight == NoHighlight
    {
      result := NoResult;
      highlight := NoHighlight;
    }

    /**
     * One turn of the loop: the midpoint of [left, right] is published and
     * probed, and on a miss the window narrows to the side of the target.
     */
    method Probe(s: seq<int>, t: int, left: nat, right: int) returns (mid: nat, hit: bool, left': nat, right': int)
      requires left <= right < |s|
      modifies this`highlight
      ensures mid == (left + right) / 2
      ensures highlight == Window(left, right, mid, hit)
      ensures hit ==> SearchFrom(s, t, left, right) == Hit(mid) && Probes(s, t, left, right) == 1
      ensures !hit ==> && right' < |s| && right' - left' < right - left
                       && SearchFrom(s, t, left', right') == SearchFrom(s, t, left, right)
                       && Probes(s, t, left, right) == 1 + Probes(s, t, left', right')
    {
      mid := (left + right) / 2;
      Show(Window(left, right, mid, false), |s|);
      left', right' := left, right;
      hit := s[mid] == t;
      if hit {
        Show(Window(left, right, mid, true), |s|);
      } else if s[mid] < t {
        left' := mid + 1;
      } else {
        right' := mid - 1;
      }
    }

    /**
     * The loop over a non-empty array: the window shrinks on every probe,
     * every probe is published inside the array, and the exit is the one
     * the specification function gives for the whole array.
     */
    method Search(s: seq<int>, t: int) returns (exit: Exit, ghost probes: nat)
      requires 0 < |s|
      modifies this`highlight
      ensures exit == SearchFrom(s, t, 0, |s| - 1)
      ensures probes == Probes(s, t, 0, |s| - 1) && Pow2(probes) <= 2 * |s|
      ensures highlight.Window? && highlight.found == exit.Hit?
      ensures exit.Hit? ==> highlight.mid == exit.mid
    {
      var left: nat, right: int := 0, |s| - 1;
      probes := 0;
      ghost var whole, wholeProbes := SearchFrom(s, t, 0, |s| - 1), Probes(s, t, 0, |s| - 1);
      ghost var shown := false;
      ProbesHalve(s, t, 0, |s| - 1);
      while left <= right
        invariant right < |s|
        invariant SearchFrom(s, t, left, right) == whole
        invariant probes + Probes(s, t, left, right) == wholeProbes
        invariant shown || (left == 0 && right == |s| - 1)
        invariant shown ==> highlight.Window? && !highlight.found
        decreases right - left
      {
        var mid, hit;
        mid, hit, left, right := Probe(s, t, left, right);
        probes := probes + 1;
        shown := true;
        if hit {
          return Hit(mid), probes;
        }
      }
      exit := Exhausted;
    }

    /**
     * The start button: ignored while a search runs, an alert for an empty
     * array, and otherwise a search whose result is decided by how the loop
     * ended. The array is only read.
     */
    method HandleStart() returns (outcome: StartOutcome)
      requires Valid()
      modifies this`isSearching, this`highlight, this`result
      ensures Valid() && arr == old(arr) && target == old(target)
      ensures old(isSearching) ==>
        outcome == Ignored && isSearching && highlight == old(highlight) && result == old(result)
      ensures !old(isSearching) && arr == [] ==>
        outcome == RejectedEmpty && !isSearching && highlight == old(highlight) && result == old(result)
      ensures !old(isSearching) && arr != [] ==>
        && outcome == Completed && !isSearching
        && result == ResultOfExit(SearchFrom(arr, target, 0, |arr| - 1))
        && (result == NotFound <==> forall k :: 0 <= k < |arr| ==> arr[k] != target)
        && (result.FoundAt? ==> result.index < |arr| && arr[result.index] == target)
        && highlight.Window? && highlight.found == result.FoundAt?
    {
      if isSearching {
        return Ignored;
      }
      if |arr| == 0 {
        return RejectedEmpty;
      }
      isSearching := true;
      result := NoResult;
      var s, t := arr, target;
      var exit, probes := Search(s, t);
      ResultMeaning(s, t);
      result := ResultOfExit(exit);
      isSearching := false;
      outcome := Completed;
    }
  }
}
