/**
 * The linear-search visualizer: a left-to-right scan of the array for the
 * target, counting one comparison per visited cell and highlighting the cell
 * under test, then the cell found.
 */
module LinearSearch {
  import opened Wrappers

  /**
   * The target field: unset (`null`, the initial state), a number, or the NaN
   * that `parseInt` gives for text that is not a number. NaN is not `null`,
   * so it passes the guard, and it is `===` to nothing.
   */
  datatype Target = Unset | Number(value: int) | NaN

  /** The `===` test of a cell against the target. */
  predicate Matches(x: int, t: Target): (b: bool)
    ensures b <==> t == Number(x)
  {
    t.Number? && t.value == x
  }

  /** The highlight descriptor: the cell under test, the cell found, or nothing. */
  datatype Highlight = NoHighlight | Current(current: int) | Found(found: int)

  /** What a click on the search button ends in. */
  datatype SearchOutcome = Ignored | RejectedEmpty | FoundAt(index: nat) | NotFound

  /**
   * The first index of `s` whose cell matches `t`: the index the scan
   * reports, or None when the scan runs off the end.
   */
  function FirstIndexOf(s: seq<int>, t: Target): (r: Option<nat>)
    ensures r.Some? ==> r.value < |s| && Matches(s[r.value], t)
    ensures r.Some? ==> forall k :: 0 <= k < r.value ==> !Matches(s[k], t)
    ensures r.None? <==> forall k :: 0 <= k < |s| ==> !Matches(s[k], t)
  {
    if s == [] then None
    else if Matches(s[0], t) then Some(0)
    else
      match FirstIndexOf(s[1..], t)
      case None => None
      case Some(i) =>
        assert s[i + 1] == s[1..][i];
        Some(i + 1)
  }

  /** Conversely, a matching index with no match before it is the one reported. */
  lemma {:induction false} FirstIndexOfUnique(s: seq<int>, t: Target, i: nat)
    requires i < |s| && Matches(s[i], t)
    requires forall k :: 0 <= k < i ==> !Matches(s[k], t)
    ensures FirstIndexOf(s, t) == Some(i)
  {
    if 0 < i {
      forall k | 0 <= k < i - 1
        ensures !Matches(s[1..][k], t)
      {
        assert s[1..][k] == s[k + 1];
      }
      FirstIndexOfUnique(s[1..], t, i - 1);
    }
  }

  /** A target that is unset or NaN matches nothing, so a scan for it never stops early. */
  lemma {:induction false} NoNumberNoMatch(s: seq<int>, t: Target)
    requires !t.Number?
    ensures FirstIndexOf(s, t) == None
  {
    if s != [] {
      NoNumberNoMatch(s[1..], t);
    }
  }

  class LinearSearchVisualizer {
    var arr: seq<int>
    var comparisons: nat
    var highlight: Highlight
    var isSearching: bool
    var target: Target

    constructor ()
      ensures arr == [12, 4, 8, 20, 1, 15, 7, 3, 10]
      ensures comparisons == 0 && highlight == NoHighlight && !isSearching && target == Unset
    {
      arr := [12, 4, 8, 20, 1, 15, 7, 3, 10];
      comparisons := 0;
      highlight := NoHighlight;
      isSearching := false;
      target := Unset;
    }

    /** Publishes a highlight; the requires is the bound every publication must meet. */
    method Show(h: Highlight, n: int)
      requires h.Current? ==> 0 <= h.current < n
      requires h.Found? ==> 0 <= h.found < n
      modifies this`highlight
      ensures highlight == h
    {
      highlight := h;
    }

    /** The target input: every edit replaces the target. */
    method SetTarget(t: Target)
      requires t != Unset
      modifies this`target
      ensures target == t
    {
      target := t;
    }

    /**
     * The random button: fifteen draws from [1, 100] (the draws are a
     * parameter), with the counter and the highlight cleared.
     */
    method HandleRandom(draws: seq<int>)
      requires |draws| == 15 && forall k :: 0 <= k < |draws| ==> 1 <= draws[k] <= 100
      modifies this`arr, this`comparisons, this`highlight
      ensures arr == draws && comparisons == 0 && highlight == NoHighlight
    {
      arr := draws;
      comparisons := 0;
      highlight := NoHighlight;
    }

    /** Loading from text: an empty parse keeps the array as it was. */
    method HandleLoadFromText(parsed: seq<int>)
      modifies this`arr
      ensures arr == if parsed == [] then old(arr) else parsed
    {
      if |parsed| > 0 {
        arr := parsed;
      }
    }

    /** The reset button: the counter and the highlight are cleared. */
    method HandleReset()
      modifies this`comparisons, this`highlight
      ensures comparisons == 0 && highlight == NoHighlight
    {
      comparisons := 0;
      highlight := NoHighlight;
    }

    /**
     * The search button: ignored while a search runs or while the target is
     * unset, an alert for an empty array, and otherwise a scan from index 0
     * that stops at the first match. The array is only read.
     */
    method HandleSearch() returns (outcome: SearchOutcome)
      modifies this`comparisons, this`highlight, this`isSearching
      ensures arr == old(arr) && target == old(target)
      ensures old(isSearching) || old(target) == Unset ==>
        outcome == Ignored && comparisons == old(comparisons) && highlight == old(highlight) && isSearching == old(isSearching)
      ensures !old(isSearching) && old(target) != Unset && arr == [] ==>
        outcome == RejectedEmpty && comparisons == old(comparisons) && highlight == old(highlight) && !isSearching
      ensures !old(isSearching) && old(target) != Unset && arr != [] ==>
        && !isSearching
        && match FirstIndexOf(arr, target)
           case Some(i) => outcome == FoundAt(i) && comparisons == i + 1 && highlight == Found(i)
           case None => outcome == NotFound && comparisons == |arr| && highlight == Current(|arr| - 1)
    {
      if isSearching || target == Unset {
        return Ignored;
      }
      if |arr| == 0 {
        return RejectedEmpty;
      }
      comparisons := 0;
      highlight := NoHighlight;
      isSearching := true;
      var s, t := arr, target;
      for i := 0 to |s|
        invariant comparisons == i
        invariant forall k :: 0 <= k < i ==> !Matches(s[k], t)
        invariant 0 < i ==> highlight == Current(i - 1)
        invariant arr == s && target == t && isSearching
      {
        Show(Current(i), |s|);
        comparisons := comparisons + 1;
        if Matches(s[i], t) {
          Show(Found(i), |s|);
          isSearching := false;
          FirstIndexOfUnique(s, t, i);
          return FoundAt(i);
        }
      }
      isSearching := false;
      outcome := NotFound;
    }
  }
}
