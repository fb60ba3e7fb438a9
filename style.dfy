/** Tab cycling and `Max` from internal/tui/style/func.go. */
module TabStyle {
  import opened Base
  import opened Cycle

  /** The larger of two integers. */
  function Max(a: int, b: int): (r: int)
    ensures r >= a && r >= b
    ensures r == a || r == b
  {
    if a > b then a else b
  }

  /** The tab SwitchTab lands on: with fewer than two tabs, `current` itself;
      otherwise the neighbour (next or previous, wrapping around) of the first tab
      named `current`, or of tab 0 when no tab has that name. */
  function Switched(tabs: seq<string>, current: string, isNext: bool): (r: string)
    ensures |tabs| < 2 ==> r == current
    ensures |tabs| >= 2 ==> r in tabs
  {
    if |tabs| < 2 then current
    else
      var i := FirstIndexOf(tabs, current).GetOr(0);
      tabs[if isNext then Forward(i, |tabs|) else Backward(i, |tabs|)]
  }

  /** SwitchTab: find the first tab equal to `current` (index 0 when none is), then
      step forward or backward with wraparound. */
  method SwitchTab(tabs: seq<string>, current: string, isNext: bool) returns (r: string)
    ensures r == Switched(tabs, current, isNext)
  {
    if |tabs| < 2 {
      return current;
    }
    var index := 0;
    var i := 0;
    while i < |tabs|
      invariant 0 <= i <= |tabs|
      invariant forall j :: 0 <= j < i ==> tabs[j] != current
      invariant index == 0
    {
      if tabs[i] == current {
        index := i;
        break;
      }
      i := i + 1;
    }
    assert index == FirstIndexOf(tabs, current).GetOr(0);
    if isNext {
      index := index + 1;
      if index >= |tabs| {
        index := 0;
      }
    } else {
      index := index - 1;
      if index < 0 {
        index := |tabs| - 1;
      }
    }
    r := tabs[index];
  }

  /** Tab names that are pairwise different. */
  predicate Distinct(tabs: seq<string>) {
    forall i, j :: 0 <= i < j < |tabs| ==> tabs[i] != tabs[j]
  }

  /** With distinct names every tab is the first of its name. */
  lemma DistinctFirstOfName(tabs: seq<string>, i: int)
    requires Distinct(tabs) && 0 <= i < |tabs|
    ensures FirstOfName(tabs, i)
  {
  }

  /** Tab i is the first tab with its name. */
  predicate FirstOfName(tabs: seq<string>, i: int) {
    0 <= i < |tabs| && forall j :: 0 <= j < i ==> tabs[j] != tabs[i]
  }

  /** The neighbours of the first tab named like tab i are tab i+1 and tab i-1 modulo
      n; later tabs of the same name are never the starting point. */
  lemma SwitchedAt(tabs: seq<string>, i: nat)
    requires |tabs| >= 2 && FirstOfName(tabs, i)
    ensures Switched(tabs, tabs[i], true) == tabs[(i + 1) % |tabs|]
    ensures Switched(tabs, tabs[i], false) == tabs[(i - 1 + |tabs|) % |tabs|]
  {
    var f := FirstIndexOf(tabs, tabs[i]);
    assert f.Some?;
    if f.value > i {
      assert false;
    }
    assert f.value == i;
  }

  /** With a name repeated, the previous tab of the first one can be the same name
      again: with tabs a, b, a, prev from "a" stays on "a". */
  lemma SwitchedRepeatedName()
    ensures Switched(["a", "b", "a"], "a", false) == "a"
    ensures Switched(["a", "b", "a"], "a", true) == "b"
  {
    SwitchedAt(["a", "b", "a"], 0);
  }

  /** A name that is no tab counts as tab 0: next gives tab 1, previous the last tab. */
  lemma SwitchedFromUnknown(tabs: seq<string>, current: string)
    requires |tabs| >= 2 && current !in tabs
    ensures Switched(tabs, current, true) == tabs[1]
    ensures Switched(tabs, current, false) == tabs[|tabs| - 1]
  {
  }

  /** With distinct names and `current` a tab, next then previous (or previous then next) returns `current`. */
  lemma SwitchedRoundTrip(tabs: seq<string>, current: string)
    requires |tabs| >= 2 && Distinct(tabs) && current in tabs
    ensures Switched(tabs, Switched(tabs, current, true), false) == current
    ensures Switched(tabs, Switched(tabs, current, false), true) == current
  {
    var i :| 0 <= i < |tabs| && tabs[i] == current;
    var n := |tabs|;
    DistinctFirstOfName(tabs, i);
    DistinctFirstOfName(tabs, Forward(i, n));
    DistinctFirstOfName(tabs, Backward(i, n));
    SwitchedAt(tabs, i);
    SwitchedAt(tabs, Forward(i, n));
    SwitchedAt(tabs, Backward(i, n));
    ForwardBackwardInverse(i, n);
  }

  /** `k` presses of the next-tab key. */
  function SwitchedIter(tabs: seq<string>, current: string, k: nat): string
    decreases k
  {
    if k == 0 then current else SwitchedIter(tabs, Switched(tabs, current, true), k - 1)
  }

  lemma {:induction false} SwitchedIterAt(tabs: seq<string>, i: nat, k: nat)
    requires |tabs| >= 2 && Distinct(tabs) && i < |tabs|
    ensures 0 <= ForwardIter(i, |tabs|, k) < |tabs|
    ensures SwitchedIter(tabs, tabs[i], k) == tabs[ForwardIter(i, |tabs|, k)]
    decreases k
  {
    ForwardIterInRange(i, |tabs|, k);
    if k > 0 {
      DistinctFirstOfName(tabs, i);
      SwitchedAt(tabs, i);
      SwitchedIterAt(tabs, Forward(i, |tabs|), k - 1);
    }
  }

  /** With distinct names and `current` a tab, pressing next once per tab returns to `current`. */
  lemma SwitchedCycle(tabs: seq<string>, current: string)
    requires |tabs| >= 2 && Distinct(tabs) && current in tabs
    ensures SwitchedIter(tabs, current, |tabs|) == current
  {
    var i :| 0 <= i < |tabs| && tabs[i] == current;
    SwitchedIterAt(tabs, i, |tabs|);
    ForwardCycle(i, |tabs|);
  }
}
