/**
 * The tab list of the activity: an ordered list of tabs and the `currentTabIndex`
 * cursor, which is -1 exactly when no tab is selected. Both revisions share the
 * create / switch / close logic; the tab type is a parameter (a page in the earlier
 * revision, a per-tab configuration in the later one).
 */
module Tabs {
  import opened Wrappers

  /** `removeAt(i)`: the list without its i-th element. */
  function RemoveAt<T>(xs: seq<T>, i: nat): (r: seq<T>)
    requires i < |xs|
    ensures |r| == |xs| - 1
    ensures forall j :: 0 <= j < i ==> r[j] == xs[j]
    ensures forall j :: i <= j < |r| ==> r[j] == xs[j + 1]
    ensures multiset(r) + multiset{xs[i]} == multiset(xs)
  {
    assert xs == xs[..i] + [xs[i]] + xs[i + 1..];
    xs[..i] + xs[i + 1..]
  }

  /**
   * The cursor after closing the tab at `closedAt`, with `remaining` tabs left: -1 when
   * none is left, else the tab to the left of the closed one, or the first tab.
   */
  function CursorAfterClose(closedAt: nat, remaining: nat): (c: int)
    requires closedAt <= remaining
    ensures remaining == 0 <==> c == -1
    ensures remaining > 0 ==> 0 <= c < remaining
  {
    if remaining == 0 then -1
    else if closedAt - 1 >= 0 then closedAt - 1
    else 0
  }

  /**
   * After a close the selected tab is the closed tab's left neighbour, or, when the
   * first tab was closed, the tab that was to its right.
   */
  lemma CloseSelectsNeighbour<T>(xs: seq<T>, i: nat)
    requires i < |xs| && |xs| > 1
    ensures RemoveAt(xs, i)[CursorAfterClose(i, |xs| - 1)] == if i > 0 then xs[i - 1] else xs[1]
  {
  }

  class TabStrip<T> {
    var tabs: seq<T>
    var currentTabIndex: int

    /** The cursor is -1 with no tab selected, otherwise a valid index. */
    predicate Valid()
      reads this
    {
      currentTabIndex == -1 || 0 <= currentTabIndex < |tabs|
    }

    constructor ()
      ensures tabs == [] && currentTabIndex == -1
      ensures Valid()
    {
      tabs := [];
      currentTabIndex := -1;
    }

    /** The selected tab, if any: `getCurrentWebView()`. */
    function Current(): (r: Option<T>)
      reads this
      requires Valid()
      ensures r.None? <==> currentTabIndex == -1
      ensures currentTabIndex != -1 ==> r == Some(tabs[currentTabIndex])
    {
      if currentTabIndex >= 0 then Some(tabs[currentTabIndex]) else None
    }

    /** `switchToTab(index)`: an index outside the list changes nothing. */
    method SwitchTo(index: int)
      modifies this
      ensures tabs == old(tabs)
      ensures currentTabIndex == if 0 <= index < |tabs| then index else old(currentTabIndex)
      ensures old(Valid()) ==> Valid()
      ensures 0 <= index < |tabs| ==> Valid() && Current() == Some(tabs[index])
    {
      if index < 0 || index >= |tabs| {
        return;
      }
      currentTabIndex := index;
    }

    /** `createNewTab`: append the tab and select it. */
    method Create(t: T)
      modifies this
      ensures tabs == old(tabs) + [t]
      ensures currentTabIndex == |old(tabs)|
      ensures Valid() && Current() == Some(t)
    {
      tabs := tabs + [t];
      SwitchTo(|tabs| - 1);
    }

    /** Replace the selected tab by `t` (an in-place edit of its configuration). */
    method ReplaceCurrent(t: T)
      requires Valid() && currentTabIndex != -1
      modifies this
      ensures tabs == old(tabs)[old(currentTabIndex) := t]
      ensures currentTabIndex == old(currentTabIndex)
      ensures Valid() && Current() == Some(t)
    {
      tabs := tabs[currentTabIndex := t];
    }

    /**
     * `closeCurrentTab`: with no tab selected nothing happens; otherwise exactly the
     * selected tab is removed, the others keep their order, and the cursor moves per
     * `CursorAfterClose`.
     */
    method CloseCurrent() returns (closed: Option<T>)
      requires Valid()
      modifies this
      ensures Valid()
      ensures old(currentTabIndex) == -1 ==>
                closed == None && tabs == old(tabs) && currentTabIndex == -1
      ensures old(currentTabIndex) != -1 ==>
                closed == Some(old(tabs)[old(currentTabIndex)])
                && tabs == RemoveAt(old(tabs), old(currentTabIndex))
                && currentTabIndex == CursorAfterClose(old(currentTabIndex), |tabs|)
    {
      if currentTabIndex == -1 {
        return None;
      }
      closed := Some(tabs[currentTabIndex]);
      var at := currentTabIndex;
      tabs := RemoveAt(tabs, at);
      if |tabs| == 0 {
        currentTabIndex := -1;
      } else {
        SwitchTo(if at - 1 >= 0 then at - 1 else 0);
      }
    }
  }
}
