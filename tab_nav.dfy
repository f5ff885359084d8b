/**
 * Keyboard navigation of the tab bar (src/components/layout/TabNav.tsx): the
 * arrow keys cycle through the three tabs, Home and End jump to the ends,
 * and every other key leaves the active tab alone.
 */
module TabNav {
  import opened Wrappers
  import opened Alphabet

  /** The three tabs, `'simulator' | 'tutorial' | 'history'`. */
  datatype Tab = SimulatorTab | TutorialTab | HistoryTab

  /** `tabs`, in the order the bar shows them. */
  const TABS: seq<Tab> := [SimulatorTab, TutorialTab, HistoryTab]

  /** `tabs.findIndex`: every tab is in the bar, at exactly one place. */
  function IndexOf(t: Tab): (i: int)
    ensures 0 <= i < |TABS| && TABS[i] == t
    ensures forall j :: 0 <= j < |TABS| && TABS[j] == t ==> j == i
  {
    match t
    case SimulatorTab => 0
    case TutorialTab => 1
    case HistoryTab => 2
  }

  /**
   * `nextIndex` in `handleKeyDown`: the index of the tab a key moves to, or
   * -1 for a key the bar does not handle. `%` is JavaScript's.
   */
  function NextIndex(active: Tab, key: string): (n: int)
    ensures n == -1 <==> key !in {"ArrowRight", "ArrowLeft", "Home", "End"}
    ensures n != -1 ==> 0 <= n < |TABS|
  {
    var currentIndex := IndexOf(active);
    if key == "ArrowRight" then JsRem(currentIndex + 1, |TABS|)
    else if key == "ArrowLeft" then JsRem(currentIndex - 1 + |TABS|, |TABS|)
    else if key == "Home" then 0
    else if key == "End" then |TABS| - 1
    else -1
  }

  /** The tab handed to `onTabChange`, or `None` when the key is not handled. */
  function HandleKeyDown(active: Tab, key: string): (r: Option<Tab>)
    ensures r.None? <==> NextIndex(active, key) == -1
    ensures r.Some? ==> r.value == TABS[NextIndex(active, key)]
  {
    var nextIndex := NextIndex(active, key);
    if nextIndex >= 0 then Some(TABS[nextIndex]) else None
  }

  /** The right arrow moves one tab on and wraps from the last to the first; the left arrow is its mirror. */
  lemma ArrowSteps(active: Tab)
    ensures IndexOf(active) < |TABS| - 1 ==> HandleKeyDown(active, "ArrowRight") == Some(TABS[IndexOf(active) + 1])
    ensures IndexOf(active) == |TABS| - 1 ==> HandleKeyDown(active, "ArrowRight") == Some(TABS[0])
    ensures IndexOf(active) > 0 ==> HandleKeyDown(active, "ArrowLeft") == Some(TABS[IndexOf(active) - 1])
    ensures IndexOf(active) == 0 ==> HandleKeyDown(active, "ArrowLeft") == Some(TABS[|TABS| - 1])
  {
  }

  /** Left undoes right and right undoes left, from every tab. */
  lemma ArrowsInverse(active: Tab)
    ensures HandleKeyDown(HandleKeyDown(active, "ArrowRight").value, "ArrowLeft") == Some(active)
    ensures HandleKeyDown(HandleKeyDown(active, "ArrowLeft").value, "ArrowRight") == Some(active)
  {
    ArrowSteps(active);
    ArrowSteps(HandleKeyDown(active, "ArrowRight").value);
    ArrowSteps(HandleKeyDown(active, "ArrowLeft").value);
  }

  /** The right arrow pressed `n` times. */
  function RightTimes(active: Tab, n: nat): Tab
    decreases n
  {
    if n == 0 then active
    else
      match HandleKeyDown(RightTimes(active, n - 1), "ArrowRight")
      case Some(t) => t
      case None => active
  }

  /** Pressing the right arrow `n` times lands `n` places on, counting round the bar. */
  lemma {:induction false} RightTimesCycles(active: Tab, n: nat)
    ensures IndexOf(RightTimes(active, n)) == (IndexOf(active) + n) % |TABS|
    decreases n
  {
    if n > 0 {
      RightTimesCycles(active, n - 1);
      var before := RightTimes(active, n - 1);
      ArrowSteps(before);
      AddMod(IndexOf(active) + n - 1, 1, |TABS|);
    }
  }

  /** Home and End reach the first and the last tab from anywhere, and other keys change nothing. */
  lemma HomeEndOthers(active: Tab, key: string)
    ensures HandleKeyDown(active, "Home") == Some(SimulatorTab)
    ensures HandleKeyDown(active, "End") == Some(HistoryTab)
    ensures key !in {"ArrowRight", "ArrowLeft", "Home", "End"} ==> HandleKeyDown(active, key).None?
  {
  }
}
