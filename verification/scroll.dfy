/** `_auto_scroll` and `_auto_scroll_step`: scrolling to the bottom of a page
    and watching `document.body.scrollHeight`. The heights the page reports
    after each scroll are given in advance; the two-second waits are not
    modelled. */
module Scroll {

  /** The iteration bound of `_auto_scroll`. */
  const MaxScrolls: nat := 100

  /** The height `_auto_scroll` compares reading `i` with: -1 before the
      first reading, the previous reading afterwards. */
  function Previous(heights: seq<int>, i: nat): int
    requires i < |heights|
  {
    if i == 0 then -1 else heights[i - 1]
  }

  /** `_auto_scroll`: scroll, read the height, stop when it equals the
      previous reading, at most `MaxScrolls` times. `scrolls` is the number of
      scrolls done (= heights read) and `settled` says whether the loop ended
      on an unchanged height rather than on the bound. */
  method AutoScroll(heights: seq<int>) returns (scrolls: nat, settled: bool)
    requires |heights| >= MaxScrolls
    ensures 1 <= scrolls <= MaxScrolls
    ensures forall i :: 0 <= i < scrolls - 1 ==> heights[i] != Previous(heights, i)
    ensures settled <==> heights[scrolls - 1] == Previous(heights, scrolls - 1)
    ensures !settled ==> scrolls == MaxScrolls
    ensures (forall i :: 0 <= i < |heights| ==> heights[i] >= 0) ==> scrolls >= 2
  {
    var prev := -1;
    var count := 0;
    scrolls := 0;
    settled := false;
    while count < MaxScrolls
      invariant count <= MaxScrolls
      invariant scrolls == count
      invariant forall i :: 0 <= i < count ==> heights[i] != Previous(heights, i)
      invariant prev == if count == 0 then -1 else heights[count - 1]
      decreases MaxScrolls - count
    {
      var height := heights[count];
      scrolls := scrolls + 1;
      if height == prev {
        settled := true;
        return;
      }
      prev := height;
      count := count + 1;
    }
  }

  /** Two height readings around one scroll. */
  datatype Reading = Reading(before: int, after: int)

  /** `_auto_scroll_step`: the page grew. */
  predicate Grew(r: Reading) {
    r.after > r.before
  }
}
