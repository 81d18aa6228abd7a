/** OverviewBar.kt, `jumpOffsetHandler`: a click or drag on the overview bar jumps to the frame under
    the cursor, found by a binary search over the recorded left offsets of the frame boxes. Offsets are
    taken as reals; the rendering that records them is not modelled. */
module OverviewBar {
  import opened Errors
  import FrameNavigation
  import Doubles

  /** The offsets grow from left to right, as the boxes are laid out. */
  predicate Sorted(s: seq<real>)
  {
    forall i, j :: 0 <= i <= j < |s| ==> s[i] <= s[j]
  }

  /** The first position in [lo, hi) whose offset is at least `x`, or `hi` when there is none. */
  function LowerBound(s: seq<real>, x: real, lo: nat, hi: nat): (r: nat)
    requires lo <= hi <= |s|
    ensures lo <= r <= hi
    ensures forall k :: lo <= k < r ==> s[k] < x
    ensures r < hi ==> s[r] >= x
    decreases hi - lo
  {
    if lo == hi then hi else if s[lo] >= x then lo else LowerBound(s, x, lo + 1, hi)
  }

  /** A split point is unique: any position with only smaller offsets before it and only larger or
      equal ones from it on is the lower bound. */
  lemma {:induction false} LowerBoundUnique(s: seq<real>, x: real, lo: nat, hi: nat, p: nat)
    requires lo <= p <= hi <= |s|
    requires forall k :: lo <= k < p ==> s[k] < x
    requires forall k :: p <= k < hi ==> s[k] >= x
    ensures p == LowerBound(s, x, lo, hi)
    decreases hi - lo
  {
    if lo < p {
      assert s[lo] < x;
      LowerBoundUnique(s, x, lo + 1, hi, p);
    } else if lo < hi {
      assert s[lo] >= x;
    }
  }

  /** The search loop of `jumpOffsetHandler` on [lower, upper). Whatever the offsets, the result has a
      smaller offset just before it (or is the start) and a larger or equal one at it (or is the end);
      on sorted offsets it is the lower bound. */
  method Search(offsetList: seq<real>, cursorX: real, lower0: nat, upper0: nat) returns (lower: nat)
    requires lower0 <= upper0 <= |offsetList|
    ensures lower0 <= lower <= upper0
    ensures lower > lower0 ==> offsetList[lower - 1] < cursorX
    ensures lower < upper0 ==> offsetList[lower] >= cursorX
    ensures Sorted(offsetList) ==> lower == LowerBound(offsetList, cursorX, lower0, upper0)
  {
    lower := lower0;
    var upper := upper0;
    while lower < upper
      invariant lower0 <= lower <= upper <= upper0
      invariant lower > lower0 ==> offsetList[lower - 1] < cursorX
      invariant upper < upper0 ==> offsetList[upper] >= cursorX
      invariant Sorted(offsetList) ==> forall k :: lower0 <= k < lower ==> offsetList[k] < cursorX
      invariant Sorted(offsetList) ==> forall k :: upper <= k < upper0 ==> offsetList[k] >= cursorX
      decreases upper - lower
    {
      var mid := (lower + upper) / 2;
      if offsetList[mid] < cursorX {
        lower := mid + 1;
      } else {
        upper := mid;
      }
    }
    if Sorted(offsetList) {
      LowerBoundUnique(offsetList, cursorX, lower0, upper0, lower);
    }
  }

  /** The search range: the whole bar but its last box, cut down by the direction of a drag. A drag
      to the left searches up to the box after the shown one, a drag to the right from the shown one. */
  function SearchRange(size: nat, currentDiffIndex: nat, dragX: real): (r: (nat, nat))
    requires currentDiffIndex < size
    ensures r.0 <= r.1 <= size
    ensures dragX < 0.0 ==> r == (0, currentDiffIndex + 1)
    ensures dragX > 0.0 ==> r == (currentDiffIndex, size - 1)
    ensures dragX == 0.0 ==> r == (0, size - 1)
  {
    if dragX < 0.0 then (0, currentDiffIndex + 1)
    else if dragX > 0.0 then (currentDiffIndex, size - 1)
    else (0, size - 1)
  }

  /** The frame a click selects from the search result: past the last box when the click itself
      (without the drag) lies right of the last box's offset, else the result; the handler then jumps
      to the frame before it. */
  function Selected(offsetList: seq<real>, found: nat, offsetX: real): (r: nat)
    requires found <= |offsetList|
    ensures found == |offsetList| - 1 && offsetX > offsetList[found] ==> r == |offsetList|
    ensures !(found == |offsetList| - 1 && offsetX > offsetList[found]) ==> r == found
  {
    if found == |offsetList| - 1 && offsetX > offsetList[found] then found + 1 else found
  }

  /** `jumpOffsetHandler(offset, dragOffset)` on the x coordinates. The composable has read
      `offsetList[currentDiffIndex]` before any handler runs, so the shown frame has a box. Returns the
      new cursor offset and the selected position; the navigator is asked for the frame before it,
      which `jump` clamps into the video. */
  method JumpOffsetHandler(navigator: FrameNavigation.FrameNavigation, offsetList: seq<real>, offsetX: real, dragX: real)
    returns (cursorX: real, lower: nat, r: Outcome)
    requires |offsetList| == |navigator.diffSequence| && navigator.currentDiffIndex < |offsetList|
    modifies navigator
    ensures cursorX == offsetX + dragX
    ensures var range := SearchRange(|offsetList|, old(navigator.currentDiffIndex), dragX);
            range.0 <= lower <= range.1 + 1
            && (Sorted(offsetList) ==> lower == Selected(offsetList, LowerBound(offsetList, cursorX, range.0, range.1), offsetX))
    ensures r == Pass && navigator.currentIndex == lower - 1
    ensures navigator.currentDiffIndex == FrameNavigation.Clamp(lower - 1, |offsetList|)
    ensures navigator.currentRelativePosition == Doubles.Divide(navigator.currentDiffIndex, |offsetList| - 1)
    ensures navigator.callbacks == old(navigator.callbacks) + 1
  {
    cursorX := offsetX + dragX;
    var range := SearchRange(|offsetList|, navigator.currentDiffIndex, dragX);
    var found := Search(offsetList, cursorX, range.0, range.1);
    lower := if found == |offsetList| - 1 && offsetX > offsetList[found] then found + 1 else found;
    r := navigator.JumpToFrame(lower - 1);
  }

  /** A click left of every box selects the first frame, and one right of the last box's offset the
      last frame: -1 and the size, clamped by the jump. */
  lemma ClicksAtTheEnds(offsetList: seq<real>, x: real)
    requires |offsetList| > 0 && Sorted(offsetList)
    ensures x <= offsetList[0] ==> Selected(offsetList, LowerBound(offsetList, x, 0, |offsetList| - 1), x) == 0
    ensures x > offsetList[|offsetList| - 1] ==>
            Selected(offsetList, LowerBound(offsetList, x, 0, |offsetList| - 1), x) == |offsetList|
  {
    var n := |offsetList|;
    if x > offsetList[n - 1] {
      LowerBoundUnique(offsetList, x, 0, n - 1, n - 1);
    }
  }
}
