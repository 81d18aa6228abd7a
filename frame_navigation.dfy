/** FrameNavigation.kt: the position of the diff screen in the difference video. `currentIndex` is
    the requested frame, taken as given; `currentDiffIndex` is that request clamped to the video and
    is what the screen shows; a jump also updates the relative position and fires the navigation
    callback, whose calls are counted here. */
module FrameNavigation {
  import opened Errors
  import opened Alignment
  import opened Doubles

  /** `x.coerceIn(0, size - 1)` for a non-empty range. */
  function Clamp(x: int, size: nat): (r: int)
    requires size >= 1
    ensures 0 <= r < size
    ensures 0 <= x < size ==> r == x
    ensures x < 0 ==> r == 0
    ensures x >= size ==> r == size - 1
  {
    if x < 0 then 0 else if x > size - 1 then size - 1 else x
  }

  /** Kotlin's `roundToInt`: the nearest integer, halves rounded up. */
  function Round(x: real): (r: int)
    ensures r as real - 0.5 <= x < r as real + 0.5
  {
    (x + 0.5).Floor
  }

  /** `indexOfFirst { it != PERFECT }`. */
  function IndexOfFirstDiff(s: seq<AlignmentElement>): (r: int)
    ensures -1 <= r < |s|
    ensures r == -1 <==> forall k :: 0 <= k < |s| ==> s[k] == Perfect
    ensures r >= 0 ==> s[r] != Perfect && forall k :: 0 <= k < r ==> s[k] == Perfect
  {
    if s == [] then -1
    else if s[0] != Perfect then 0
    else
      var rest := IndexOfFirstDiff(s[1..]);
      assert forall k :: 1 <= k < |s| ==> s[k] == s[1..][k - 1];
      if rest == -1 then -1 else rest + 1
  }

  /** `indexOfLast { it != PERFECT }`. */
  function IndexOfLastDiff(s: seq<AlignmentElement>): (r: int)
    ensures -1 <= r < |s|
    ensures r == -1 <==> forall k :: 0 <= k < |s| ==> s[k] == Perfect
    ensures r >= 0 ==> s[r] != Perfect && forall k :: r < k < |s| ==> s[k] == Perfect
  {
    if s == [] then -1
    else if s[|s| - 1] != Perfect then |s| - 1
    else
      var rest := IndexOfLastDiff(s[..|s| - 1]);
      assert forall k :: 0 <= k < |s| - 1 ==> s[k] == s[..|s| - 1][k];
      rest
  }

  /** Kotlin's `drop(n)` and `take(n)` for n >= 0. */
  function Drop<X>(s: seq<X>, n: nat): (r: seq<X>)
    ensures n <= |s| ==> r == s[n..]
    ensures n > |s| ==> r == []
  {
    if n <= |s| then s[n..] else []
  }

  function Take<X>(s: seq<X>, n: nat): (r: seq<X>)
    ensures n <= |s| ==> r == s[..n]
    ensures n > |s| ==> r == s
  {
    if n <= |s| then s[..n] else s
  }

  /** The forward branch of `nextDiffIndex`: `drop(index + 1).indexOfFirst`, shifted back to positions in `s`. */
  function NextDiffAfter(s: seq<AlignmentElement>, index: nat): (r: int)
    ensures r == -1 <==> forall k :: index < k < |s| ==> s[k] == Perfect
    ensures r != -1 ==> index < r < |s| && s[r] != Perfect && forall k :: index < k < r ==> s[k] == Perfect
  {
    var rest := Drop(s, index + 1);
    var idx := IndexOfFirstDiff(rest);
    assert forall k :: index < k < |s| ==> s[k] == rest[k - index - 1];
    if idx == -1 then -1 else idx + index + 1
  }

  /** The backward branch of `nextDiffIndex`: `take(index).indexOfLast`. */
  function NextDiffBefore(s: seq<AlignmentElement>, index: nat): (r: int)
    ensures r == -1 <==> forall k :: 0 <= k < index && k < |s| ==> s[k] == Perfect
    ensures r != -1 ==> 0 <= r < index && r < |s| && s[r] != Perfect
                        && forall k :: r < k < index && k < |s| ==> s[k] == Perfect
  {
    var before := Take(s, index);
    assert forall k :: 0 <= k < index && k < |s| ==> s[k] == before[k];
    IndexOfLastDiff(before)
  }

  class FrameNavigation {
    const diffSequence: seq<AlignmentElement>
    var currentIndex: int
    var currentDiffIndex: nat
    var currentRelativePosition: Double
    /** How often the navigation callback has fired. */
    var callbacks: nat

    /** The fields before `init` runs its first `jump`. */
    constructor (diffSequence: seq<AlignmentElement>)
      ensures this.diffSequence == diffSequence
      ensures currentIndex == 0 && currentDiffIndex == 0 && currentRelativePosition == Number(0.0) && callbacks == 0
    {
      this.diffSequence := diffSequence;
      currentIndex, currentDiffIndex, currentRelativePosition, callbacks := 0, 0, Number(0.0), 0;
    }

    /** The whole construction: the fields, then `init`'s `jump()` to the first frame, which throws for
        an empty difference sequence because the clamping range [0, -1] is empty. */
    static method Create(diffSequence: seq<AlignmentElement>) returns (r: Result<FrameNavigation>)
      ensures diffSequence == [] <==> r == Err(IllegalArgument)
      ensures r.Ok? ==> fresh(r.value) && r.value.diffSequence == diffSequence
      ensures r.Ok? ==> r.value.currentIndex == 0 && r.value.currentDiffIndex == 0 && r.value.callbacks == 1
      ensures r.Ok? ==> r.value.currentRelativePosition == Divide(0, |diffSequence| - 1)
    {
      var navigation := new FrameNavigation(diffSequence);
      var jumped := navigation.Jump();
      if jumped.Fail? {
        return Err(jumped.error);
      }
      r := Ok(navigation);
    }

    /** `jump()`: shows the requested frame clamped to the video, with its relative position, and
        fires the callback. The request itself is left as it is. */
    method Jump() returns (r: Outcome)
      modifies this
      ensures diffSequence == [] ==> r == Fail(IllegalArgument) && unchanged(this)
      ensures diffSequence != [] ==> r == Pass
      ensures diffSequence != [] ==> currentDiffIndex == Clamp(currentIndex, |diffSequence|)
      ensures diffSequence != [] ==> currentRelativePosition == Divide(currentDiffIndex, |diffSequence| - 1)
      ensures diffSequence != [] ==> callbacks == old(callbacks) + 1
      ensures currentIndex == old(currentIndex)
    {
      if |diffSequence| == 0 {
        return Fail(IllegalArgument);
      }
      var coercedIndex := Clamp(currentIndex, |diffSequence|);
      currentRelativePosition := Divide(coercedIndex, |diffSequence| - 1);
      currentDiffIndex := coercedIndex;
      callbacks := callbacks + 1;
      r := Pass;
    }

    /** `jumpFrames(frames)`: moves the unclamped request, so steps past either end accumulate. */
    method JumpFrames(frames: int) returns (r: Outcome)
      modifies this
      ensures currentIndex == old(currentIndex) + frames
      ensures r == (if diffSequence == [] then Fail(IllegalArgument) else Pass)
      ensures diffSequence != [] ==> currentDiffIndex == Clamp(old(currentIndex) + frames, |diffSequence|)
      ensures diffSequence != [] ==> currentRelativePosition == Divide(currentDiffIndex, |diffSequence| - 1)
      ensures diffSequence != [] ==> callbacks == old(callbacks) + 1
    {
      currentIndex := currentIndex + frames;
      r := Jump();
    }

    /** `jumpToFrame(index)`. */
    method JumpToFrame(index: int) returns (r: Outcome)
      modifies this
      ensures currentIndex == index
      ensures r == (if diffSequence == [] then Fail(IllegalArgument) else Pass)
      ensures diffSequence != [] ==> currentDiffIndex == Clamp(index, |diffSequence|)
      ensures diffSequence != [] ==> currentRelativePosition == Divide(currentDiffIndex, |diffSequence| - 1)
      ensures diffSequence != [] ==> callbacks == old(callbacks) + 1
    {
      currentIndex := index;
      r := Jump();
    }

    /** `jumpToPercentage(percentage)`: a percentage outside [0, 1] throws; otherwise the target is the
        rounded position in the video, and a target equal to the current request does nothing, not even
        the callback. */
    method JumpToPercentage(percentage: real) returns (r: Outcome)
      modifies this
      ensures (percentage < 0.0 || percentage > 1.0) ==> r == Fail(PercentageOutOfRange) && unchanged(this)
      ensures 0.0 <= percentage <= 1.0 && Round((|diffSequence| - 1) as real * percentage) == old(currentIndex)
              ==> r == Pass && unchanged(this)
      ensures 0.0 <= percentage <= 1.0 && Round((|diffSequence| - 1) as real * percentage) != old(currentIndex)
              ==> currentIndex == Round((|diffSequence| - 1) as real * percentage)
                  && r == (if diffSequence == [] then Fail(IllegalArgument) else Pass)
                  && (diffSequence != [] ==> currentDiffIndex == Clamp(currentIndex, |diffSequence|)
                                              && currentRelativePosition == Divide(currentDiffIndex, |diffSequence| - 1)
                                              && callbacks == old(callbacks) + 1)
    {
      if percentage < 0.0 || percentage > 1.0 {
        return Fail(PercentageOutOfRange);
      }
      var diffFrame := Round((|diffSequence| - 1) as real * percentage);
      if diffFrame == currentIndex {
        return Pass;
      }
      currentIndex := diffFrame;
      r := Jump();
    }

    /** `nextDiffIndex(forward)`: forward, the first position after the shown frame whose element is
        not PERFECT; backward, the last such position before it; -1 when there is none. */
    function NextDiffIndex(forward: bool): (r: int)
      reads this
      ensures forward ==>
              (r == -1 <==> forall k :: currentDiffIndex < k < |diffSequence| ==> diffSequence[k] == Perfect)
      ensures forward && r != -1 ==>
              currentDiffIndex < r < |diffSequence| && diffSequence[r] != Perfect
              && forall k :: currentDiffIndex < k < r ==> diffSequence[k] == Perfect
      ensures !forward ==>
              (r == -1 <==> forall k :: 0 <= k < currentDiffIndex && k < |diffSequence| ==> diffSequence[k] == Perfect)
      ensures !forward && r != -1 ==>
              0 <= r < currentDiffIndex && r < |diffSequence| && diffSequence[r] != Perfect
              && forall k :: r < k < currentDiffIndex && k < |diffSequence| ==> diffSequence[k] == Perfect
    {
      if forward then NextDiffAfter(diffSequence, currentDiffIndex) else NextDiffBefore(diffSequence, currentDiffIndex)
    }

    /** `jumpToNextDiff(forward)`: jumps to the next difference in that direction, and does nothing at
        all when there is none. */
    method JumpToNextDiff(forward: bool) returns (r: Outcome)
      modifies this
      ensures r == Pass
      ensures old(NextDiffIndex(forward)) == -1 ==> unchanged(this)
      ensures old(NextDiffIndex(forward)) != -1 ==>
              currentIndex == old(NextDiffIndex(forward)) && currentDiffIndex == currentIndex
              && currentRelativePosition == Divide(currentDiffIndex, |diffSequence| - 1)
              && callbacks == old(callbacks) + 1
    {
      var index := NextDiffIndex(forward);
      if index == -1 {
        return Pass;
      }
      currentIndex := index;
      r := Jump();
    }

    /** `hasNextFrame(forward)`: the shown frame is not the last (forward) or not the first (backward). */
    function HasNextFrame(forward: bool): (r: bool)
      reads this
      ensures forward ==> (r <==> currentDiffIndex + 1 < |diffSequence|)
      ensures !forward ==> (r <==> currentDiffIndex >= 1)
    {
      if forward then currentDiffIndex < |diffSequence| - 1 else currentDiffIndex > 0
    }

    /** `hasNextDiff(forward)`: some element other than PERFECT lies in that direction. */
    function HasNextDiff(forward: bool): (r: bool)
      reads this
      ensures forward ==> (r <==> exists k :: currentDiffIndex < k < |diffSequence| && diffSequence[k] != Perfect)
      ensures !forward ==> (r <==> exists k :: 0 <= k < currentDiffIndex && k < |diffSequence| && diffSequence[k] != Perfect)
    {
      NextDiffIndex(forward) != -1
    }
  }
}
