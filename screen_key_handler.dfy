/** ScreenKeyHandler.kt: the arrow keys of the diff screen. A key-down event whose (Ctrl pressed, key)
    pair is in the table runs the table's navigation action; every other event is left unhandled. */
module ScreenKeyHandler {
  import opened Errors
  import FrameNavigation
  import Doubles

  datatype KeyEventType = KeyDown | KeyUp | Unknown

  datatype Key = DirectionRight | DirectionLeft | OtherKey(code: int)

  /** A navigation action of the table. */
  datatype Action = JumpFrames(frames: int) | JumpToNextDiff(forward: bool)

  /** A key event reduced to what the handler reads. */
  datatype KeyEvent = KeyEvent(eventType: KeyEventType, isCtrlPressed: bool, key: Key)

  /** What the handler does with an event: nothing, or run one action. */
  datatype Dispatch = NotHandled | Run(action: Action)

  /** `keyActions`: the arrow keys step one frame, and with Ctrl held jump to the next difference. */
  function KeyActions(): map<(bool, Key), Action>
  {
    map[(false, DirectionRight) := JumpFrames(1),
        (false, DirectionLeft) := JumpFrames(-1),
        (true, DirectionRight) := JumpToNextDiff(true),
        (true, DirectionLeft) := JumpToNextDiff(false)]
  }

  /** The decision of `keyEventHandler`: only key-down events are looked up in the table. */
  function Decide(event: KeyEvent): (r: Dispatch)
    ensures event.eventType != KeyDown ==> r == NotHandled
    ensures r.Run? <==> event.eventType == KeyDown && (event.key == DirectionRight || event.key == DirectionLeft)
    ensures r.Run? && !event.isCtrlPressed ==>
            r.action == JumpFrames(if event.key == DirectionRight then 1 else -1)
    ensures r.Run? && event.isCtrlPressed ==> r.action == JumpToNextDiff(event.key == DirectionRight)
  {
    if event.eventType != KeyDown then NotHandled
    else if (event.isCtrlPressed, event.key) in KeyActions() then Run(KeyActions()[(event.isCtrlPressed, event.key)])
    else NotHandled
  }

  /** `keyEventHandler(event, navigator)`: runs the decided action, if any, on the navigator and tells
      whether the key was handled. An exception of the action propagates. */
  method KeyEventHandler(event: KeyEvent, navigator: FrameNavigation.FrameNavigation) returns (r: Result<bool>)
    modifies navigator
    ensures Decide(event) == NotHandled ==> r == Ok(false) && unchanged(navigator)
    ensures Decide(event).Run? && Decide(event).action.JumpFrames? ==>
            navigator.currentIndex == old(navigator.currentIndex) + Decide(event).action.frames
            && (navigator.diffSequence == [] <==> r == Err(IllegalArgument))
            && (navigator.diffSequence != [] ==>
                  r == Ok(true)
                  && navigator.currentDiffIndex == FrameNavigation.Clamp(navigator.currentIndex, |navigator.diffSequence|)
                  && navigator.currentRelativePosition ==
                     Doubles.Divide(navigator.currentDiffIndex, |navigator.diffSequence| - 1)
                  && navigator.callbacks == old(navigator.callbacks) + 1)
    ensures Decide(event).Run? && Decide(event).action.JumpToNextDiff? ==>
            r == Ok(true)
            && (old(navigator.NextDiffIndex(Decide(event).action.forward)) == -1 ==> unchanged(navigator))
            && (old(navigator.NextDiffIndex(Decide(event).action.forward)) != -1 ==>
                  navigator.currentIndex == old(navigator.NextDiffIndex(Decide(event).action.forward))
                  && navigator.currentDiffIndex == navigator.currentIndex
                  && navigator.currentRelativePosition ==
                     Doubles.Divide(navigator.currentDiffIndex, |navigator.diffSequence| - 1)
                  && navigator.callbacks == old(navigator.callbacks) + 1)
  {
    match Decide(event) {
      case NotHandled =>
        return Ok(false);
      case Run(JumpFrames(frames)) =>
        var outcome := navigator.JumpFrames(frames);
        if outcome.Fail? {
          return Err(outcome.error);
        }
        return Ok(true);
      case Run(JumpToNextDiff(forward)) =>
        var outcome := navigator.JumpToNextDiff(forward);
        return Ok(true);
    }
  }
}
