/** The per-frame input state machine (InputHandler).

    Each frame the handler clears six event flags and then feeds the frame's
    pending events, in arrival order, to a dispatcher that sets the flags,
    the mouse position and the state of the three mouse buttons. The event
    queue of the windowing library becomes a sequence parameter; the mouse
    coordinates, floats that are only copied, are reals. */
module Input {
  import opened Util

  /** The library's codes for the left, middle and right mouse buttons
      (SDL_BUTTON_LEFT, SDL_BUTTON_MIDDLE, SDL_BUTTON_RIGHT). */
  const SdlButtonLeft: int := 1
  const SdlButtonMiddle: int := 2
  const SdlButtonRight: int := 3

  /** InputHandler::MOUSEBUTTON: indices into the button-state array. */
  const Left: nat := 0
  const Middle: nat := 1
  const Right: nat := 2
  const LastMouseButtonValue: nat := 3

  /** The events the dispatcher tells apart; every other event type is Other. */
  datatype Event =
    | KeyDown
    | KeyUp
    | MouseMotion(x: real, y: real)
    | MouseButtonDown(button: int)
    | MouseButtonUp(button: int)
    | WindowCloseRequested
    | Other

  /** The handler's observable state. */
  datatype InputState = InputState(
    closeWindow: bool,
    keyUp: bool,
    keyDown: bool,
    mouseMotion: bool,
    mouseButtonUp: bool,
    mouseButtonDown: bool,
    mousePos: (real, real),
    buttons: seq<bool>)

  /** The six per-frame event flags. */
  datatype Flag = CloseWindowFlag | KeyUpFlag | KeyDownFlag | MouseMotionFlag | MouseButtonUpFlag | MouseButtonDownFlag

  function FlagOf(s: InputState, f: Flag): bool {
    match f
    case CloseWindowFlag => s.closeWindow
    case KeyUpFlag => s.keyUp
    case KeyDownFlag => s.keyDown
    case MouseMotionFlag => s.mouseMotion
    case MouseButtonUpFlag => s.mouseButtonUp
    case MouseButtonDownFlag => s.mouseButtonDown
  }

  /** The flag an event of each kind raises. */
  predicate Raises(ev: Event, f: Flag) {
    match f
    case CloseWindowFlag => ev.WindowCloseRequested?
    case KeyUpFlag => ev.KeyUp?
    case KeyDownFlag => ev.KeyDown?
    case MouseMotionFlag => ev.MouseMotion?
    case MouseButtonUpFlag => ev.MouseButtonUp?
    case MouseButtonDownFlag => ev.MouseButtonDown?
  }

  /** The button-state index a library button code maps to, if any. */
  function ButtonIndex(button: int): (r: Option<nat>)
    ensures r.Some? ==> r.value < LastMouseButtonValue
  {
    if button == SdlButtonLeft then Some(Left)
    else if button == SdlButtonMiddle then Some(Middle)
    else if button == SdlButtonRight then Some(Right)
    else None
  }

  /** The button states after the button with the given code went down
      (pressed) or up (not pressed); an unknown code changes nothing. */
  function Press(buttons: seq<bool>, button: int, pressed: bool): (r: seq<bool>)
    ensures |r| == |buttons|
    ensures ButtonIndex(button) == None ==> r == buttons
  {
    match ButtonIndex(button)
    case Some(b) => if b < |buttons| then buttons[b := pressed] else buttons
    case None => buttons
  }

  /** clearState: all six flags false, the mouse state kept. */
  function Cleared(s: InputState): (r: InputState)
    ensures forall f :: !FlagOf(r, f)
    ensures r.mousePos == s.mousePos && r.buttons == s.buttons
  {
    s.(closeWindow := false, keyUp := false, keyDown := false,
       mouseMotion := false, mouseButtonUp := false, mouseButtonDown := false)
  }

  /** update(event): the state after one event. */
  function Step(s: InputState, ev: Event): (r: InputState)
    ensures |r.buttons| == |s.buttons|
  {
    match ev
    case KeyDown => s.(keyDown := true)
    case KeyUp => s.(keyUp := true)
    case MouseMotion(x, y) => s.(mouseMotion := true, mousePos := (x, y))
    case MouseButtonDown(b) => s.(mouseButtonDown := true, buttons := Press(s.buttons, b, true))
    case MouseButtonUp(b) => s.(mouseButtonUp := true, buttons := Press(s.buttons, b, false))
    case WindowCloseRequested => s.(closeWindow := true)
    case Other => s
  }

  /** The state after feeding a batch of events in arrival order. */
  function Feed(s: InputState, evs: seq<Event>): (r: InputState)
    ensures |r.buttons| == |s.buttons|
  {
    if evs == [] then s else Step(Feed(s, evs[..|evs| - 1]), evs[|evs| - 1])
  }

  /** refresh: clear, then feed the frame's events. */
  function Refreshed(s: InputState, evs: seq<Event>): (r: InputState)
    ensures |r.buttons| == |s.buttons|
    ensures evs == [] ==> forall f :: !FlagOf(r, f)
  {
    Feed(Cleared(s), evs)
  }

  /** Each event sets its own flag and touches nothing else of the flags;
      only a motion event moves the mouse and only a button event changes the
      button states; an event of any other type changes nothing. */
  lemma StepEffect(s: InputState, ev: Event)
    ensures forall f :: FlagOf(Step(s, ev), f) == (FlagOf(s, f) || Raises(ev, f))
    ensures Step(s, ev).mousePos == if ev.MouseMotion? then (ev.x, ev.y) else s.mousePos
    ensures !ev.MouseButtonDown? && !ev.MouseButtonUp? ==> Step(s, ev).buttons == s.buttons
    ensures ev.Other? ==> Step(s, ev) == s
  {
  }

  /** After a batch, a flag is set iff it was set before or some event of
      the batch raises it. */
  lemma {:induction false} FeedFlag(s: InputState, evs: seq<Event>, f: Flag)
    ensures FlagOf(Feed(s, evs), f) <==> FlagOf(s, f) || exists i | 0 <= i < |evs| :: Raises(evs[i], f)
  {
    if evs != [] {
      var n := |evs| - 1;
      FeedFlag(s, evs[..n], f);
      StepEffect(Feed(s, evs[..n]), evs[n]);
      if exists i | 0 <= i < |evs| :: Raises(evs[i], f) {
        var i :| 0 <= i < |evs| && Raises(evs[i], f);
        if i < n {
          assert evs[..n][i] == evs[i];
        }
      }
      if exists i | 0 <= i < n :: Raises(evs[..n][i], f) {
        var i :| 0 <= i < n && Raises(evs[..n][i], f);
        assert evs[i] == evs[..n][i];
      }
    }
  }

  /** After a refresh, a flag is set iff some event of the frame raises it. */
  lemma RefreshFlag(s: InputState, evs: seq<Event>, f: Flag)
    ensures FlagOf(Refreshed(s, evs), f) <==> exists i | 0 <= i < |evs| :: Raises(evs[i], f)
  {
    FeedFlag(Cleared(s), evs, f);
  }

  /** After a refresh, mouseButtonEvent() holds iff the frame had a button
      event, of whatever button. */
  lemma RefreshMouseButtonEvent(s: InputState, evs: seq<Event>)
    ensures var r := Refreshed(s, evs);
            r.mouseButtonUp || r.mouseButtonDown <==>
            exists i | 0 <= i < |evs| :: evs[i].MouseButtonUp? || evs[i].MouseButtonDown?
  {
    RefreshFlag(s, evs, MouseButtonUpFlag);
    RefreshFlag(s, evs, MouseButtonDownFlag);
    if exists i | 0 <= i < |evs| :: evs[i].MouseButtonUp? || evs[i].MouseButtonDown? {
      var i :| 0 <= i < |evs| && (evs[i].MouseButtonUp? || evs[i].MouseButtonDown?);
      assert Raises(evs[i], MouseButtonUpFlag) || Raises(evs[i], MouseButtonDownFlag);
    }
  }

  /** evs[k] is the last mouse-motion event of evs. */
  predicate LastMotion(evs: seq<Event>, k: nat) {
    k < |evs| && evs[k].MouseMotion? && forall j | k < j < |evs| :: !evs[j].MouseMotion?
  }

  /** The mouse position after a batch is that of its last motion event, or
      the previous one when the batch has no motion event. */
  lemma {:induction false} FeedMousePos(s: InputState, evs: seq<Event>)
    ensures (forall i | 0 <= i < |evs| :: !evs[i].MouseMotion?) ==> Feed(s, evs).mousePos == s.mousePos
    ensures forall k: nat | LastMotion(evs, k) :: Feed(s, evs).mousePos == (evs[k].x, evs[k].y)
  {
    if evs != [] {
      var n := |evs| - 1;
      var pre := evs[..n];
      FeedMousePos(s, pre);
      StepEffect(Feed(s, pre), evs[n]);
      forall k: nat | LastMotion(evs, k) ensures Feed(s, evs).mousePos == (evs[k].x, evs[k].y) {
        if k < n {
          assert LastMotion(pre, k);
        }
      }
      if forall i | 0 <= i < |evs| :: !evs[i].MouseMotion? {
        assert forall i | 0 <= i < n :: pre[i] == evs[i];
      }
    }
  }

  /** ev is a button event for the button with state index b. */
  predicate Touches(ev: Event, b: nat) {
    (ev.MouseButtonDown? && ButtonIndex(ev.button) == Some(b))
    || (ev.MouseButtonUp? && ButtonIndex(ev.button) == Some(b))
  }

  /** evs[k] is the last event of evs for button b. */
  predicate LastTouch(evs: seq<Event>, b: nat, k: nat) {
    k < |evs| && Touches(evs[k], b) && forall j | k < j < |evs| :: !Touches(evs[j], b)
  }

  /** Pressing or releasing a button by its code changes exactly the state
      of the button that code maps to. */
  lemma PressAt(buttons: seq<bool>, code: int, pressed: bool, b: nat)
    requires b < |buttons|
    ensures |Press(buttons, code, pressed)| == |buttons|
    ensures Press(buttons, code, pressed)[b] == if ButtonIndex(code) == Some(b) then pressed else buttons[b]
  {
  }

  /** One event changes the state of button b iff it is a down or up event
      for b: pressed after a down, released after an up. */
  lemma StepButton(s: InputState, ev: Event, b: nat)
    requires |s.buttons| == LastMouseButtonValue && b < LastMouseButtonValue
    ensures |Step(s, ev).buttons| == LastMouseButtonValue
    ensures Step(s, ev).buttons[b] == if Touches(ev, b) then ev.MouseButtonDown? else s.buttons[b]
  {
  }

  /** The state of each button after a batch is that of its last down or up
      event (pressed after a down, released after an up), or its previous
      state when the batch has no event for it. */
  lemma {:induction false} FeedButtons(s: InputState, evs: seq<Event>, b: nat)
    requires |s.buttons| == LastMouseButtonValue && b < LastMouseButtonValue
    ensures |Feed(s, evs).buttons| == LastMouseButtonValue
    ensures (forall i | 0 <= i < |evs| :: !Touches(evs[i], b)) ==> Feed(s, evs).buttons[b] == s.buttons[b]
    ensures forall k: nat | LastTouch(evs, b, k) :: Feed(s, evs).buttons[b] == evs[k].MouseButtonDown?
  {
    if evs != [] {
      var n := |evs| - 1;
      var pre := evs[..n];
      var t := Feed(s, pre);
      FeedButtons(s, pre, b);
      assert Feed(s, evs) == Step(t, evs[n]);
      StepButton(t, evs[n], b);
      forall k: nat | LastTouch(evs, b, k) ensures Feed(s, evs).buttons[b] == evs[k].MouseButtonDown? {
        if k < n {
          assert !Touches(evs[n], b);
          assert LastTouch(pre, b, k) by {
            assert pre[k] == evs[k];
            forall j | k < j < n ensures !Touches(pre[j], b) {
              assert pre[j] == evs[j];
            }
          }
        }
      }
      if forall i | 0 <= i < |evs| :: !Touches(evs[i], b) {
        assert !Touches(evs[n], b);
        forall i | 0 <= i < n ensures !Touches(pre[i], b) {
          assert pre[i] == evs[i];
        }
      }
    }
  }

  /** The input handler. The library-owned keyboard array behind
      isKeyDown/isKeyUp is not modelled. */
  class InputHandler {
    var isCloseWindowEvent: bool
    var isKeyUpEvent: bool
    var isKeyDownEvent: bool
    var isMouseMotionEvent: bool
    var isMouseButtonUpEvent: bool
    var isMouseButtonDownEvent: bool
    var mousePos: (real, real)
    const mbState: array<bool>

    ghost predicate Valid()
      reads this
    {
      mbState.Length == LastMouseButtonValue
    }

    function State(): InputState
      reads this, mbState
    {
      InputState(isCloseWindowEvent, isKeyUpEvent, isKeyDownEvent, isMouseMotionEvent,
                 isMouseButtonUpEvent, isMouseButtonDownEvent, mousePos, mbState[..])
    }

    /** The constructor clears the flags; the mouse position starts at the
        origin. The button states start unspecified: nothing is promised about
        them before the first button event. */
    constructor ()
      ensures Valid() && fresh(mbState)
      ensures forall f :: !FlagOf(State(), f)
      ensures mousePos == (0.0, 0.0)
    {
      mousePos := (0.0, 0.0);
      mbState := new bool[LastMouseButtonValue];
      new;
      ClearState();
    }

    method ClearState()
      modifies this
      ensures State() == Cleared(old(State()))
      ensures forall f :: !FlagOf(State(), f)
    {
      isCloseWindowEvent := false;
      isKeyDownEvent := false;
      isKeyUpEvent := false;
      isMouseButtonUpEvent := false;
      isMouseButtonDownEvent := false;
      isMouseMotionEvent := false;
    }

    /** Dispatches one event to its handler. */
    method Update(ev: Event)
      requires Valid()
      modifies this, mbState
      ensures State() == Step(old(State()), ev)
    {
      match ev
      case KeyDown => OnKeyDown();
      case KeyUp => OnKeyUp();
      case MouseMotion(x, y) => OnMouseMotion(x, y);
      case MouseButtonDown(b) => OnMouseButtonDown(b);
      case MouseButtonUp(b) => OnMouseButtonUp(b);
      case WindowCloseRequested => HandleWindowCloseRequestEvent();
      case Other =>
    }

    /** Clears the state and feeds the frame's pending events in arrival
        order. */
    method Refresh(events: seq<Event>)
      requires Valid()
      modifies this, mbState
      ensures State() == Refreshed(old(State()), events)
    {
      ClearState();
      ghost var cleared := State();
      assert cleared == Cleared(old(State()));
      for i := 0 to |events|
        invariant State() == Feed(cleared, events[..i])
      {
        Update(events[i]);
        assert events[..i + 1][..i] == events[..i];
      }
      assert events[..|events|] == events;
    }

    function CloseWindowEvent(): (r: bool)
      reads this, mbState
      ensures r == FlagOf(State(), CloseWindowFlag)
    {
      isCloseWindowEvent
    }

    function KeyDownEvent(): (r: bool)
      reads this, mbState
      ensures r == FlagOf(State(), KeyDownFlag)
    {
      isKeyDownEvent
    }

    function KeyUpEvent(): (r: bool)
      reads this, mbState
      ensures r == FlagOf(State(), KeyUpFlag)
    {
      isKeyUpEvent
    }

    function MouseMotionEvent(): (r: bool)
      reads this, mbState
      ensures r == FlagOf(State(), MouseMotionFlag)
    {
      isMouseMotionEvent
    }

    function MouseButtonUpEvent(): (r: bool)
      reads this, mbState
      ensures r == FlagOf(State(), MouseButtonUpFlag)
    {
      isMouseButtonUpEvent
    }

    function MouseButtonDownEvent(): (r: bool)
      reads this, mbState
      ensures r == FlagOf(State(), MouseButtonDownFlag)
    {
      isMouseButtonDownEvent
    }

    /** Some button went up or down this frame. */
    function MouseButtonEvent(): (r: bool)
      reads this
      ensures r <==> FlagOf(State(), MouseButtonUpFlag) || FlagOf(State(), MouseButtonDownFlag)
    {
      isMouseButtonUpEvent || isMouseButtonDownEvent
    }

    function GetMousePos(): (r: (real, real))
      reads this, mbState
      ensures r == State().mousePos
    {
      mousePos
    }

    /** The state of button b as an integer: 1 when pressed, 0 otherwise. */
    function GetMouseButtonState(b: nat): (r: int)
      reads this, mbState
      requires Valid() && b < LastMouseButtonValue
      ensures r == 0 || r == 1
      ensures r == 1 <==> State().buttons[b]
    {
      if mbState[b] then 1 else 0
    }

    method OnKeyDown()
      modifies this`isKeyDownEvent
      ensures State() == old(State()).(keyDown := true)
    {
      isKeyDownEvent := true;
    }

    method OnKeyUp()
      modifies this`isKeyUpEvent
      ensures State() == old(State()).(keyUp := true)
    {
      isKeyUpEvent := true;
    }

    method OnMouseMotion(x: real, y: real)
      modifies this`isMouseMotionEvent, this`mousePos
      ensures State() == old(State()).(mouseMotion := true, mousePos := (x, y))
    {
      isMouseMotionEvent := true;
      mousePos := (x, y);
    }

    method OnMouseButtonDown(button: int)
      requires Valid()
      modifies this`isMouseButtonDownEvent, mbState
      ensures State() == old(State()).(mouseButtonDown := true, buttons := Press(old(mbState[..]), button, true))
    {
      isMouseButtonDownEvent := true;
      if button == SdlButtonLeft {
        mbState[Left] := true;
      } else if button == SdlButtonMiddle {
        mbState[Middle] := true;
      } else if button == SdlButtonRight {
        mbState[Right] := true;
      }
    }

    method OnMouseButtonUp(button: int)
      requires Valid()
      modifies this`isMouseButtonUpEvent, mbState
      ensures State() == old(State()).(mouseButtonUp := true, buttons := Press(old(mbState[..]), button, false))
    {
      isMouseButtonUpEvent := true;
      if button == SdlButtonLeft {
        mbState[Left] := false;
      } else if button == SdlButtonMiddle {
        mbState[Middle] := false;
      } else if button == SdlButtonRight {
        mbState[Right] := false;
      }
    }

    method HandleWindowCloseRequestEvent()
      modifies this`isCloseWindowEvent
      ensures State() == old(State()).(closeWindow := true)
    {
      isCloseWindowEvent := true;
    }
  }
}
