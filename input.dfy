/** Per-frame input state (src/input.rs): the press-state machine of mouse
    buttons and keys and the end-of-frame reset.  The translation of window
    events into these calls is not part of this model. */
module Input {
  import opened Common

  /** `PressState`, with its `repr(u8)` discriminants. */
  datatype PressState = Released | Pressed | JustPressed | JustReleased

  function Discriminant(p: PressState): (d: nat)
    ensures d < 4
  {
    match p
    case Released => 0
    case Pressed => 1
    case JustPressed => 2
    case JustReleased => 3
  }

  function FromDiscriminant(d: nat): (p: PressState)
    requires d < 4
    ensures Discriminant(p) == d
  {
    if d == 0 then Released else if d == 1 then Pressed else if d == 2 then JustPressed else JustReleased
  }

  /** `BitOr for PressState`: the operand with the larger discriminant. */
  function BitOr(p: PressState, q: PressState): (r: PressState)
    ensures r == p || r == q
    ensures Discriminant(r) >= Discriminant(p) && Discriminant(r) >= Discriminant(q)
  {
    FromDiscriminant(if Discriminant(p) >= Discriminant(q) then Discriminant(p) else Discriminant(q))
  }

  lemma DiscriminantInjective(p: PressState, q: PressState)
    ensures Discriminant(p) == Discriminant(q) ==> p == q
  {
  }

  /** `|` is commutative, associative and idempotent, with `Released` as
      its unit and `JustReleased` absorbing. */
  lemma BitOrLaws(p: PressState, q: PressState, s: PressState)
    ensures BitOr(p, q) == BitOr(q, p)
    ensures BitOr(BitOr(p, q), s) == BitOr(p, BitOr(q, s))
    ensures BitOr(p, p) == p
    ensures BitOr(p, Released) == p && BitOr(p, JustReleased) == JustReleased
  {
    DiscriminantInjective(BitOr(p, q), BitOr(q, p));
    DiscriminantInjective(BitOr(BitOr(p, q), s), BitOr(p, BitOr(q, s)));
  }

  predicate IsPressed(p: PressState) { p == JustPressed || p == Pressed }
  predicate IsJustPressed(p: PressState) { p == JustPressed }
  predicate IsReleased(p: PressState) { p == JustReleased || p == Released }
  predicate IsJustReleased(p: PressState) { p == JustReleased }

  /** Exactly one of `pressed` and `released` holds, and each "just" state
      is a special case of its steady counterpart. */
  lemma PredicatesPartition(p: PressState)
    ensures IsPressed(p) != IsReleased(p)
    ensures IsJustPressed(p) ==> IsPressed(p)
    ensures IsJustReleased(p) ==> IsReleased(p)
  {
  }

  /** What `clear_at_end_of_frame` does to one button. */
  function Settle(p: PressState): (r: PressState)
    ensures IsPressed(r) == IsPressed(p) && !IsJustPressed(r) && !IsJustReleased(r)
  {
    match p
    case JustPressed => Pressed
    case JustReleased => Released
    case _ => p
  }

  lemma SettleIdempotent(p: PressState)
    ensures Settle(Settle(p)) == Settle(p)
    ensures p in {Pressed, Released} ==> Settle(p) == p
  {
  }

  /** winit's `ElementState`. */
  datatype ElementState = ElementPressed | ElementReleased

  /** `MouseButton`, whose discriminant indexes the button array. */
  datatype MouseButton = Left | Right | Middle | Back | Forward

  function ButtonIndex(b: MouseButton): (i: nat)
    ensures i < 5
  {
    match b
    case Left => 0
    case Right => 1
    case Middle => 2
    case Back => 3
    case Forward => 4
  }

  /** `MouseButtonState`: one press state per mouse button. */
  class MouseButtonState {
    var buttons: array<PressState>

    ghost predicate Valid()
      reads this
    {
      buttons.Length == 5
    }

    /** `Default`: every button released. */
    constructor ()
      ensures Valid() && fresh(buttons)
      ensures forall i :: 0 <= i < 5 ==> buttons[i] == Released
    {
      buttons := new PressState[5](_ => Released);
    }

    /** `Index<MouseButton>` and the `left`/`right`/... accessors. */
    function Get(b: MouseButton): PressState
      requires Valid()
      reads this, buttons
    {
      buttons[ButtonIndex(b)]
    }

    /** `receive_state`: a release makes the button `JustReleased`, a press
        `JustPressed`; the other buttons are untouched. */
    method ReceiveState(button: MouseButton, elementState: ElementState)
      requires Valid()
      modifies buttons
      ensures Valid()
      ensures Get(button) == if elementState == ElementReleased then JustReleased else JustPressed
      ensures forall b :: b != button ==> Get(b) == old(Get(b))
    {
      var i := ButtonIndex(button);
      match elementState {
        case ElementReleased => buttons[i] := JustReleased;
        case ElementPressed => buttons[i] := JustPressed;
      }
    }

    /** `clear_at_end_of_frame`: settles every button. */
    method ClearAtEndOfFrame()
      requires Valid()
      modifies buttons
      ensures Valid()
      ensures forall i :: 0 <= i < 5 ==> buttons[i] == Settle(old(buttons[i]))
    {
      for i := 0 to buttons.Length
        invariant forall j :: 0 <= j < i ==> buttons[j] == Settle(old(buttons[j]))
        invariant forall j :: i <= j < buttons.Length ==> buttons[j] == old(buttons[j])
      {
        if buttons[i] == JustPressed {
          buttons[i] := Pressed;
        }
        if buttons[i] == JustReleased {
          buttons[i] := Released;
        }
      }
    }
  }

  /** The keys the convenience queries of `Input` look at; every other
      physical key is `Other`. */
  datatype KeyCode =
    | ShiftLeft | ControlLeft | Space | KeyF | KeyR | KeyS | KeyZ
    | ArrowLeft | ArrowRight | Other(code: nat)

  /** `s` without any occurrence of `v` (`retain(|e| *e != value)`). */
  function Without(s: seq<KeyCode>, v: KeyCode): (r: seq<KeyCode>)
    ensures v !in r
    ensures multiset(r) == multiset(s)[v := 0]
  {
    if s == [] then []
    else
      var rest := Without(s[..|s| - 1], v);
      assert s == s[..|s| - 1] + [s[|s| - 1]];
      if s[|s| - 1] == v then rest else rest + [s[|s| - 1]]
  }

  /** `KeyState`: the keys pressed this frame, held down, released this
      frame. */
  class KeyState {
    var justPressed: seq<KeyCode>
    var pressed: seq<KeyCode>
    var justReleased: seq<KeyCode>

    /** `Default`: no key in any list. */
    constructor ()
      ensures justPressed == [] && pressed == [] && justReleased == []
    {
      justPressed, pressed, justReleased := [], [], [];
    }

    /** `key`: the list checked first wins. */
    function Key(k: KeyCode): (p: PressState)
      reads this
      ensures p == JustPressed <==> k in justPressed
      ensures p == Pressed <==> k !in justPressed && k in pressed
      ensures p == JustReleased <==> k !in justPressed && k !in pressed && k in justReleased
      ensures p == Released <==> k !in justPressed && k !in pressed && k !in justReleased
    {
      if k in justPressed then JustPressed
      else if k in pressed then Pressed
      else if k in justReleased then JustReleased
      else Released
    }

    predicate IsKeyPressed(k: KeyCode) reads this { k in pressed }
    predicate IsKeyJustPressed(k: KeyCode) reads this { k in justPressed }
    predicate IsKeyJustReleased(k: KeyCode) reads this { k in justReleased }

    /** `clear_at_end_of_frame`: forgets the frame's edges, keeps the held
        keys. */
    method ClearAtEndOfFrame()
      modifies this
      ensures justPressed == [] && justReleased == [] && pressed == old(pressed)
      ensures forall k :: Key(k) == if k in pressed then Pressed else Released
    {
      justPressed := [];
      justReleased := [];
    }

    /** `receive_element_state`: a press is appended to `just_pressed` and
        `pressed`; a release removes the key from `pressed` and is appended
        to `just_released`. */
    method ReceiveElementState(value: KeyCode, elementState: ElementState)
      modifies this
      ensures elementState == ElementPressed ==>
                justPressed == old(justPressed) + [value] && pressed == old(pressed) + [value] &&
                justReleased == old(justReleased)
      ensures elementState == ElementReleased ==>
                justPressed == old(justPressed) && pressed == Without(old(pressed), value) &&
                justReleased == old(justReleased) + [value]
      ensures elementState == ElementPressed ==> Key(value) == JustPressed && IsKeyPressed(value)
      ensures elementState == ElementReleased ==> !IsKeyPressed(value) && IsKeyJustReleased(value)
      ensures elementState == ElementReleased ==>
                Key(value) == if value in old(justPressed) then JustPressed else JustReleased
    {
      var pressedAlready := value in pressed;
      match elementState {
        case ElementReleased =>
          if pressedAlready {
            pressed := Without(pressed, value);
          } else {
            assert Without(pressed, value) == pressed by {
              WithoutAbsent(pressed, value);
            }
          }
          justReleased := justReleased + [value];
        case ElementPressed =>
          justPressed := justPressed + [value];
          pressed := pressed + [value];
      }
    }
  }

  /** Removing a key that is not there changes nothing. */
  lemma {:induction false} WithoutAbsent(s: seq<KeyCode>, v: KeyCode)
    requires v !in s
    ensures Without(s, v) == s
  {
    if s != [] {
      WithoutAbsent(s[..|s| - 1], v);
      assert s == s[..|s| - 1] + [s[|s| - 1]];
    }
  }

  /** `Input`, without the event fields the model does not read (file
      paths are kept as strings). */
  class InputState {
    var keys: KeyState
    var mouseButtons: MouseButtonState
    var resized: Option<(nat, nat)>
    var closeRequested: bool
    var cursorJustMoved: bool
    var cursorJustEntered: bool
    var cursorJustLeft: bool
    var cursorPos: Vec2
    var lastFrameCursorPos: Vec2
    var cursorDelta: Vec2
    var scroll: Option<real>
    var droppedFile: Option<string>
    var hoveredFile: Option<string>

    ghost predicate Valid()
      reads this, mouseButtons
    {
      mouseButtons.Valid()
    }

    /** `Input::new`: everything at its default. */
    constructor ()
      ensures Valid() && fresh(keys) && fresh(mouseButtons) && fresh(mouseButtons.buttons)
      ensures keys.justPressed == [] && keys.pressed == [] && keys.justReleased == []
      ensures forall i :: 0 <= i < 5 ==> mouseButtons.buttons[i] == Released
      ensures resized == None && scroll == None && droppedFile == None && hoveredFile == None
      ensures !closeRequested && !cursorJustMoved && !cursorJustEntered && !cursorJustLeft
      ensures cursorPos == ZERO2 && lastFrameCursorPos == ZERO2 && cursorDelta == ZERO2
    {
      keys := new KeyState();
      mouseButtons := new MouseButtonState();
      resized := None;
      closeRequested := false;
      cursorJustMoved := false;
      cursorJustEntered := false;
      cursorJustLeft := false;
      cursorPos := ZERO2;
      cursorDelta := ZERO2;
      scroll := None;
      lastFrameCursorPos := ZERO2;
      droppedFile := None;
      hoveredFile := None;
    }

    /** `end_frame`: clears the key and button edges and every per-frame
        flag, and remembers the cursor position for the next frame. */
    method EndFrame()
      requires Valid()
      modifies this, keys, mouseButtons.buttons
      ensures Valid() && keys == old(keys) && mouseButtons == old(mouseButtons)
      ensures keys.justPressed == [] && keys.justReleased == [] && keys.pressed == old(keys.pressed)
      ensures forall i :: 0 <= i < 5 ==> mouseButtons.buttons[i] == Settle(old(mouseButtons.buttons[i]))
      ensures resized == None && scroll == None && droppedFile == None && hoveredFile == None
      ensures !closeRequested && !cursorJustMoved && !cursorJustEntered && !cursorJustLeft
      ensures cursorDelta == ZERO2
      ensures cursorPos == old(cursorPos) && lastFrameCursorPos == old(cursorPos)
    {
      keys.ClearAtEndOfFrame();
      mouseButtons.ClearAtEndOfFrame();
      resized := None;
      scroll := None;
      closeRequested := false;
      cursorJustEntered := false;
      cursorJustLeft := false;
      cursorJustMoved := false;
      cursorDelta := ZERO2;
      lastFrameCursorPos := cursorPos;
      droppedFile := None;
      hoveredFile := None;
    }

    /** `left_click` / `left_released` / `right_click`. */
    predicate LeftClick()
      requires Valid()
      reads this, mouseButtons, mouseButtons.buttons
    {
      IsJustPressed(mouseButtons.Get(Left))
    }

    predicate LeftReleased()
      requires Valid()
      reads this, mouseButtons, mouseButtons.buttons
    {
      IsJustReleased(mouseButtons.Get(Left))
    }

    predicate RightClick()
      requires Valid()
      reads this, mouseButtons, mouseButtons.buttons
    {
      IsJustPressed(mouseButtons.Get(Right))
    }

    /** `ctrl_z_pressed` / `ctrl_s_pressed`. */
    predicate CtrlZPressed()
      reads this, keys
    {
      keys.IsKeyPressed(ControlLeft) && keys.IsKeyJustPressed(KeyZ)
    }

    predicate CtrlSPressed()
      reads this, keys
    {
      keys.IsKeyPressed(ControlLeft) && keys.IsKeyJustPressed(KeyS)
    }

    /** `space_shift_updown`: +1 for Space, -1 for left Shift. */
    function SpaceShiftUpdown(): (v: real)
      reads this, keys
      ensures v == (if keys.IsKeyPressed(Space) then 1.0 else 0.0) - (if keys.IsKeyPressed(ShiftLeft) then 1.0 else 0.0)
    {
      var v := if keys.IsKeyPressed(ShiftLeft) then -1.0 else 0.0;
      if keys.IsKeyPressed(Space) then v + 1.0 else v
    }

    /** `rf_updown`: +1 for R, -1 for F. */
    function RfUpdown(): (v: real)
      reads this, keys
      ensures v == (if keys.IsKeyPressed(KeyR) then 1.0 else 0.0) - (if keys.IsKeyPressed(KeyF) then 1.0 else 0.0)
    {
      var v := if keys.IsKeyPressed(KeyF) then -1.0 else 0.0;
      if keys.IsKeyPressed(KeyR) then v + 1.0 else v
    }

    /** `arrow_just_left_right`: -1 if left was just pressed, else +1 if
        right was, else 0. */
    function ArrowJustLeftRight(): (v: int)
      reads this, keys
      ensures v == -1 <==> keys.IsKeyJustPressed(ArrowLeft)
      ensures v == 1 <==> !keys.IsKeyJustPressed(ArrowLeft) && keys.IsKeyJustPressed(ArrowRight)
      ensures v == 0 || v == 1 || v == -1
    {
      if keys.IsKeyJustPressed(ArrowLeft) then -1
      else if keys.IsKeyJustPressed(ArrowRight) then 1
      else 0
    }
  }

  /** A press followed by the end of the frame leaves the key held. */
  method PressThenEndFrame(k: KeyState, v: KeyCode)
    modifies k
    ensures k.Key(v) == Pressed
  {
    k.ReceiveElementState(v, ElementPressed);
    k.ClearAtEndOfFrame();
  }
}
