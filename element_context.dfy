/** The interaction state of src/ui/element_context.rs: which element is
    hot (hovered) or active (pressed), the one-frame click edges, the
    first-match hit test over the bounds recorded during layout, the older
    per-element `next_hot_active` rule and the resize rules of `Board`. */
module ElementContexts {
  import opened Common
  import opened Input
  import opened Elements

  /** `HotState<ElementId>`. */
  datatype HotState = NoHot | Hot(id: Id) | Active(id: Id)

  /** `HotActive`: hot means hovered, active means pressed. */
  datatype HotActive = NotHotActive | IsHot | IsActive

  /** `Interaction`: what one element learns about itself this frame. */
  datatype Interaction = Interaction(hotActive: HotActive, hovered: bool, justStartedClick: bool,
                                     justEndedClick: bool)

  /** `HotState::hot_active`: hot or active only for the element the state
      names. */
  function HotActiveOf(s: HotState, id: Id): (r: HotActive)
    ensures r == IsHot <==> s == Hot(id)
    ensures r == IsActive <==> s == Active(id)
    ensures r == NotHotActive <==> !Is(s, id)
  {
    match s
    case Hot(i) => if i == id then IsHot else NotHotActive
    case Active(i) => if i == id then IsActive else NotHotActive
    case NoHot => NotHotActive
  }

  /** `HotState::is`. */
  predicate Is(s: HotState, id: Id)
  {
    (s.Hot? || s.Active?) && s.id == id
  }

  /** `HotState::transition`: the next state and the two click-edge
      out-parameters, which are written only when an edge happens and are
      otherwise passed through.  The next state is hot exactly when the
      mouse is up over an element, and active exactly when the mouse is
      down and either the state was already active (which holds its
      element, hovered or not) or an element is hovered. */
  function HotTransition(s: HotState, hovered: Option<Id>, mouseDown: bool,
                         started: Option<Id>, ended: Option<Id>): (r: (HotState, Option<Id>, Option<Id>))
    ensures r.0.Hot? <==> !mouseDown && hovered.Some?
    ensures r.0.Hot? ==> r.0.id == hovered.value
    ensures r.0.Active? <==> mouseDown && (s.Active? || hovered.Some?)
    ensures r.0.Active? ==> r.0.id == if s.Active? then s.id else hovered.value
    ensures r.1 == if s.Hot? && hovered.Some? && mouseDown then hovered else started
    ensures r.2 == if s.Active? && hovered.Some? && !mouseDown then hovered else ended
  {
    match s
    case NoHot =>
      if hovered.Some? then (if mouseDown then (Active(hovered.value), started, ended)
                             else (Hot(hovered.value), started, ended))
      else (s, started, ended)
    case Hot(_) =>
      if hovered.Some? then (if mouseDown then (Active(hovered.value), hovered, ended)
                             else (Hot(hovered.value), started, ended))
      else (NoHot, started, ended)
    case Active(_) =>
      if !mouseDown then (if hovered.Some? then (Hot(hovered.value), started, hovered)
                          else (NoHot, started, ended))
      else (s, started, ended)
  }

  /** `InteractionState<ElementId>`. */
  class InteractionState {
    var hotState: HotState
    var hovered: Option<Id>
    var justStartedClick: Option<Id>
    var justEndedClick: Option<Id>

    /** `Default`: nothing hot, hovered or clicked. */
    constructor ()
      ensures hotState == NoHot && hovered == None && justStartedClick == None && justEndedClick == None
    {
      hotState := NoHot;
      hovered := None;
      justStartedClick := None;
      justEndedClick := None;
    }

    /** `InteractionState::transition`: records the hovered element, clears
        both edges and steps the hot state, so at most one edge is set and
        any edge names the hovered element. */
    method Transition(hov: Option<Id>, mouseDown: bool)
      modifies this
      ensures hovered == hov
      ensures (hotState, justStartedClick, justEndedClick) == HotTransition(old(hotState), hov, mouseDown, None, None)
      ensures justStartedClick.None? || justEndedClick.None?
      ensures justStartedClick.Some? ==> justStartedClick == hov && hotState == Active(hov.value) && old(hotState).Hot?
      ensures justEndedClick.Some? ==> justEndedClick == hov && hotState == Hot(hov.value) && old(hotState).Active?
    {
      hovered := hov;
      justStartedClick := None;
      justEndedClick := None;
      var next := HotTransition(hotState, hov, mouseDown, justStartedClick, justEndedClick);
      hotState := next.0;
      justStartedClick := next.1;
      justEndedClick := next.2;
    }

    /** `InteractionState::of`. */
    function Of(id: Id): (r: Interaction)
      reads this
      ensures r.hotActive == HotActiveOf(hotState, id)
      ensures r.hovered <==> hovered == Some(id)
      ensures r.justStartedClick <==> justStartedClick == Some(id)
      ensures r.justEndedClick <==> justEndedClick == Some(id)
    {
      Interaction(HotActiveOf(hotState, id), hovered == Some(id), justStartedClick == Some(id),
                  justEndedClick == Some(id))
    }

    /** Two different elements never share a flag: at most one is hot or
        active, hovered, or has a click edge. */
    lemma OfExclusive(a: Id, b: Id)
      requires a != b
      ensures Of(a).hotActive == NotHotActive || Of(b).hotActive == NotHotActive
      ensures !(Of(a).hovered && Of(b).hovered)
      ensures !(Of(a).justStartedClick && Of(b).justStartedClick)
      ensures !(Of(a).justEndedClick && Of(b).justEndedClick)
    {
    }
  }

  /** A full click on a hot element `h`: pressing over it makes it active
      and starts the click, holding keeps it active even off the element,
      and releasing over it makes it hot again and ends the click. */
  lemma ClickSequence(h: Id, elsewhere: Option<Id>)
    ensures HotTransition(Hot(h), Some(h), true, None, None) == (Active(h), Some(h), None)
    ensures HotTransition(Active(h), elsewhere, true, None, None) == (Active(h), None, None)
    ensures HotTransition(Active(h), Some(h), false, None, None) == (Hot(h), None, Some(h))
    ensures HotTransition(Active(h), None, false, None, None) == (NoHot, None, None)
  {
  }

  /** A press that arrives without a hot frame before it (the state was
      `None`) makes the element active but starts no click, and a click
      ends on whichever element is hovered at release, not necessarily the
      one that was pressed. */
  lemma ClickEdgesNeedHistory(a: Id, b: Id)
    ensures HotTransition(NoHot, Some(a), true, None, None) == (Active(a), None, None)
    ensures HotTransition(Active(a), Some(b), false, None, None) == (Hot(b), None, Some(b))
  {
  }

  /** `next_hot_active`: an element becomes active only from hot, over
      it, on the frame the button goes down; it stays active until the
      frame the button comes up, and is hot exactly when the cursor is
      over it in any other case that leaves it not active. */
  function NextHotActive(ha: HotActive, inRect: bool, press: PressState): (r: HotActive)
    ensures r == IsActive <==>
      (ha == IsActive && !IsJustReleased(press)) || (ha == IsHot && inRect && IsJustPressed(press))
    ensures r == IsHot <==>
      inRect && (ha == NotHotActive || (ha == IsHot && !IsJustPressed(press)) || (ha == IsActive && IsJustReleased(press)))
    ensures ha == NotHotActive ==> r != IsActive
  {
    match ha
    case NotHotActive => if inRect then IsHot else NotHotActive
    case IsHot => if inRect then (if IsJustPressed(press) then IsActive else IsHot) else NotHotActive
    case IsActive => if IsJustReleased(press) then (if inRect then IsHot else NotHotActive) else IsActive
  }

  /** The first entry of `bounds` containing `p`, in list order. */
  function FirstHit(bounds: seq<(Id, ComputedBounds)>, p: Vec2): (r: Option<Id>)
    ensures r.None? <==> forall k :: 0 <= k < |bounds| ==> !BoundsContains(bounds[k].1, p)
    ensures r.Some? ==> exists k :: 0 <= k < |bounds| && bounds[k].0 == r.value && BoundsContains(bounds[k].1, p) &&
                                    forall j :: 0 <= j < k ==> !BoundsContains(bounds[j].1, p)
  {
    if bounds == [] then None
    else if BoundsContains(bounds[0].1, p) then Some(bounds[0].0)
    else
      var r := FirstHit(bounds[1..], p);
      assert forall k :: 1 <= k < |bounds| ==> bounds[k] == bounds[1..][k - 1];
      if r.Some? then
        assert exists k :: 0 <= k < |bounds| - 1 && bounds[1..][k].0 == r.value && BoundsContains(bounds[1..][k].1, p) &&
                           forall j :: 0 <= j < k ==> !BoundsContains(bounds[1..][j].1, p);
        var k :| 0 <= k < |bounds| - 1 && bounds[1..][k].0 == r.value && BoundsContains(bounds[1..][k].1, p) &&
                 forall j :: 0 <= j < k ==> !BoundsContains(bounds[1..][j].1, p);
        assert bounds[k + 1].0 == r.value && BoundsContains(bounds[k + 1].1, p);
        assert forall j :: 0 <= j < k + 1 ==> !BoundsContains(bounds[j].1, p);
        r
      else
        r
  }

  class ElementContext {
    /** Bounds recorded during layout, children before their parents. */
    var idBounds: seq<(Id, ComputedBounds)>
    var interaction: InteractionState

    /** No recorded entry carries the `NONE` id. */
    ghost predicate Valid()
      reads this
    {
      forall k :: 0 <= k < |idBounds| ==> idBounds[k].0 != NONE_ID
    }

    /** `ElementContext::new`. */
    constructor ()
      ensures Valid() && idBounds == [] && fresh(interaction)
      ensures interaction.hotState == NoHot && interaction.hovered == None
      ensures interaction.justStartedClick == None && interaction.justEndedClick == None
    {
      idBounds := [];
      interaction := new InteractionState();
    }

    /** `clear_id_bounds`. */
    method ClearIdBounds()
      modifies this
      ensures Valid() && idBounds == [] && interaction == old(interaction)
    {
      idBounds := [];
    }

    /** `ComputedBoundsVisitor::visit`: records the bounds of elements that
        have an id and ignores the others. */
    method Visit(id: Id, b: ComputedBounds)
      requires Valid()
      modifies this
      ensures Valid() && interaction == old(interaction)
      ensures idBounds == if id == NONE_ID then old(idBounds) else old(idBounds) + [(id, b)]
    {
      if id != NONE_ID {
        idBounds := idBounds + [(id, b)];
      }
    }

    /** `hovered_element`: scans the recorded bounds front to back and
        returns the id of the first one containing the cursor. */
    method HoveredElement(cursor: Vec2) returns (r: Option<Id>)
      requires Valid()
      ensures r == FirstHit(idBounds, cursor)
      ensures r.Some? ==> r.value != NONE_ID
    {
      var i := 0;
      while i < |idBounds|
        invariant 0 <= i <= |idBounds|
        invariant FirstHit(idBounds, cursor) == FirstHit(idBounds[i..], cursor)
      {
        if BoundsContains(idBounds[i].1, cursor) {
          return Some(idBounds[i].0);
        }
        assert idBounds[i..][1..] == idBounds[i + 1..];
        i := i + 1;
      }
      return None;
    }

    /** `start_frame`: the hovered element is the first hit under the
        cursor, and the interaction state steps with the left button's
        pressed flag. */
    method StartFrame(cursor: Vec2, mouse: MouseButtonState)
      requires Valid() && mouse.Valid()
      modifies interaction
      ensures interaction.hovered == FirstHit(idBounds, cursor)
      ensures (interaction.hotState, interaction.justStartedClick, interaction.justEndedClick) ==
              HotTransition(old(interaction.hotState), FirstHit(idBounds, cursor), IsPressed(mouse.Get(Left)), None, None)
    {
      var hovered := HoveredElement(cursor);
      interaction.Transition(hovered, IsPressed(mouse.Get(Left)));
    }

    /** `start_frame_scaled_to_fixed_height`: the cursor is scaled from
        screen pixels to a layout of height `fixedHeight` first. */
    method StartFrameScaled(cursor: Vec2, mouse: MouseButtonState, screenHeight: nat, fixedHeight: real)
      requires Valid() && mouse.Valid() && screenHeight > 0
      modifies interaction
      ensures var scaled := ScaleToFixedHeight(cursor, screenHeight, fixedHeight);
              interaction.hovered == FirstHit(idBounds, scaled) &&
              (interaction.hotState, interaction.justStartedClick, interaction.justEndedClick) ==
              HotTransition(old(interaction.hotState), FirstHit(idBounds, scaled), IsPressed(mouse.Get(Left)), None, None)
    {
      StartFrame(ScaleToFixedHeight(cursor, screenHeight, fixedHeight), mouse);
    }
  }

  /** The cursor in layout space: scaled by `fixedHeight / screenHeight`,
      so the bottom edge of the screen maps to the layout's fixed height. */
  function ScaleToFixedHeight(cursor: Vec2, screenHeight: nat, fixedHeight: real): (r: Vec2)
    requires screenHeight > 0
    ensures cursor.y == screenHeight as real ==> r.y == fixedHeight
    ensures r.x * screenHeight as real == cursor.x * fixedHeight && r.y * screenHeight as real == cursor.y * fixedHeight
  {
    Vec2(cursor.x * fixedHeight / screenHeight as real, cursor.y * fixedHeight / screenHeight as real)
  }

  /** The layout size of `Board`; the element, context and batches it also
      holds are not part of this model. */
  class Board {
    var size: Vec2
    var posOffset: Vec2

    constructor (size: Vec2)
      ensures this.size == size && posOffset == ZERO2
    {
      this.size := size;
      posOffset := ZERO2;
    }

    /** `resize`: the size in pixels of the window. */
    method Resize(width: nat, height: nat)
      modifies this
      ensures size == Vec2(width as real, height as real) && posOffset == old(posOffset)
    {
      size := Vec2(width as real, height as real);
    }

    /** `resize_dvec2`. */
    method ResizeTo(s: Vec2)
      modifies this
      ensures size == s && posOffset == old(posOffset)
    {
      size := s;
    }

    /** `resize_scaled_to_fixed_height`: the height stays fixed and the
        width follows the window's aspect ratio. */
    method ResizeScaledToFixedHeight(width: nat, height: nat)
      requires height > 0
      modifies this
      ensures size.y == old(size.y) && posOffset == old(posOffset)
      ensures size.x * height as real == width as real * size.y
      ensures size.y != 0.0 ==> size.x / size.y == width as real / height as real
    {
      size := size.(x := width as real / height as real * size.y);
    }
  }
}
