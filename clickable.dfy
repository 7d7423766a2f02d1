/** A clickable button (`Clickable` in src/ui/nativeui/elements/clickeable.rs):
    hover and press flags driven by mouse events, and the fill and outline
    colours that follow them. The label text and its layout are not modelled. */
module Clickable {
  import opened Graphics
  import RectRound

  const IDLE_FILL: Color := Color(80, 80, 80, 255)
  const IDLE_OUTLINE: Color := Color(120, 120, 120, 255)
  const HOVER_FILL: Color := Color(100, 100, 100, 255)
  const HOVER_OUTLINE: Color := Color(160, 160, 160, 255)
  const PRESSED_FILL: Color := Color(60, 60, 60, 255)
  const PRESSED_OUTLINE: Color := Color(180, 180, 180, 255)
  const BUTTON_OUTLINE_THICKNESS: real := 4.0

  datatype MouseEvent = MouseMoved | MouseButtonPressed | MouseButtonReleased | OtherEvent

  /** The shape's global bounds: left, top, width, height. */
  datatype Rect = Rect(left: real, top: real, width: real, height: real)

  /** `contains_point`: an inclusive bounds test on all four sides. */
  function ContainsPoint(bounds: Rect, p: Vec2): (inside: bool)
    ensures inside <==> (bounds.left <= p.x <= bounds.left + bounds.width &&
                         bounds.top <= p.y <= bounds.top + bounds.height)
  {
    p.x >= bounds.left && p.x <= bounds.left + bounds.width
    && p.y >= bounds.top && p.y <= bounds.top + bounds.height
  }

  /** The (fill, outline) colours of `update_appearance`: pressed wins over
      hovered, which wins over idle. */
  function Appearance(pressed: bool, hovered: bool): (c: (Color, Color))
    ensures pressed ==> c == (PRESSED_FILL, PRESSED_OUTLINE)
    ensures !pressed && hovered ==> c == (HOVER_FILL, HOVER_OUTLINE)
    ensures !pressed && !hovered ==> c == (IDLE_FILL, IDLE_OUTLINE)
  {
    if pressed then (Rgb(60, 60, 60), Rgb(180, 180, 180))
    else if hovered then (Rgb(100, 100, 100), Rgb(160, 160, 160))
    else (Rgb(80, 80, 80), Rgb(120, 120, 120))
  }

  /** The three state machine appearances are pairwise distinct, so the
      colours tell the displayed state. */
  lemma AppearancesDistinct(p1: bool, h1: bool, p2: bool, h2: bool)
    requires Appearance(p1, h1) == Appearance(p2, h2)
    ensures p1 == p2 && (!p1 ==> h1 == h2)
  {
  }

  /** `handle_event`. */
  function HandleEvent(event: MouseEvent, mouse: Vec2): (handled: bool)
    ensures handled
  {
    true
  }

  class Clickable {
    const shape: RectRound.Shape
    var fill: Color
    var outline: Color
    var outlineThickness: real
    var isHovered: bool
    var isPressed: bool

    /** The colours always show the state. */
    ghost predicate Valid()
      reads this
    {
      (fill, outline) == Appearance(isPressed, isHovered)
    }

    /** `new_rect_round`: a rounded rectangle, idle colours, outline
        thickness 4, neither hovered nor pressed. */
    constructor NewRectRound(width: real, height: real, radius: real)
      ensures Valid()
      ensures shape.points == RectRound.BasicShape(width, height, radius)
      ensures !isHovered && !isPressed
      ensures fill == IDLE_FILL && outline == IDLE_OUTLINE
      ensures outlineThickness == BUTTON_OUTLINE_THICKNESS
    {
      shape := RectRound.New(width, height, radius);
      fill := Rgb(80, 80, 80);
      outline := Rgb(120, 120, 120);
      outlineThickness := 4.0;
      isHovered := false;
      isPressed := false;
    }

    /** `update`, with `contains` the result of `contains_point` for the
        mouse position. A move sets the hover flag and cancels a press that
        left the button; a press inside presses it; a release reports a click
        when the button was pressed and the pointer is inside, and always
        releases. Other events change nothing. The colours are refreshed
        exactly when a flag changed. */
    method Update(event: MouseEvent, contains: bool) returns (clicked: bool)
      requires Valid()
      modifies this`isHovered, this`isPressed, this`fill, this`outline
      ensures Valid()
      ensures event == MouseMoved ==>
        isHovered == contains && isPressed == (old(isPressed) && contains) && !clicked
      ensures event == MouseButtonPressed ==>
        isHovered == old(isHovered) && isPressed == (old(isPressed) || contains) && !clicked
      ensures event == MouseButtonReleased ==>
        isHovered == old(isHovered) && !isPressed && clicked == (old(isPressed) && contains)
      ensures event == OtherEvent ==>
        isHovered == old(isHovered) && isPressed == old(isPressed) && !clicked
      ensures isHovered == old(isHovered) && isPressed == old(isPressed) ==>
        fill == old(fill) && outline == old(outline)
      ensures (isHovered, isPressed, clicked) == Step(old(isHovered), old(isPressed), event, contains)
    {
      var oldHovered := isHovered;
      var oldPressed := isPressed;
      clicked := false;
      match event {
        case MouseMoved =>
          isHovered := contains;
          if isPressed && !contains {
            isPressed := false;
          }
        case MouseButtonPressed =>
          if contains {
            isPressed := true;
          }
        case MouseButtonReleased =>
          if isPressed && contains {
            clicked := true;
          }
          isPressed := false;
        case OtherEvent =>
      }
      if oldHovered != isHovered || oldPressed != isPressed {
        UpdateAppearance();
      }
    }

    /** `update_appearance`: set the colours of the current state. */
    method UpdateAppearance()
      modifies this`fill, this`outline
      ensures (fill, outline) == Appearance(isPressed, isHovered)
    {
      if isPressed {
        fill := Rgb(60, 60, 60);
        outline := Rgb(180, 180, 180);
      } else if isHovered {
        fill := Rgb(100, 100, 100);
        outline := Rgb(160, 160, 160);
      } else {
        fill := Rgb(80, 80, 80);
        outline := Rgb(120, 120, 120);
      }
    }
  }

  /** The flags after one `update`, as a function. */
  function Step(hovered: bool, pressed: bool, event: MouseEvent, contains: bool): (r: (bool, bool, bool))
  {
    match event
    case MouseMoved => (contains, pressed && contains, false)
    case MouseButtonPressed => (hovered, pressed || contains, false)
    case MouseButtonReleased => (hovered, false, pressed && contains)
    case OtherEvent => (hovered, pressed, false)
  }

  /** A run of events with the pointer test of each. */
  function Run(hovered: bool, pressed: bool, events: seq<(MouseEvent, bool)>): (bool, bool)
    decreases |events|
  {
    if events == [] then (hovered, pressed)
    else
      var r := Step(hovered, pressed, events[0].0, events[0].1);
      Run(r.0, r.1, events[1..])
  }

  /** A click needs a press first: starting released, an event run in which
      no press happened inside the button leaves it released, so no release
      at its end reports a click. */
  lemma {:induction false} NoClickWithoutPress(hovered: bool, events: seq<(MouseEvent, bool)>)
    requires forall k :: 0 <= k < |events| ==> events[k] != (MouseButtonPressed, true)
    ensures !Run(hovered, false, events).1
    ensures forall contains :: !Step(Run(hovered, false, events).0, Run(hovered, false, events).1,
                                     MouseButtonReleased, contains).2
    decreases |events|
  {
    if events != [] {
      var r := Step(hovered, false, events[0].0, events[0].1);
      assert !r.1;
      assert forall k :: 0 <= k < |events[1..]| ==> events[1..][k] == events[k + 1];
      NoClickWithoutPress(r.0, events[1..]);
    }
  }
}
