/**
  The terminal dock's height: the drag handle of `apps/ui/src/terminal/TerminalDragHandle.tsx`, the clamp of
  `terminal/clamp.mjs`, and the host of `terminal/TerminalControl.tsx` that applies the one to the other.

  The handlers are those of the last render: they close over the height and the box that render drew. A render is
  therefore a step of its own here, and any number of events may come between two renders.
 */
module DragHandle {
  import opened Wrappers

  const DOCK_MIN_HEIGHT := 48
  const DOCK_DEFAULT_HEIGHT := 280
  const DRAG_KEY_STEP := 16

  function Min(a: int, b: int): int {
    if a <= b then a else b
  }

  function Max(a: int, b: int): int {
    if a <= b then b else a
  }

  // ---- the clamp ----

  // The content region as it was read: absent before layout, and negative when the chrome outgrows the viewport.
  type Box = Option<real>

  predicate Measured(box: Box) {
    box.Some? && box.value >= 0.0
  }

  function Ceiling(box: Box): Option<int> {
    if Measured(box) then Some((box.value * 0.5).Floor) else None
  }

  function AtMost(h: int, ceiling: Option<int>): int {
    if ceiling.Some? then Min(h, ceiling.value) else h
  }

  function Floor(box: Box): int {
    AtMost(DOCK_MIN_HEIGHT, Ceiling(box))
  }

  function Default(box: Box): int {
    AtMost(DOCK_DEFAULT_HEIGHT, Ceiling(box))
  }

  function Clamp(requested: real, box: Box): int {
    AtMost(Max(requested.Floor, Floor(box)), Ceiling(box))
  }

  // A height the dock may have in a box: never above half of it, and never below the minimum unless half of the
  // box is less than the minimum, when it is all of that half.
  ghost predicate Allowed(h: int, box: Box) {
    && (Measured(box) ==> h as real <= box.value * 0.5)
    && (h >= 48 || (Measured(box) && h >= 0 && (h + 1) as real > box.value * 0.5))
  }

  // The clamp gives an allowed height, moves no allowed one, and goes no further than it must: no allowed height
  // lies strictly between the request and the answer.
  lemma ClampIsNearest(requested: real, box: Box, other: int)
    requires Allowed(other, box)
    ensures Allowed(Clamp(requested, box), box)
    ensures Clamp(other as real, box) == other
    ensures requested.Floor <= other ==> Clamp(requested, box) <= other
    ensures other <= requested.Floor ==> other <= Clamp(requested, box)
  {
  }

  lemma ClampIsAllowed(requested: real, box: Box)
    ensures Allowed(Clamp(requested, box), box)
    ensures Allowed(Default(box), box)
  {
  }

  // ---- the dock ----

  // What one render drew, and what its handlers know.
  datatype Frame = Frame(height: int, region: Box)

  datatype Drag = Drag(startY: real, startHeight: int)

  datatype State = State(stored: Option<int>, contentBox: Box, frame: Frame, drag: Option<Drag>)

  datatype Event =
    | PointerDown(y: real)
    | PointerMove(y: real)
    | PointerUp
    | ArrowUp
    | ArrowDown
    | Resize(box: Box)
    | Render

  function Height(stored: Option<int>, box: Box): int {
    Clamp((if stored.Some? then stored.value else Default(box)) as real, box)
  }

  function Init(box: Box): State {
    State(None, box, Frame(Height(None, box), box), None)
  }

  function ResizeBy(s: State, delta: real): State {
    s.(stored := Some(Clamp(s.frame.height as real + delta, s.frame.region)))
  }

  function Step(s: State, e: Event): State {
    match e
    case PointerDown(y) => s.(drag := Some(Drag(y, s.frame.height)))
    case PointerMove(y) =>
      if s.drag.None? then s
      else ResizeBy(s, s.drag.value.startHeight as real + (s.drag.value.startY - y) - s.frame.height as real)
    case PointerUp => s.(drag := None)
    case ArrowUp => ResizeBy(s, DRAG_KEY_STEP as real)
    case ArrowDown => ResizeBy(s, -(DRAG_KEY_STEP as real))
    case Resize(box) => s.(contentBox := box)
    case Render => s.(frame := Frame(Height(s.stored, s.contentBox), s.contentBox))
  }

  function Run(s: State, events: seq<Event>): State {
    if events == [] then s else Step(Run(s, events[..|events| - 1]), events[|events| - 1])
  }

  // ---- over whole runs ----

  // Every height ever drawn, the first included, is one the operator may drag to.
  lemma {:induction false} DrawnIsAllowed(box: Box, events: seq<Event>)
    ensures var s := Run(Init(box), events); Allowed(s.frame.height, s.frame.region)
  {
    hide Clamp, Allowed, Default;
    if events == [] {
      ClampIsAllowed(Default(box) as real, box);
    } else {
      var s := Run(Init(box), events[..|events| - 1]);
      DrawnIsAllowed(box, events[..|events| - 1]);
      ClampIsAllowed((if s.stored.Some? then s.stored.value else Default(s.contentBox)) as real, s.contentBox);
    }
  }

  // A drag is on from its press to the next press or release.
  predicate KeepsDrag(events: seq<Event>) {
    forall e <- events :: !e.PointerDown? && !e.PointerUp?
  }

  lemma {:induction false} DragIsKept(s: State, events: seq<Event>)
    requires KeepsDrag(events)
    ensures Run(s, events).drag == s.drag
  {
    hide Clamp;
    if events != [] {
      var init, last := events[..|events| - 1], events[|events| - 1];
      assert last in events && forall e <- init :: e in events;
      DragIsKept(s, init);
    }
  }

  predicate KeepsBox(events: seq<Event>) {
    forall e <- events :: !e.Resize?
  }

  lemma {:induction false} BoxIsKept(s: State, events: seq<Event>)
    requires KeepsBox(events) && s.frame.region == s.contentBox
    ensures Run(s, events).frame.region == Run(s, events).contentBox == s.contentBox
  {
    hide Clamp;
    if events != [] {
      var init, last := events[..|events| - 1], events[|events| - 1];
      assert last in events && forall e <- init :: e in events;
      BoxIsKept(s, init);
    }
  }

  // Whatever happened since the press, moves, keys, box changes and renders or their absence, a move asks for the
  // height of its own travel from the press: nothing of the earlier moves is in it.
  lemma LastMoveAlone(s: State, startY: real, events: seq<Event>, y: real)
    requires KeepsDrag(events)
    ensures var before := Run(Step(s, PointerDown(startY)), events);
            && Step(before, PointerMove(y)).stored
              == Some(Clamp(s.frame.height as real + (startY - y), before.frame.region))
            && Step(before, PointerMove(y)).drag == Some(Drag(startY, s.frame.height))
  {
    hide Run, Clamp;
    DragIsKept(Step(s, PointerDown(startY)), events);
    var before := Run(Step(s, PointerDown(startY)), events);
    var h := before.frame.height as real;
    assert h + (s.frame.height as real + (startY - y) - h) == s.frame.height as real + (startY - y);
  }

  // In a box that does not change, what is drawn after a move is the clamp of that move alone, however far the
  // pointer went past either end before it; back at its start, the pointer restores the height it started from.
  lemma LastMoveIsDrawn(box: Box, past: seq<Event>, startY: real, events: seq<Event>, y: real)
    requires KeepsBox(past) && KeepsDrag(events) && KeepsBox(events)
    ensures var s := Run(Init(box), past);
            var after := Step(Step(Run(Step(s, PointerDown(startY)), events), PointerMove(y)), Render);
            && after.frame == Frame(Clamp(s.frame.height as real + (startY - y), box), box)
            && (y == startY ==> after.frame == s.frame)
  {
    hide Run, Clamp, Allowed;
    var s := Run(Init(box), past);
    BoxIsKept(Init(box), past);
    var held := Step(s, PointerDown(startY));
    BoxIsKept(held, events);
    LastMoveAlone(s, startY, events, y);
    var target := s.frame.height as real + (startY - y);
    ClampIsAllowed(target, box);
    ClampIsNearest(target, box, Clamp(target, box));
    DrawnIsAllowed(box, past);
    ClampIsNearest(target, box, s.frame.height);
  }

  // ---- the first height, and what each event leaves alone ----

  // The dock opens at 280, or at half of a box that is smaller than twice that.
  lemma OpensAt(box: Box)
    ensures var h := Init(box).frame.height;
      if box.Some? && 0.0 <= box.value < 560.0 then h as real <= box.value / 2.0 < (h + 1) as real else h == 280
  {
  }

  // Only a move and a key change the height that is stored, only a resize the box, only a render what is drawn, and
  // only a press and a release the drag.
  lemma EventsKeepTheRest(s: State, e: Event)
    ensures !e.PointerMove? && !e.ArrowUp? && !e.ArrowDown? ==> Step(s, e).stored == s.stored
    ensures !e.Resize? ==> Step(s, e).contentBox == s.contentBox
    ensures !e.Render? ==> Step(s, e).frame == s.frame
    ensures !e.PointerDown? && !e.PointerUp? ==> Step(s, e).drag == s.drag
  {
  }

  // From a release to the next press the pointer moves nothing.
  lemma ReleasedMovesNothing(s: State, events: seq<Event>, y: real)
    requires forall e <- events :: !e.PointerDown?
    ensures var after := Run(Step(s, PointerUp), events); Step(after, PointerMove(y)) == after
  {
    hide Clamp;
    ReleasedStays(s, events);
  }

  lemma {:induction false} ReleasedStays(s: State, events: seq<Event>)
    requires forall e <- events :: !e.PointerDown?
    ensures Run(Step(s, PointerUp), events).drag == None
    decreases |events|
  {
    hide Clamp;
    if events != [] {
      var init, last := events[..|events| - 1], events[|events| - 1];
      assert last in events && forall e <- init :: e in events;
      ReleasedStays(s, init);
    }
  }

  // ---- the keys ----

  // A key that is drawn moves the dock by its step or to the end of its range, and is dead only at that end.
  lemma KeysMoveTheDock(s: State)
    requires s.frame.region == s.contentBox && Allowed(s.frame.height, s.contentBox)
    ensures var h, ceiling := s.frame.height, Ceiling(s.contentBox);
            var up := Step(Step(s, ArrowUp), Render).frame.height;
            && up == AtMost(h + DRAG_KEY_STEP, ceiling)
            && (up == h <==> ceiling == Some(h))
    ensures var h, floor := s.frame.height, Floor(s.contentBox);
            var down := Step(Step(s, ArrowDown), Render).frame.height;
            && down == Max(h - DRAG_KEY_STEP, floor)
            && (down == h <==> h == floor)
  {
    var h, box := s.frame.height, s.contentBox;
    assert h as real + DRAG_KEY_STEP as real == (h + DRAG_KEY_STEP) as real;
    assert h as real + -(DRAG_KEY_STEP as real) == (h - DRAG_KEY_STEP) as real;
    var up, down := Clamp((h + DRAG_KEY_STEP) as real, box), Clamp((h - DRAG_KEY_STEP) as real, box);
    ClampIsNearest((h + DRAG_KEY_STEP) as real, box, h);
    ClampIsNearest(up as real, box, h);
    ClampIsAllowed((h + DRAG_KEY_STEP) as real, box);
    ClampIsAllowed((h - DRAG_KEY_STEP) as real, box);
    ClampIsNearest(up as real, box, up);
    ClampIsNearest(down as real, box, down);
  }

  function Presses(n: nat): seq<Event> {
    if n == 0 then [] else Presses(n - 1) + [ArrowDown, Render]
  }

  lemma RunNothing(s: State)
    ensures Run(s, []) == s
  {
  }

  lemma RunMore(s: State, events: seq<Event>, e: Event, f: Event)
    ensures Run(s, events + [e, f]) == Step(Step(Run(s, events), e), f)
  {
    hide Step;
    var all := events + [e, f];
    assert all[..|all| - 1] == events + [e];
    assert (events + [e])[..|events|] == events;
  }

  // Holding a key walks the whole way down, one step at a time, from any height that is drawn.
  lemma {:induction false} HoldingReachesTheFloor(s: State, n: nat)
    requires s.frame.region == s.contentBox && Allowed(s.frame.height, s.contentBox)
    ensures var after := Run(s, Presses(n));
            && after.frame == Frame(Max(s.frame.height - n * DRAG_KEY_STEP, Floor(s.contentBox)), s.contentBox)
            && after.contentBox == s.contentBox
  {
    hide Clamp, Allowed, Floor, Run;
    if n == 0 {
      RunNothing(s);
      AllowedIsAboveTheFloor(s.frame.height, s.contentBox);
    } else {
      HoldingReachesTheFloor(s, n - 1);
      var before := Run(s, Presses(n - 1));
      FloorIsAllowed(s.frame.height - (n - 1) * DRAG_KEY_STEP, s.frame.height, s.contentBox);
      RunMore(s, Presses(n - 1), ArrowDown, Render);
      KeysMoveTheDock(before);
    }
  }

  lemma AllowedIsAboveTheFloor(h: int, box: Box)
    requires Allowed(h, box)
    ensures h >= Floor(box)
  {
  }

  lemma FloorIsAllowed(lower: int, h: int, box: Box)
    requires Allowed(h, box) && lower <= h
    ensures Allowed(Max(lower, Floor(box)), box)
  {
  }

  // Whatever height was stored before the box changed, a key steps from the one that is drawn: it moves the dock
  // unless it is at the end of what the new box allows.
  lemma KeysMoveAResizedDock(s: State, box: Box)
    ensures var t := Step(Step(s, Resize(box)), Render);
      var down, up := Step(Step(t, ArrowDown), Render).frame.height, Step(Step(t, ArrowUp), Render).frame.height;
      && t.frame.height == Height(s.stored, box)
      && down == Max(t.frame.height - 16, Floor(box))
        && (down == t.frame.height <==> t.frame.height == Floor(box))
      && up == AtMost(t.frame.height + 16, Ceiling(box))
        && (up == t.frame.height <==> Ceiling(box) == Some(t.frame.height))
  {
    hide Clamp, Allowed, Default, Floor, Ceiling;
    ClampIsAllowed((if s.stored.Some? then s.stored.value else Default(box)) as real, box);
    KeysMoveTheDock(Step(Step(s, Resize(box)), Render));
  }

  // ---- the component ----

  class Dock {
    var height: Option<int>
    var contentBox: Box
    var drawn: Frame
    var drag: Option<Drag>

    ghost function Value(): State
      reads this
    {
      State(height, contentBox, drawn, drag)
    }

    constructor (box: Box)
      ensures Value() == Init(box)
    {
      height, contentBox, drag := None, box, None;
      drawn := Frame(Height(None, box), box);
    }

    method ResizeDockBy(delta: real)
      modifies this`height
      ensures Value() == ResizeBy(old(Value()), delta)
    {
      height := Some(Clamp(drawn.height as real + delta, drawn.region));
    }

    method OnPointerDown(clientY: real)
      modifies this`drag
      ensures Value() == Step(old(Value()), PointerDown(clientY))
    {
      drag := Some(Drag(clientY, drawn.height));
    }

    method OnPointerMove(clientY: real)
      modifies this`height
      ensures Value() == Step(old(Value()), PointerMove(clientY))
    {
      if drag.None? { return; }
      var active := drag.value;
      ResizeDockBy(active.startHeight as real + (active.startY - clientY) - drawn.height as real);
    }

    method OnPointerUp()
      modifies this`drag
      ensures Value() == Step(old(Value()), PointerUp)
    {
      if drag.None? { return; }
      drag := None;
    }

    method OnKeyDown(key: string)
      modifies this`height
      ensures key == "ArrowUp" ==> Value() == Step(old(Value()), ArrowUp)
      ensures key == "ArrowDown" ==> Value() == Step(old(Value()), ArrowDown)
      ensures key != "ArrowUp" && key != "ArrowDown" ==> Value() == old(Value())
    {
      if key == "ArrowUp" {
        ResizeDockBy(DRAG_KEY_STEP as real);
      } else if key == "ArrowDown" {
        ResizeDockBy(-(DRAG_KEY_STEP as real));
      }
    }

    method Update(box: Box)
      modifies this`contentBox
      ensures Value() == Step(old(Value()), Resize(box))
    {
      contentBox := box;
    }

    method Paint()
      modifies this`drawn
      ensures Value() == Step(old(Value()), Render)
    {
      drawn := Frame(Height(height, contentBox), contentBox);
    }
  }
}
