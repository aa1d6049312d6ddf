/** A value-level model of the image-track controller: the policy constants,
    the pure helpers (clamp, dominant wheel delta, rubber-band damping), the
    state the controller keeps on the track element, one transition function
    per event handler, and the properties those transitions promise. The class
    in module CarouselController performs the same transitions in place. */
module CarouselModel {

  datatype Option<T> = None | Some(value: T)

  // Travel limits of the strip offset, in percent of the strip's own width.
  const MIN: real := -75.0
  const MAX: real := 0.0
  // Fraction of the excess past a limit that survives rubber-band damping.
  const ELASTICITY: real := 0.35
  // Discrepancies at or below this are not worth a transition.
  const EPS: real := 0.0001
  // Offset change per recognised key press.
  const KEY_STEP: real := 6.0

  // Transition durations, in milliseconds.
  const DEFAULT_DURATION: nat := 1200
  const SETTLE_DURATION: nat := 500
  const DRAG_DURATION: nat := 300
  const WHEEL_DURATION: nat := 250
  const WHEEL_ELASTIC_DURATION: nat := 200
  const KEY_DURATION: nat := 200
  // Wheel inactivity after which the pending snap runs, in milliseconds.
  const WHEEL_IDLE: nat := 140

  // The drag anchor value that means "no drag in progress".
  const NOT_DRAGGING: real := 0.0

  /** The viewport width; the handlers divide by half of it. */
  type Width = w: real | w > 0.0 witness 1.0

  function Abs(x: real): real { if x < 0.0 then -x else x }
  function Max(a: real, b: real): real { if a >= b then a else b }
  function Min(a: real, b: real): real { if a <= b then a else b }

  // ---------------------------------------------------------------------
  // Pure helpers
  // ---------------------------------------------------------------------

  /** max(lo, min(hi, v)): the point of [lo, hi] nearest to v; with inverted
      bounds the lower bound wins. */
  function Clamp(v: real, lo: real, hi: real): (r: real)
    ensures lo <= hi ==> lo <= r <= hi
    ensures lo <= v <= hi ==> r == v
    ensures hi < lo ==> r == lo
  {
    Max(lo, Min(hi, v))
  }

  lemma ClampIsNearest(v: real, lo: real, hi: real, y: real)
    requires lo <= y <= hi
    ensures Abs(Clamp(v, lo, hi) - v) <= Abs(y - v)
  {
  }

  lemma ClampIdempotent(v: real, lo: real, hi: real)
    ensures Clamp(Clamp(v, lo, hi), lo, hi) == Clamp(v, lo, hi)
  {
  }

  /** The wheel delta taken from the axis of larger magnitude; a tie goes to the
      vertical axis. An unusable (NaN or missing) component compares false
      against everything, so the vertical value is returned whenever either
      component is unusable: the result is unusable exactly when deltaY is. */
  function DominantDelta(deltaX: Option<real>, deltaY: Option<real>): (r: Option<real>)
    ensures r == deltaX || r == deltaY
    ensures r.Some? <==> deltaY.Some?
    ensures deltaX.Some? && deltaY.Some? ==>
              Abs(r.value) == Max(Abs(deltaX.value), Abs(deltaY.value))
    ensures deltaX.Some? && deltaY.Some? && Abs(deltaX.value) == Abs(deltaY.value) ==>
              r == deltaY
  {
    if deltaX.Some? && deltaY.Some? && Abs(deltaX.value) > Abs(deltaY.value)
    then deltaX else deltaY
  }

  /** A pointer or wheel delta in pixels as a change of offset: normalised by
      half the viewport width, sign inverted. */
  function PctDelta(delta: real, innerWidth: Width): real {
    (delta / (innerWidth / 2.0)) * -100.0
  }

  lemma PctDeltaAntitone(d1: real, d2: real, innerWidth: Width)
    requires d1 <= d2
    ensures PctDelta(d2, innerWidth) <= PctDelta(d1, innerWidth)
  {
  }

  predicate InBounds(p: real) { MIN <= p <= MAX }

  /** Within EPS of [MIN, MAX]. */
  predicate NearBounds(p: real) { MIN - EPS <= p <= MAX + EPS }

  /** Rubber-band damping: an offset inside the limits passes through; past a
      limit only ELASTICITY of the excess survives. */
  function Damp(wanted: real): (target: real)
    ensures InBounds(wanted) ==> target == wanted
    ensures Clamp(target, MIN, MAX) == Clamp(wanted, MIN, MAX)
    ensures Abs(target - Clamp(wanted, MIN, MAX)) ==
            ELASTICITY * Abs(wanted - Clamp(wanted, MIN, MAX))
  {
    if wanted > MAX then MAX + (wanted - MAX) * ELASTICITY
    else if wanted < MIN then MIN + (wanted - MIN) * ELASTICITY
    else wanted
  }

  /** Past a limit the damped offset lies strictly between the limit and the
      wanted offset: damping always reduces the overshoot, never removes it. */
  lemma DampStrictlyReducesOvershoot(wanted: real)
    ensures wanted > MAX ==> MAX < Damp(wanted) < wanted
    ensures wanted < MIN ==> wanted < Damp(wanted) < MIN
    ensures InBounds(Damp(wanted)) <==> InBounds(wanted)
  {
  }

  lemma DampMonotone(w1: real, w2: real)
    requires w1 <= w2
    ensures Damp(w1) <= Damp(w2)
  {
  }

  lemma DampBelowMinExample()
    ensures Damp(-80.0) == -76.75
  {
  }

  // ---------------------------------------------------------------------
  // Controller state
  // ---------------------------------------------------------------------

  /** One call of the track update: the offset it animates to and for how long. */
  datatype Transition = Transition(target: real, duration: nat)

  /** The attributes kept on the track element (typed instead of strings), the
      hover flag, whether a wheel snap timer is outstanding, and every track
      update issued so far, oldest first. */
  datatype State = State(
    percentage: real,
    mouseDownAt: real,
    prevPercentage: real,
    isOverTrack: bool,
    snapPending: bool,
    transitions: seq<Transition>)

  /** What a handler that may cancel the browser's default action returns. */
  datatype Handled = Handled(next: State, preventDefault: bool)

  predicate Dragging(s: State) { s.mouseDownAt != NOT_DRAGGING }

  /** The recorded offset is the one the strip was last animated to. */
  predicate Rendered(s: State) {
    |s.transitions| > 0 ==> s.transitions[|s.transitions| - 1].target == s.percentage
  }

  /** t differs from s only in the offset and the transition log, and by
      exactly one update to p lasting dur. */
  predicate Wrote(s: State, t: State, p: real, dur: nat) {
    t == s.(percentage := p, transitions := s.transitions + [Transition(p, dur)])
  }

  function OrZero(attr: Option<real>): real {
    if attr.Some? then attr.value else 0.0
  }

  /** Start-up: an attribute already present on the element is kept, an absent
      one becomes 0; no hover, no timer, nothing animated yet. */
  function Init(mouseDownAt: Option<real>, prevPercentage: Option<real>,
                percentage: Option<real>): (s: State)
    ensures mouseDownAt.None? ==> !Dragging(s)
    ensures percentage.Some? ==> s.percentage == percentage.value
    ensures percentage.None? ==> s.percentage == 0.0 && InBounds(s.percentage)
    ensures prevPercentage.None? ==> s.prevPercentage == 0.0
    ensures mouseDownAt.Some? ==> s.mouseDownAt == mouseDownAt.value
    ensures prevPercentage.Some? ==> s.prevPercentage == prevPercentage.value
    ensures !s.isOverTrack && !s.snapPending && s.transitions == []
    ensures Rendered(s)
  {
    State(OrZero(percentage), OrZero(mouseDownAt), OrZero(prevPercentage), false, false, [])
  }

  /** The track update: record the new offset and the transition to it. */
  function SetTrack(s: State, nextPct: real, dur: nat := DEFAULT_DURATION): (t: State)
    ensures t.percentage == nextPct && Rendered(t)
    ensures |t.transitions| == |s.transitions| + 1
    ensures t.transitions[..|s.transitions|] == s.transitions
    ensures t.transitions[|s.transitions|].duration == dur
    ensures t.(percentage := s.percentage, transitions := s.transitions) == s
  {
    s.(percentage := nextPct, transitions := s.transitions + [Transition(nextPct, dur)])
  }

  /** Snap back into the limits with the settle duration, but only when the
      offset is more than EPS outside them. */
  function SnapToBounds(s: State): (t: State)
    ensures NearBounds(t.percentage)
    ensures t != s <==> Abs(Clamp(s.percentage, MIN, MAX) - s.percentage) > EPS
    ensures t != s ==> Wrote(s, t, Clamp(s.percentage, MIN, MAX), SETTLE_DURATION)
    ensures t != s ==> InBounds(t.percentage)
    ensures Rendered(s) ==> Rendered(t)
  {
    var cur := s.percentage;
    var snapped := Clamp(cur, MIN, MAX);
    if Abs(snapped - cur) > EPS then SetTrack(s, snapped, SETTLE_DURATION) else s
  }

  lemma SnapToBoundsIdempotent(s: State)
    ensures SnapToBounds(SnapToBounds(s)) == SnapToBounds(s)
  {
  }

  // ---------------------------------------------------------------------
  // Event handlers
  // ---------------------------------------------------------------------

  function PointerEnter(s: State): (t: State)
    ensures t.isOverTrack && t.(isOverTrack := s.isOverTrack) == s
  {
    s.(isOverTrack := true)
  }

  function PointerLeave(s: State): (t: State)
    ensures !t.isOverTrack && t.(isOverTrack := s.isOverTrack) == s
  {
    s.(isOverTrack := false)
  }

  /** Pointer down records the anchor and nothing else. An anchor equal to the
      sentinel is indistinguishable from "not dragging". */
  function HandleOnDown(s: State, clientX: real): (t: State)
    ensures Dragging(t) <==> clientX != NOT_DRAGGING
    ensures t.mouseDownAt == clientX && t.(mouseDownAt := s.mouseDownAt) == s
  {
    s.(mouseDownAt := clientX)
  }

  /** Pointer up ends the drag, keeps the offset before the snap as the next
      drag's baseline, and snaps into the limits. */
  function HandleOnUp(s: State): (t: State)
    ensures !Dragging(t)
    ensures t.prevPercentage == s.percentage
    ensures t.(mouseDownAt := s.mouseDownAt, prevPercentage := s.prevPercentage) == SnapToBounds(s)
    ensures NearBounds(t.percentage)
    ensures t.percentage != s.percentage ==>
              InBounds(t.percentage) && t.percentage == Clamp(s.percentage, MIN, MAX)
    ensures InBounds(s.percentage) ==> t.percentage == s.percentage && t.transitions == s.transitions
    ensures t.isOverTrack == s.isOverTrack && t.snapPending == s.snapPending
    ensures Rendered(s) ==> Rendered(t)
  {
    SnapToBounds(s.(mouseDownAt := NOT_DRAGGING, prevPercentage := s.percentage))
  }

  /** The offset a drag asks for: the baseline moved by the pointer's travel
      since the anchor. */
  function DragWanted(s: State, clientX: real, innerWidth: Width): real {
    s.prevPercentage + PctDelta(s.mouseDownAt - clientX, innerWidth)
  }

  /** Pointer move: ignored unless dragging; otherwise animate to the damped
      wanted offset, on every move, however small. */
  function HandleOnMove(s: State, clientX: real, innerWidth: Width): (t: State)
    ensures !Dragging(s) ==> t == s
    ensures Dragging(s) ==> Wrote(s, t, Damp(DragWanted(s, clientX, innerWidth)), DRAG_DURATION)
    ensures Dragging(s) && InBounds(DragWanted(s, clientX, innerWidth)) ==>
              t.percentage == DragWanted(s, clientX, innerWidth)
  {
    if !Dragging(s) then s
    else
      var wanted := DragWanted(s, clientX, innerWidth);
      SetTrack(s, Damp(wanted), DRAG_DURATION)
  }

  /** A drag move depends on the baseline and the anchor, not on the current
      offset: whatever a wheel or key moved since the last release is dropped
      by the next drag move. */
  lemma MoveIgnoresCurrent(s: State, p: real, clientX: real, innerWidth: Width)
    requires Dragging(s)
    ensures HandleOnMove(s.(percentage := p), clientX, innerWidth).percentage ==
            HandleOnMove(s, clientX, innerWidth).percentage
  {
  }

  /** The strip follows the pointer: a move further right never leaves the
      offset further left. */
  lemma MoveFollowsPointer(s: State, x1: real, x2: real, innerWidth: Width)
    requires x1 <= x2
    ensures HandleOnMove(s, x1, innerWidth).percentage <= HandleOnMove(s, x2, innerWidth).percentage
  {
  }

  lemma DragExample()
    ensures HandleOnMove(State(0.0, 500.0, 0.0, false, false, []), 300.0, 1000.0).percentage == -40.0
  {
  }

  /** Wheel: ignored off the track or without a usable delta. A wanted offset
      inside the limits is applied and the page scroll cancelled; outside, the
      damped offset is applied only if it is more than EPS away, and the page
      may scroll. Every handled event (re)arms the snap timer. */
  function OnWheel(s: State, deltaX: Option<real>, deltaY: Option<real>,
                   innerWidth: Width): (h: Handled)
    ensures !s.isOverTrack || deltaY.None? ==> h == Handled(s, false)
    ensures s.isOverTrack && deltaY.Some? ==>
              var wanted := s.percentage + PctDelta(DominantDelta(deltaX, deltaY).value, innerWidth);
              var rest := h.next.(snapPending := s.snapPending);
              && h.next.snapPending
              && (h.preventDefault <==> InBounds(wanted))
              && (InBounds(wanted) ==> Wrote(s, rest, wanted, WHEEL_DURATION))
              && (!InBounds(wanted) && Abs(Damp(wanted) - s.percentage) > EPS ==>
                    Wrote(s, rest, Damp(wanted), WHEEL_ELASTIC_DURATION))
              && (!InBounds(wanted) && Abs(Damp(wanted) - s.percentage) <= EPS ==> rest == s)
  {
    if !s.isOverTrack then Handled(s, false)
    else match DominantDelta(deltaX, deltaY)
      case None => Handled(s, false)
      case Some(delta) =>
        var current := s.percentage;
        var wanted := current + PctDelta(delta, innerWidth);
        if InBounds(wanted) then
          Handled(SetTrack(s, wanted, WHEEL_DURATION).(snapPending := true), true)
        else
          var target := Damp(wanted);
          var moved := Abs(target - current) > EPS;
          var t := if moved then SetTrack(s, target, WHEEL_ELASTIC_DURATION) else s;
          Handled(t.(snapPending := true), false)
  }

  lemma WheelExample()
    ensures var h := OnWheel(State(-70.0, 0.0, 0.0, true, false, []), Some(0.0), Some(50.0), 1000.0);
            h.next.percentage == -76.75 && !h.preventDefault && h.next.snapPending
  {
  }

  lemma WheelOffTrackExample(deltaX: Option<real>, deltaY: Option<real>, innerWidth: Width)
    ensures OnWheel(State(-30.0, 0.0, 0.0, false, false, []), deltaX, deltaY, innerWidth) ==
            Handled(State(-30.0, 0.0, 0.0, false, false, []), false)
  {
  }

  predicate IsForwardKey(key: string) { key == "ArrowRight" || key == " " }
  predicate IsBackKey(key: string) { key == "ArrowLeft" }

  /** Key press over the track: ArrowRight or Space step the offset down,
      ArrowLeft up, clamped into the limits (no elasticity); only those keys
      cancel the default action. */
  function OnKeyDown(s: State, key: string): (h: Handled)
    ensures h.preventDefault <==> s.isOverTrack && (IsForwardKey(key) || IsBackKey(key))
    ensures !h.preventDefault ==> h.next == s
    ensures h.preventDefault ==> InBounds(h.next.percentage)
    ensures h.preventDefault && IsForwardKey(key) ==>
              Wrote(s, h.next, Clamp(s.percentage - KEY_STEP, MIN, MAX), KEY_DURATION)
    ensures h.preventDefault && IsBackKey(key) ==>
              Wrote(s, h.next, Clamp(s.percentage + KEY_STEP, MIN, MAX), KEY_DURATION)
    ensures InBounds(s.percentage) ==> Abs(h.next.percentage - s.percentage) <= KEY_STEP
    ensures InBounds(s.percentage) && IsForwardKey(key) ==> h.next.percentage <= s.percentage
    ensures InBounds(s.percentage) && IsBackKey(key) ==> h.next.percentage >= s.percentage
  {
    if !s.isOverTrack then Handled(s, false)
    else if IsForwardKey(key) then
      Handled(SetTrack(s, Clamp(s.percentage - KEY_STEP, MIN, MAX), KEY_DURATION), true)
    else if IsBackKey(key) then
      Handled(SetTrack(s, Clamp(s.percentage + KEY_STEP, MIN, MAX), KEY_DURATION), true)
    else Handled(s, false)
  }

  lemma KeyExample()
    ensures OnKeyDown(State(-3.0, 0.0, 0.0, true, false, []), "ArrowRight").next.percentage == -9.0
  {
  }

  /** The wheel snap timer fires: the pending snap runs and the timer is gone.
      Without a pending timer nothing happens. */
  function FireSnap(s: State): (t: State)
    ensures !t.snapPending
    ensures s.snapPending ==> NearBounds(t.percentage)
    ensures !s.snapPending ==> t == s
    ensures s.snapPending ==> t == SnapToBounds(s).(snapPending := false)
  {
    if s.snapPending then SnapToBounds(s).(snapPending := false) else s
  }

  // ---------------------------------------------------------------------
  // Event sequences
  // ---------------------------------------------------------------------

  datatype Event =
    | EnterTrack
    | LeaveTrack
    | Down(clientX: real)
    | Move(clientX: real, innerWidth: Width)
    | Up
    | Wheel(deltaX: Option<real>, deltaY: Option<real>, innerWidth: Width)
    | Key(key: string)
    | SnapTimerFires

  function Step(s: State, e: Event): State {
    match e
    case EnterTrack => PointerEnter(s)
    case LeaveTrack => PointerLeave(s)
    case Down(x) => HandleOnDown(s, x)
    case Move(x, w) => HandleOnMove(s, x, w)
    case Up => HandleOnUp(s)
    case Wheel(dx, dy, w) => OnWheel(s, dx, dy, w).next
    case Key(k) => OnKeyDown(s, k).next
    case SnapTimerFires => FireSnap(s)
  }

  /** Handlers run one at a time, in delivery order. */
  function Run(s: State, events: seq<Event>): State
    decreases |events|
  {
    if events == [] then s else Run(Step(s, events[0]), events[1..])
  }

  lemma {:induction false} RunAppend(s: State, a: seq<Event>, b: seq<Event>)
    ensures Run(s, a + b) == Run(Run(s, a), b)
    decreases |a|
  {
    if a == [] {
      assert a + b == b;
    } else {
      assert (a + b)[0] == a[0];
      assert (a + b)[1..] == a[1..] + b;
      RunAppend(Step(s, a[0]), a[1..], b);
    }
  }

  lemma RunSingle(s: State, e: Event)
    ensures Run(s, [e]) == Step(s, e)
  {
  }

  /** Whatever came before, a release leaves the strip within EPS of the
      limits and no drag in progress. */
  lemma ReleaseSettles(s: State, events: seq<Event>)
    requires |events| > 0 && events[|events| - 1] == Up
    ensures NearBounds(Run(s, events).percentage) && !Dragging(Run(s, events))
  {
    var n := |events| - 1;
    assert events == events[..n] + [Up];
    RunAppend(s, events[..n], [Up]);
    RunSingle(Run(s, events[..n]), Up);
  }

  lemma StepKeepsRendered(s: State, e: Event)
    requires Rendered(s)
    ensures Rendered(Step(s, e))
  {
  }

  /** Every offset change goes through the track update, so the recorded offset
      is always the one last animated to. */
  lemma {:induction false} RunKeepsRendered(s: State, events: seq<Event>)
    requires Rendered(s)
    ensures Rendered(Run(s, events))
    decreases |events|
  {
    if events != [] {
      StepKeepsRendered(s, events[0]);
      RunKeepsRendered(Step(s, events[0]), events[1..]);
    }
  }

  predicate NoTimer(events: seq<Event>) {
    forall i :: 0 <= i < |events| ==> !events[i].SnapTimerFires?
  }

  /** Only the timer firing disarms the timer. */
  lemma {:induction false} PendingUntilFired(s: State, events: seq<Event>)
    requires s.snapPending && NoTimer(events)
    ensures Run(s, events).snapPending
    decreases |events|
  {
    if events != [] {
      assert !events[0].SnapTimerFires?;
      assert NoTimer(events[1..]) by {
        forall i | 0 <= i < |events[1..]| ensures !events[1..][i].SnapTimerFires? {
          assert events[1..][i] == events[i + 1];
        }
      }
      PendingUntilFired(Step(s, events[0]), events[1..]);
    }
  }

  /** A handled wheel event, followed by any input other than the timer and
      then by the idle timeout, leaves the strip within EPS of the limits. */
  lemma WheelIdleSettles(s: State, deltaX: Option<real>, deltaY: Option<real>,
                         innerWidth: Width, quiet: seq<Event>)
    requires s.isOverTrack && deltaY.Some?
    requires NoTimer(quiet)
    ensures var t := Run(s, [Wheel(deltaX, deltaY, innerWidth)] + quiet + [SnapTimerFires]);
            NearBounds(t.percentage) && !t.snapPending
  {
    var w := [Wheel(deltaX, deltaY, innerWidth)];
    var armed := OnWheel(s, deltaX, deltaY, innerWidth).next;
    RunSingle(s, w[0]);
    PendingUntilFired(armed, quiet);
    RunAppend(s, w, quiet);
    RunAppend(s, w + quiet, [SnapTimerFires]);
    RunSingle(Run(s, w + quiet), SnapTimerFires);
  }

  /** Events that never ask for an elastic offset: everything but drag moves
      and wheel events. */
  predicate Rigid(e: Event) { !e.Move? && !e.Wheel? }

  lemma RigidStepInBounds(s: State, e: Event)
    requires InBounds(s.percentage) && Rigid(e)
    ensures InBounds(Step(s, e).percentage)
  {
  }

  /** Key presses (and hover, press, release and the timer) never take an
      in-bounds strip out of bounds, however many of them arrive. */
  lemma {:induction false} KeysNeverOvershoot(s: State, events: seq<Event>)
    requires InBounds(s.percentage)
    requires forall i :: 0 <= i < |events| ==> Rigid(events[i])
    ensures InBounds(Run(s, events).percentage)
    decreases |events|
  {
    if events != [] {
      RigidStepInBounds(s, events[0]);
      assert forall i :: 0 <= i < |events[1..]| ==> Rigid(events[1..][i]) by {
        forall i | 0 <= i < |events[1..]| ensures Rigid(events[1..][i]) {
          assert events[1..][i] == events[i + 1];
        }
      }
      KeysNeverOvershoot(Step(s, events[0]), events[1..]);
    }
  }

  // ---------------------------------------------------------------------
  // Wheel overshoot stays bounded
  // ---------------------------------------------------------------------

  /** ELASTICITY / (1 - ELASTICITY): the fixed point of repeated elastic wheel
      steps, per unit of wheel step. */
  const OVERSHOOT: real := 7.0 / 13.0

  /** Within bound * OVERSHOOT of the limits. */
  predicate WithinOvershoot(p: real, bound: real) {
    MIN - OVERSHOOT * bound <= p <= MAX + OVERSHOOT * bound
  }

  /** No drag move, and every usable wheel delta moves the offset by at most bound. */
  predicate WheelBounded(e: Event, bound: real) {
    match e
    case Move(_, _) => false
    case Wheel(dx, dy, w) =>
      DominantDelta(dx, dy).None? || Abs(PctDelta(DominantDelta(dx, dy).value, w)) <= bound
    case _ => true
  }

  lemma WheelStepWithinOvershoot(s: State, e: Event, bound: real)
    requires bound >= 0.0 && WheelBounded(e, bound)
    requires WithinOvershoot(s.percentage, bound)
    ensures WithinOvershoot(Step(s, e).percentage, bound)
  {
    if e.Wheel? && s.isOverTrack && e.deltaY.Some? {
      var wanted := s.percentage + PctDelta(DominantDelta(e.deltaX, e.deltaY).value, e.innerWidth);
      assert MIN - OVERSHOOT * bound - bound <= wanted <= MAX + OVERSHOOT * bound + bound;
    }
  }

  /** However the wheel is flicked past a limit, with steps of at most bound,
      the strip never ends up more than 7/13 of a step beyond it. Repeated
      pushes converge instead of creeping further out. */
  lemma {:induction false} WheelOvershootBounded(s: State, events: seq<Event>, bound: real)
    requires bound >= 0.0
    requires forall i :: 0 <= i < |events| ==> WheelBounded(events[i], bound)
    requires WithinOvershoot(s.percentage, bound)
    ensures WithinOvershoot(Run(s, events).percentage, bound)
    decreases |events|
  {
    if events != [] {
      WheelStepWithinOvershoot(s, events[0], bound);
      assert forall i :: 0 <= i < |events[1..]| ==> WheelBounded(events[1..][i], bound) by {
        forall i | 0 <= i < |events[1..]| ensures WheelBounded(events[1..][i], bound) {
          assert events[1..][i] == events[i + 1];
        }
      }
      WheelOvershootBounded(Step(s, events[0]), events[1..], bound);
    }
  }
}
