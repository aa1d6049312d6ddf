# Horizontal image-track carousel: a Dafny model

The page's only script is a controller that moves a strip of images
horizontally. Dragging, the scroll wheel and the arrow / space keys move it.
It keeps one offset, `percentage`, in percent of the strip's width. The travel
limits are MIN = -75 and MAX = 0. Past a limit, drags and wheel flicks are
rubber-banded: only ELASTICITY = 0.35 of the excess survives. When a gesture
ends, the strip snaps back into the limits. Discrepancies of at most
EPS = 0.0001 are left alone.

The model has two modules.

- `CarouselModel` (`carousel_model.dfy`) holds the pure part:
  - the constants;
  - `Clamp`, `DominantDelta` and the damping `Damp`;
  - the controller's state as a value `State`;
  - one transition function per event handler, plus `Run`, which applies a
    sequence of events in delivery order;
  - the lemmas about all of these.
- `CarouselController` (`carousel_controller.dfy`) holds the class `Carousel`:
  - its fields are the track element's attributes (`percentage`,
    `mouseDownAt`, `prevPercentage`), the hover flag `isOverTrack`, the
    pending wheel-snap timer `snapPending`, and the log `transitions` of
    track updates;
  - one method per handler updates these fields in place, step by step, as
    the script does;
  - every method is specified by the matching function of `CarouselModel`
    (`Model() == F(old(Model()))`), and the properties are proved about those
    functions.

How the browser's parts are represented:

- **Track update.** `setTrack` assigns the offset and appends
  `Transition(target, duration)` to `transitions`. Its default duration of
  1200 is kept as a default parameter that no call site uses. The invariant
  `Rendered` says the recorded offset is always the target of the last
  transition.
- **Snap timer.** The wheel's `clearTimeout`/`setTimeout` pair becomes
  `snapPending := true`. The firing of the timer is an explicit event,
  `SnapTimerFires` (method `FireSnap`).
- **Browser inputs.** Cancelling the browser default comes back as the
  boolean `preventDefault` of the wheel and key handlers. The viewport width
  is a parameter of type `Width` (a positive real).
- **Wheel deltas.** They are `Option<real>`, where `None` stands for NaN or
  undefined. With JavaScript's comparison rules, `|NaN| > x` is false, so
  `dominantDelta` returns `deltaY` whenever either component is unusable. The
  wheel handler therefore ignores an event exactly when `deltaY` is unusable,
  and `DominantDelta` states this.
- **Drag anchor sentinel.** The anchor stays a plain number, and 0 means
  "not dragging". So a press at `clientX == 0` does not start a drag, as in
  the script, where the attribute string `"0"` is compared.

The drag baseline `prevPercentage` is captured at release, before the snap,
and never at press (JS/scripts.js:45, 49). So a drag move ignores any change
the wheel or the keys made since the last release (`MoveIgnoresCurrent`), and
a drag released past a limit leaves a baseline outside the limits, from which
the next drag starts.

## Model

| member | source | states |
|---|---|---|
| `CarouselModel.Clamp` | JS/scripts.js:6 | with lo <= hi the result lies in [lo, hi] and is v itself when v is already in range; with inverted bounds the lower bound wins |
| `CarouselModel.ClampIsNearest` | JS/scripts.js:6 | the clamped value is at least as close to v as any point of [lo, hi] |
| `CarouselModel.ClampIdempotent` | JS/scripts.js:6 | clamping twice gives the same as clamping once |
| `CarouselModel.DominantDelta` | JS/scripts.js:7-8 | the result is one of the two deltas, has the larger magnitude of the two, a tie goes to deltaY, and it is unusable exactly when deltaY is |
| `CarouselModel.PctDeltaAntitone` | JS/scripts.js:56-58 | a larger pixel delta never gives a larger offset change (the sign is inverted, the scale is positive) |
| `CarouselModel.Damp` | JS/scripts.js:63-66 | inside the limits the wanted offset passes through; outside, the damped offset is on the same side of the limits and its distance to the nearest limit is ELASTICITY times the wanted one's |
| `CarouselModel.DampStrictlyReducesOvershoot` | JS/scripts.js:64-66 | past MAX the damped offset lies strictly between MAX and the wanted offset, past MIN strictly between the wanted offset and MIN; it is in bounds exactly when the wanted offset is |
| `CarouselModel.DampMonotone` | JS/scripts.js:100-102 | damping preserves order |
| `CarouselModel.DampBelowMinExample` | JS/scripts.js:102 | a wanted offset of -80 is damped to -76.75 |
| `CarouselModel.Init` | JS/scripts.js:35-40 | each of the three attributes is kept when present and becomes 0 when absent, so an absent anchor means not dragging; no hover, no pending snap, nothing animated |
| `CarouselModel.SetTrack` | JS/scripts.js:10-11 | the offset becomes the new value, exactly one transition with that duration is appended, and nothing else changes |
| `CarouselModel.SnapToBounds` | JS/scripts.js:26-30 | afterwards the offset is within EPS of the limits; the state changes exactly when the clamped offset is more than EPS away, and then it is the clamped offset written with the settle duration |
| `CarouselModel.SnapToBoundsIdempotent` | JS/scripts.js:26-30 | snapping a second time with no input in between changes nothing |
| `CarouselModel.PointerEnter` | JS/scripts.js:41 | sets the hover flag and nothing else |
| `CarouselModel.PointerLeave` | JS/scripts.js:42 | clears the hover flag and nothing else |
| `CarouselModel.HandleOnDown` | JS/scripts.js:45 | records the anchor and nothing else; the result counts as dragging exactly when the anchor is not 0 |
| `CarouselModel.HandleOnUp` | JS/scripts.js:47-51 | ends the drag, makes the pre-snap offset the baseline and is otherwise exactly `SnapToBounds` of the old state (EPS threshold, settle duration), so it leaves the offset within EPS of the limits and inside them whenever it moved; an in-bounds offset is left as it was |
| `CarouselModel.HandleOnMove` | JS/scripts.js:53-69 | no change unless dragging; otherwise exactly one drag-duration transition to the damped value of baseline plus the normalised pointer travel, equal to that value when it is in bounds |
| `CarouselModel.MoveIgnoresCurrent` | JS/scripts.js:60-61 | a drag move's result does not depend on the current offset, only on the baseline and the anchor |
| `CarouselModel.MoveFollowsPointer` | JS/scripts.js:56-68 | moving the pointer further right never leaves the strip further left |
| `CarouselModel.DragExample` | JS/scripts.js:53-69 | from baseline 0, anchor 500, pointer 300, width 1000, the offset becomes -40 |
| `CarouselModel.OnWheel` | JS/scripts.js:84-110 | off the track or with an unusable deltaY nothing changes and nothing is prevented; otherwise a snap is pending, the default is prevented exactly when the wanted offset is in bounds (which is then applied), and outside the damped offset is written exactly when it is more than EPS from the current one |
| `CarouselModel.WheelExample` | JS/scripts.js:84-110 | from -70, a wheel step of -10 percent gives -76.75 without preventing the page scroll, with a snap pending |
| `CarouselModel.WheelOffTrackExample` | JS/scripts.js:85 | with the pointer off the track any wheel event leaves the state unchanged and is not prevented |
| `CarouselModel.OnKeyDown` | JS/scripts.js:115-125 | the default is prevented exactly for ArrowRight, Space and ArrowLeft over the track, and then the offset is in bounds (right/space: clamp of offset - 6, left: clamp of offset + 6); every other case changes nothing; from in bounds a press moves at most one step, in the key's direction |
| `CarouselModel.KeyExample` | JS/scripts.js:118-120 | from -3, ArrowRight gives -9 |
| `CarouselModel.FireSnap` | JS/scripts.js:108-109 | when a snap is pending it runs the snap and clears the timer, leaving the offset within EPS of the limits; with no pending snap nothing happens |
| `CarouselModel.ReleaseSettles` | JS/scripts.js:47-51 | after any sequence of events ending with a release, the offset is within EPS of the limits and no drag is in progress |
| `CarouselModel.RunKeepsRendered` | JS/scripts.js:10-11 | over any sequence of events, the recorded offset stays the target of the last transition |
| `CarouselModel.PendingUntilFired` | JS/scripts.js:108-109 | a pending snap stays pending through any events other than the timer firing |
| `CarouselModel.WheelIdleSettles` | JS/scripts.js:84-110 | a handled wheel event followed by any input other than the timer, then the idle timeout, leaves the offset within EPS of the limits and no snap pending |
| `CarouselModel.KeysNeverOvershoot` | JS/scripts.js:115-125 | from an in-bounds offset, any number of key presses, hover changes, presses, releases and timer firings keeps the offset in bounds |
| `CarouselModel.WheelOvershootBounded` | JS/scripts.js:96-106 | with no drag moves and wheel steps of at most `bound` percent, an offset within 7/13 of `bound` past the limits stays so: repeated elastic flicks converge instead of creeping outwards |
| `CarouselController.Carousel.constructor` | JS/scripts.js:35-40 | the fields are the start-up state `Init` of the given attributes |
| `CarouselController.Carousel.PointerEnter` | JS/scripts.js:41 | sets the hover flag as `PointerEnter` does |
| `CarouselController.Carousel.PointerLeave` | JS/scripts.js:42 | clears the hover flag as `PointerLeave` does |
| `CarouselController.Carousel.SetTrack` | JS/scripts.js:10-11 | assigns the offset and appends the transition, as `SetTrack` does |
| `CarouselController.Carousel.SnapToBounds` | JS/scripts.js:26-30 | performs `SnapToBounds` in place; the offset ends within EPS of the limits |
| `CarouselController.Carousel.HandleOnDown` | JS/scripts.js:45 | performs `HandleOnDown` in place |
| `CarouselController.Carousel.HandleOnUp` | JS/scripts.js:47-51 | performs `HandleOnUp` in place: anchor reset, baseline is the old offset, offset within EPS of the limits |
| `CarouselController.Carousel.HandleOnMove` | JS/scripts.js:53-69 | performs `HandleOnMove` in place |
| `CarouselController.Carousel.OnWheel` | JS/scripts.js:84-110 | performs `OnWheel` in place and returns its preventDefault decision |
| `CarouselController.Carousel.FireSnap` | JS/scripts.js:109 | performs `FireSnap` in place; no snap is pending afterwards |
| `CarouselController.Carousel.OnKeyDown` | JS/scripts.js:115-125 | performs `OnKeyDown` in place; when the default is prevented the offset is in bounds |
| `CarouselController.DragThenKey` | JS/scripts.js:45-69 | press at 500, move to 300 on a 1000-wide viewport, release, enter the track and press ArrowRight: the offset ends at -46 |

## Left out

- The animations themselves (JS/scripts.js:13-23) are rendering-engine side effects: the strip's `transform`, each image's `objectPosition`, the easing, `fill`, and the loop over the `.image` children. Only the target offset and the duration of each update are recorded.
- Event-listener registration and the mapping of touch events to their first contact point (JS/scripts.js:41-42, 72-77, 113) are browser plumbing. Each handler is a method taking plain numbers, and `Run` applies events in the order they are delivered.
- Timer real time (JS/scripts.js:108-109): the 140 ms delay is the constant `WHEEL_IDLE` and is not enforced. The timer firing is an explicit event that runs only while a snap is pending.
- IEEE-754 arithmetic: offsets are exact reals, so rounding, NaN propagation and infinities are not modelled. NaN or undefined wheel deltas are `None`.
- A viewport of width 0: the script would divide by zero and yield infinities or NaN. The model's width is positive.
- String-typed attribute storage and `parseFloat` (JS/scripts.js:11, 27, 35-37) are replaced by typed fields. A present but unparsable attribute, which the script would read as NaN, is not modelled.
- The `window.innerWidth` lookup is replaced by the width parameter.
