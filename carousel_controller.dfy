/** The controller as the page runs it: one object whose fields are the track
    element's attributes, the hover flag and the wheel snap timer, updated in
    place by one method per event handler. Each method is specified by the
    matching transition of CarouselModel, where its properties are proved. */
module CarouselController {
  import opened CarouselModel

  class Carousel {
    var percentage: real
    var mouseDownAt: real
    var prevPercentage: real
    var isOverTrack: bool
    var snapPending: bool
    // Every track update issued, oldest first.
    var transitions: seq<Transition>

    /** The controller's state as a value. */
    function Model(): State
      reads this
    {
      State(percentage, mouseDownAt, prevPercentage, isOverTrack, snapPending, transitions)
    }

    ghost predicate Valid()
      reads this
    {
      Rendered(Model())
    }

    /** Start-up: attributes already on the element are kept, absent ones are
        set to 0. */
    constructor (initMouseDownAt: Option<real>, initPrevPercentage: Option<real>,
                 initPercentage: Option<real>)
      ensures Valid()
      ensures Model() == Init(initMouseDownAt, initPrevPercentage, initPercentage)
    {
      mouseDownAt := OrZero(initMouseDownAt);
      prevPercentage := OrZero(initPrevPercentage);
      percentage := OrZero(initPercentage);
      isOverTrack := false;
      snapPending := false;
      transitions := [];
    }

    method PointerEnter()
      requires Valid()
      modifies this
      ensures Valid()
      ensures Model() == CarouselModel.PointerEnter(old(Model()))
    {
      isOverTrack := true;
    }

    method PointerLeave()
      requires Valid()
      modifies this
      ensures Valid()
      ensures Model() == CarouselModel.PointerLeave(old(Model()))
    {
      isOverTrack := false;
    }

    /** Record the new offset and start the transition to it. */
    method SetTrack(nextPct: real, dur: nat := DEFAULT_DURATION)
      modifies this`percentage, this`transitions
      ensures Valid()
      ensures Model() == CarouselModel.SetTrack(old(Model()), nextPct, dur)
    {
      percentage := nextPct;
      transitions := transitions + [Transition(nextPct, dur)];
    }

    method SnapToBounds()
      requires Valid()
      modifies this`percentage, this`transitions
      ensures Valid()
      ensures Model() == CarouselModel.SnapToBounds(old(Model()))
      ensures NearBounds(percentage)
    {
      var cur := percentage;
      var snapped := Clamp(cur, MIN, MAX);
      if Abs(snapped - cur) > EPS {
        SetTrack(snapped, SETTLE_DURATION);
      }
    }

    method HandleOnDown(clientX: real)
      requires Valid()
      modifies this
      ensures Valid()
      ensures Model() == CarouselModel.HandleOnDown(old(Model()), clientX)
    {
      mouseDownAt := clientX;
    }

    method HandleOnUp()
      requires Valid()
      modifies this
      ensures Valid()
      ensures Model() == CarouselModel.HandleOnUp(old(Model()))
      ensures mouseDownAt == NOT_DRAGGING && prevPercentage == old(percentage)
      ensures NearBounds(percentage)
    {
      mouseDownAt := NOT_DRAGGING;
      prevPercentage := percentage;
      SnapToBounds();
    }

    method HandleOnMove(clientX: real, innerWidth: Width)
      requires Valid()
      modifies this
      ensures Valid()
      ensures Model() == CarouselModel.HandleOnMove(old(Model()), clientX, innerWidth)
    {
      if mouseDownAt == NOT_DRAGGING {
        return;
      }
      var mouseDelta := mouseDownAt - clientX;
      var maxDelta := innerWidth / 2.0;
      var pctDelta := (mouseDelta / maxDelta) * -100.0;
      var current := prevPercentage;
      var wanted := current + pctDelta;
      var target := wanted;
      if wanted > MAX {
        target := MAX + (wanted - MAX) * ELASTICITY;
      }
      if wanted < MIN {
        target := MIN + (wanted - MIN) * ELASTICITY;
      }
      SetTrack(target, DRAG_DURATION);
    }

    /** The timer is modelled by snapPending: clearing the old timeout and
        starting a new one leaves exactly one snap pending. */
    method OnWheel(deltaX: Option<real>, deltaY: Option<real>, innerWidth: Width)
      returns (preventDefault: bool)
      requires Valid()
      modifies this
      ensures Valid()
      ensures Handled(Model(), preventDefault) ==
              CarouselModel.OnWheel(old(Model()), deltaX, deltaY, innerWidth)
    {
      ghost var s0 := Model();
      preventDefault := false;
      if !isOverTrack {
        return;
      }
      var delta := DominantDelta(deltaX, deltaY);
      if delta.None? {
        return;
      }
      var maxDelta := innerWidth / 2.0;
      var pctDelta := (delta.value / maxDelta) * -100.0;
      assert pctDelta == PctDelta(delta.value, innerWidth);
      var current := percentage;
      var wanted := current + pctDelta;
      if wanted <= MAX && wanted >= MIN {
        preventDefault := true;
        SetTrack(wanted, WHEEL_DURATION);
        snapPending := true;
        assert Model() == CarouselModel.SetTrack(s0, wanted, WHEEL_DURATION).(snapPending := true);
      } else {
        var target := wanted;
        if wanted > MAX {
          target := MAX + (wanted - MAX) * ELASTICITY;
        }
        if wanted < MIN {
          target := MIN + (wanted - MIN) * ELASTICITY;
        }
        assert target == Damp(wanted);
        var moved := Abs(target - current) > EPS;
        if moved {
          SetTrack(target, WHEEL_ELASTIC_DURATION);
        }
        snapPending := true;
        assert Model() == (if moved then CarouselModel.SetTrack(s0, target, WHEEL_ELASTIC_DURATION) else s0).(snapPending := true);
      }
    }

    /** The wheel snap timer runs out. */
    method FireSnap()
      requires Valid()
      modifies this
      ensures Valid()
      ensures Model() == CarouselModel.FireSnap(old(Model()))
      ensures !snapPending
    {
      if snapPending {
        snapPending := false;
        SnapToBounds();
      }
    }

    method OnKeyDown(key: string) returns (preventDefault: bool)
      requires Valid()
      modifies this
      ensures Valid()
      ensures Handled(Model(), preventDefault) == CarouselModel.OnKeyDown(old(Model()), key)
      ensures preventDefault ==> InBounds(percentage)
    {
      preventDefault := false;
      if !isOverTrack {
        return;
      }
      var step := KEY_STEP;
      if key == "ArrowRight" || key == " " {
        preventDefault := true;
        SetTrack(Clamp(percentage - step, MIN, MAX), KEY_DURATION);
      } else if key == "ArrowLeft" {
        preventDefault := true;
        SetTrack(Clamp(percentage + step, MIN, MAX), KEY_DURATION);
      }
    }
  }

  /** A client: the drag from the worked example, then a key press. */
  method DragThenKey() returns (offset: real)
    ensures offset == -46.0
  {
    var c := new Carousel(None, None, None);
    c.HandleOnDown(500.0);
    c.HandleOnMove(300.0, 1000.0);
    DragExample();
    c.HandleOnUp();
    c.PointerEnter();
    var prevented := c.OnKeyDown("ArrowRight");
    offset := c.percentage;
  }
}
