/**
  Concrete runs of the control loop of app/app.py, worked out by the verifier.
  Timestamps count polling intervals from 0.
 */
module Scenarios {
  import opened Wrappers
  import opened Presence
  import opened Plug
  import opened Debounce
  import opened Trace
  import opened Daemon

  /** The five cycles of reachability (F,F), (T,F), (F,F), (F,F), (F,F) of two hosts A and B. */
  function TwoHostsTicks(): (ticks: seq<Tick>) {
    [ Tick([[false], [false]], 0), Tick([[true], [false]], 1), Tick([[false], [false]], 2),
      Tick([[false], [false]], 3), Tick([[false], [false]], 4) ]
  }

  /** Presence in those cycles is absent, present, then absent three times. */
  lemma TwoHostsObserved()
    ensures Observe(TwoHostsTicks()) ==
      [Input(false, 0), Input(true, 1), Input(false, 2), Input(false, 3), Input(false, 4)]
  {
    assert !IsOnline([false]) by { assert !([false][0]); }
    assert !AnyOnline([[false], [false]]);
    assert AnyOnline([[true], [false]]) by { assert IsOnline([[true], [false]][0]); }
  }

  /** The first three cycles of that run, with an offline delay of two intervals. */
  lemma TwoHostsFirstCycles()
    ensures Final([Input(false, 0), Input(true, 1), Input(false, 2)], 2) == State(false, Some(1))
    ensures Commands([Input(false, 0), Input(true, 1), Input(false, 2)], 2) == [NoOp, Switch(TurnOn), NoOp]
  {
    var p1 := [Input(false, 0)];
    var p2 := p1 + [Input(true, 1)];
    var p3 := p2 + [Input(false, 2)];
    assert Final(p1, 2) == State(false, None) && Commands(p1, 2) == [NoOp] by {
      assert [] + [Input(false, 0)] == p1;
      Extend([], Input(false, 0), 2);
    }
    assert Final(p2, 2) == State(true, Some(1)) && Commands(p2, 2) == [NoOp, Switch(TurnOn)] by {
      Extend(p1, Input(true, 1), 2);
    }
    assert Final(p3, 2) == State(false, Some(1)) && Commands(p3, 2) == [NoOp, Switch(TurnOn), NoOp] by {
      Extend(p2, Input(false, 2), 2);
    }
    assert p3 == [Input(false, 0), Input(true, 1), Input(false, 2)];
  }

  /**
    With idealised clock readings exactly one interval apart (0 to 4) and an offline delay
    of two intervals, the plug is turned on in the second cycle. The fourth cycle's reading
    equals the deadline exactly, so under the strict test it is still in grace, and the
    turn-off comes in the fifth. With real readings, which drift later by the time spent
    pinging, the fourth cycle would usually be past the deadline already.
   */
  lemma TwoHostsDelayScenario()
    ensures Commands(Observe(TwoHostsTicks()), 2) == [NoOp, Switch(TurnOn), NoOp, NoOp, Switch(TurnOff)]
  {
    TwoHostsObserved();
    TwoHostsFirstCycles();
    var p3 := [Input(false, 0), Input(true, 1), Input(false, 2)];
    var p4 := p3 + [Input(false, 3)];
    var p5 := p4 + [Input(false, 4)];
    assert Final(p4, 2) == State(false, Some(1)) && Commands(p4, 2) == [NoOp, Switch(TurnOn), NoOp, NoOp] by {
      Extend(p3, Input(false, 3), 2);
    }
    assert Commands(p5, 2) == [NoOp, Switch(TurnOn), NoOp, NoOp, Switch(TurnOff)] by {
      Extend(p4, Input(false, 4), 2);
    }
    assert p5 == [Input(false, 0), Input(true, 1), Input(false, 2), Input(false, 3), Input(false, 4)];
  }

  /**
    Presence true, false, true within the offline delay: no turn-off at all, but the
    second rising edge issues a second turn-on (the plug is already on).
   */
  lemma ShortDipScenario()
    ensures Commands([Input(true, 0), Input(false, 1), Input(true, 2)], 5) ==
      [Switch(TurnOn), NoOp, Switch(TurnOn)]
  {
    var p1 := [Input(true, 0)];
    var p2 := p1 + [Input(false, 1)];
    var p3 := p2 + [Input(true, 2)];
    assert Final(p1, 5) == State(true, Some(0)) && Commands(p1, 5) == [Switch(TurnOn)] by {
      assert [] + [Input(true, 0)] == p1;
      Extend([], Input(true, 0), 5);
    }
    assert Final(p2, 5) == State(false, Some(0)) && Commands(p2, 5) == [Switch(TurnOn), NoOp] by {
      Extend(p1, Input(false, 1), 5);
    }
    assert Commands(p3, 5) == [Switch(TurnOn), NoOp, Switch(TurnOn)] by {
      Extend(p2, Input(true, 2), 5);
    }
    assert p3 == [Input(true, 0), Input(false, 1), Input(true, 2)];
  }
}
