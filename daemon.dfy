/**
  The control loop of `TapoController.run` (app/app.py) over a finite prefix of its
  cycles. Each cycle's ping results and clock reading are given as a `Tick`; the
  loop keeps the debounce state in two local variables, as the source does.
 */
module Daemon {
  import opened Wrappers
  import opened Presence
  import opened Plug
  import opened Debounce
  import opened Trace

  /** What one cycle observes: every configured host's ping result, and `datetime.now()`. */
  datatype Tick = Tick(pings: seq<PingResult>, now: nat)

  /**
    The debounce input of each cycle: its time, and presence exactly when some host's
    ping result has no failed line.
   */
  function Observe(ticks: seq<Tick>): (inputs: seq<Input>)
    ensures |inputs| == |ticks|
    ensures forall i :: 0 <= i < |ticks| ==> inputs[i].now == ticks[i].now
    ensures forall i :: 0 <= i < |ticks| ==>
      (inputs[i].presence <==> exists h :: 0 <= h < |ticks[i].pings| && false !in ticks[i].pings[h])
  {
    var inputs := seq(|ticks|, i requires 0 <= i < |ticks| => Input(AnyOnline(ticks[i].pings), ticks[i].now));
    assert forall i :: 0 <= i < |ticks| ==>
      (inputs[i].presence <==> exists h :: 0 <= h < |ticks[i].pings| && false !in ticks[i].pings[h]) by {
      forall i | 0 <= i < |ticks| {
        AnyOnlineByLines(ticks[i].pings);
      }
    }
    inputs
  }

  /** Some host answers at tick `i`, and none did at the tick before it (if any). */
  predicate PresenceRises(ticks: seq<Tick>, i: nat)
    requires i < |ticks|
  {
    AnyOnline(ticks[i].pings) && (i == 0 || !AnyOnline(ticks[i - 1].pings))
  }

  /** Turn-on is issued exactly at the ticks where presence rises. */
  lemma TurnOnWherePresenceRises(ticks: seq<Tick>, offlineDelay: nat)
    ensures forall i :: 0 <= i < |ticks| ==>
      (Commands(Observe(ticks), offlineDelay)[i] == Switch(TurnOn) <==> PresenceRises(ticks, i))
  {
    forall i | 0 <= i < |ticks|
      ensures Commands(Observe(ticks), offlineDelay)[i] == Switch(TurnOn) <==> PresenceRises(ticks, i)
    {
      TurnOnAt(Observe(ticks), offlineDelay, i);
    }
  }

  /**
    The body of the `while True` loop once the cycle's presence and time are known:
    it updates the two state variables as the source does, and returns the plug methods
    it calls through `_change_plug_status`, in order, and the cycle's command.
   */
  method Cycle(anyIpsOnline: bool, latestOnlineTime: Option<nat>, anyIpsOnlineNow: bool, now: nat, offlineDelay: nat)
    returns (anyIpsOnline': bool, latestOnlineTime': Option<nat>, calls: seq<Method>, command: Command)
    ensures Outcome(State(anyIpsOnline', latestOnlineTime'), command) ==
      Step(State(anyIpsOnline, latestOnlineTime), Input(anyIpsOnlineNow, now), offlineDelay)
    ensures |calls| <= 1
    ensures calls == [] <==> command == NoOp
    ensures forall m :: command == Switch(m) ==> calls == [m]
  {
    latestOnlineTime' := latestOnlineTime;
    calls := [];
    if anyIpsOnlineNow {
      latestOnlineTime' := Some(now);
    } else if latestOnlineTime'.Some? && latestOnlineTime'.value + offlineDelay < now {
      calls := calls + [ChangePlugStatus(false)];
      latestOnlineTime' := None;
    }
    if !anyIpsOnline && anyIpsOnlineNow {
      calls := calls + [ChangePlugStatus(true)];
    }
    anyIpsOnline' := anyIpsOnlineNow;
    command := if calls == [] then NoOp else Switch(calls[0]);
  }

  /**
    Runs the loop once per tick and returns each cycle's command. The commands are those
    of the debounce step folded from the initial state; in particular a turn-on is issued
    exactly at the first cycle of each run of presence.
   */
  method Run(offlineDelay: nat, ticks: seq<Tick>) returns (commands: seq<Command>)
    ensures commands == Commands(Observe(ticks), offlineDelay)
    ensures forall i :: 0 <= i < |ticks| ==>
      (commands[i] == Switch(TurnOn) <==> PresenceRises(ticks, i))
  {
    ghost var inputs := Observe(ticks);
    assert inputs[..0] == [];
    var anyIpsOnline := false;
    var latestOnlineTime: Option<nat> := None;
    commands := [];
    var n := 0;
    while n < |ticks|
      invariant 0 <= n <= |ticks|
      invariant State(anyIpsOnline, latestOnlineTime) == Final(inputs[..n], offlineDelay)
      invariant commands == Commands(inputs[..n], offlineDelay)
    {
      var anyIpsOnlineNow := AnyOnline(ticks[n].pings);
      var now := ticks[n].now;
      var calls, command;
      anyIpsOnline, latestOnlineTime, calls, command :=
        Cycle(anyIpsOnline, latestOnlineTime, anyIpsOnlineNow, now, offlineDelay);
      commands := commands + [command];
      assert inputs[..n + 1] == inputs[..n] + [inputs[n]];
      Extend(inputs[..n], inputs[n], offlineDelay);
      n := n + 1;
    }
    assert inputs[..n] == inputs;
    TurnOnWherePresenceRises(ticks, offlineDelay);
  }
}
