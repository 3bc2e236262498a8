/**
  One cycle of the control loop of `TapoController.run` (app/app.py): the
  presence-to-power debounce step. Timestamps and the offline delay are whole ticks.
 */
module Debounce {
  import opened Wrappers
  import opened Plug

  /** What one cycle asks of the plug: nothing, or one call of a power method. */
  datatype Command = NoOp | Switch(plugMethod: Method)

  /**
    The two local variables that `run` carries from cycle to cycle:
    `any_ips_online` (the previous cycle's presence) and `latest_online_time`.
   */
  datatype State = State(anyIpsOnline: bool, latestOnlineTime: Option<nat>)

  /** One cycle's observations: `any_ips_online_now` and `now`. */
  datatype Input = Input(presence: bool, now: nat)

  datatype Outcome = Outcome(state: State, command: Command)

  /** The values `run` starts with: no presence seen, no online time. */
  const Initial: State := State(false, None)

  /** The strict turn-off test `latest_online_time + offline_delay_interval < now`. */
  predicate OfflineTooLong(latest: Option<nat>, offlineDelay: nat, now: nat) {
    latest.Some? && latest.value + offlineDelay < now
  }

  /**
    The loop body: refresh the online time while present, otherwise turn off once the
    delay has passed; independently turn on at a false-to-true edge of presence.
   */
  function Step(s: State, input: Input, offlineDelay: nat): (o: Outcome)
    ensures o.command == Switch(TurnOn) <==> !s.anyIpsOnline && input.presence
    ensures o.command == Switch(TurnOff) <==>
      !input.presence && OfflineTooLong(s.latestOnlineTime, offlineDelay, input.now)
    ensures o.state.anyIpsOnline == input.presence
    ensures input.presence ==> o.state.latestOnlineTime == Some(input.now)
  {
    var turnOff := !input.presence && OfflineTooLong(s.latestOnlineTime, offlineDelay, input.now);
    var turnOn := !s.anyIpsOnline && input.presence;
    var latest :=
      if input.presence then Some(input.now)
      else if turnOff then None
      else s.latestOnlineTime;
    var command :=
      if turnOff then Switch(TurnOff)
      else if turnOn then Switch(TurnOn)
      else NoOp;
    Outcome(State(input.presence, latest), command)
  }

  /** A cycle issues nothing exactly when neither the turn-on nor the turn-off condition holds. */
  lemma NoOpIff(s: State, input: Input, offlineDelay: nat)
    ensures Step(s, input, offlineDelay).command == NoOp <==>
      !(!s.anyIpsOnline && input.presence) &&
      !(!input.presence && OfflineTooLong(s.latestOnlineTime, offlineDelay, input.now))
  {
  }

  /** While presence is seen the online time is refreshed and no turn-off is issued. */
  lemma PresenceRefreshes(s: State, input: Input, offlineDelay: nat)
    requires input.presence
    ensures Step(s, input, offlineDelay).state == State(true, Some(input.now))
    ensures Step(s, input, offlineDelay).command != Switch(TurnOff)
  {
  }

  /**
    Grace: while absent and not strictly past the delay, including the cycle whose time
    equals the deadline exactly, nothing is issued and the online time is kept.
   */
  lemma GraceHolds(s: State, input: Input, offlineDelay: nat, t: nat)
    requires !input.presence && s.latestOnlineTime == Some(t)
    requires input.now <= t + offlineDelay
    ensures Step(s, input, offlineDelay) == Outcome(State(false, Some(t)), NoOp)
  {
  }

  /** A turn-off clears the online time, and with no online time no turn-off can follow. */
  lemma TurnOffClears(s: State, input: Input, offlineDelay: nat)
    ensures Step(s, input, offlineDelay).command == Switch(TurnOff) ==>
      Step(s, input, offlineDelay).state == State(false, None)
    ensures s.latestOnlineTime == None && !input.presence ==>
      Step(s, input, offlineDelay) == Outcome(State(false, None), NoOp)
  {
  }
}
