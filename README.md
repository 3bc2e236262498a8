# tapo-controller: verified model of the presence-to-power controller

tapo-controller is a small daemon (app/app.py). On every polling cycle it pings a list of
hosts. If any host answers it keeps a Tapo smart plug on. Once no host has answered for
longer than `offline_delay_interval`, it turns the plug off. This project models the
daemon's decision logic in Dafny and proves the properties the controller promises:

- **Presence aggregation** (`presence.dfy`, module `Presence`). `_is_online` is an `all`
  over the lines of one host's ping result. `_any_online` is an `any` over the configured
  hosts. Each ping result is given as the sequence of its lines' success flags.
- **Plug command mapping** (`plug.dfy`, module `Plug`). `_change_plug_status` builds the
  method name `'turn' + 'on'/'off'.capitalize()` and looks it up on the plug object.
- **Debounce step** (`debounce.dfy`, module `Debounce`). One iteration of the `while True`
  loop of `run` is a function `Step(state, input, offlineDelay)`. The state is the pair
  (`any_ips_online`, `latest_online_time`). The input is the cycle's presence and clock
  reading. The step gives the new state and one command: `NoOp`, `Switch(TurnOn)` or
  `Switch(TurnOff)`.
- **Folding the step over cycles** (`trace.dfy`, module `Trace`). `Final` and `Commands`
  fold `Step` over a finite sequence of cycles, starting from `(False, None)`. The lemmas
  in this module prove edge-triggered turn-on, delayed turn-off, one turn-off per absence,
  and no flapping.
- **The loop itself** (`daemon.dfy`, module `Daemon`). `Run` is an imperative method. It
  keeps the two state variables in locals, as `run` does. It runs the loop body once per
  given tick and is proved to produce exactly the folded commands.
- **Worked runs** (`scenarios.dfy`, module `Scenarios`). Two concrete inputs and the
  commands they produce.
- `wrappers.dfy` holds the `Option` type used for `latest_online_time`.

Timestamps and the offline delay are natural numbers (ticks). This replaces `datetime` and
`timedelta`.

Three behaviours of the code are easy to misread, and the model keeps each one as written:

- **Strict turn-off test.** The code turns off only when
  `latest_online_time + offline_delay_interval < now`, which matches the comment at
  app/app.py:132 ("for period longer than"). A cycle whose reading equals the deadline exactly
  is still in grace. This is the only case where a non-strict `>=` test would differ. In the
  running daemon such a cycle practically never occurs. Each clock reading comes after that
  cycle's pings (app/app.py:125-126), and an unreachable host costs up to its one-second
  timeout (app/app.py:69). The sleep follows the decision (app/app.py:140). So readings drift
  later than one interval apart. `Scenarios.TwoHostsDelayScenario` uses idealised readings
  exactly one interval apart (0 to 4) with a delay of two intervals. There, the reading of the
  fourth cycle equals the deadline, so the turn-off comes in the fifth cycle.
- **Turn-on on every rising edge.** The code turns on at every false-to-true transition of
  presence. A dip shorter than the delay therefore still gives a second `TurnOn` when
  presence comes back, although the plug is already on. See `Trace.NoFlap` and
  `Scenarios.ShortDipScenario`.
- **Short-circuiting `any`.** Python's `any` over a generator stops at the first host that
  is online, so later hosts are not pinged. See `Presence.ProbedHosts`.

Helpers without their own row, and the rows they serve:

- `Plug.StatusString` (app/app.py:106-107), `Plug.Upper`, `Plug.Lower`, `Plug.Capitalize`,
  `Plug.MethodName` (app/app.py:109) and `Plug.Lookup` (the `getattr` at app/app.py:109)
  serve `Plug.MethodNames` and `Plug.ChangePlugStatus`.
- `Debounce.OfflineTooLong` (the test at app/app.py:131) serves `Debounce.Step`,
  `Debounce.NoOpIff` and the `Trace` lemmas.
- `Trace.Final` is the state of the two loop variables after a run of cycles
  (app/app.py:117-139). It serves `Trace.FinalInvariant`, `Trace.CommandAt` and `Daemon.Run`.
- `Trace.RisingEdge` and `Daemon.PresenceRises` serve `Trace.TurnOnAt` and `Daemon.Run`.

## Model

| member | source | states |
|---|---|---|
| Presence.IsOnline | app/app.py:69-73 | a host is online iff every ping result line succeeded; an empty result counts as online |
| Presence.AnyOnline | app/app.py:82 | presence is true iff some configured host is online; no hosts means no presence |
| Presence.AnyOnlineByLines | app/app.py:70-82 | presence is true iff some host's ping result has no failed line |
| Presence.ProbedHosts | app/app.py:82 | `any` pings hosts in order and stops at the first online host; if none is online, it pings them all |
| Presence.ProbedHostsDecide | app/app.py:82 | the hosts actually pinged give the same presence as the whole list |
| Plug.MethodNames | app/app.py:106-109 | the built method names are exactly "turnOn" for True and "turnOff" for False |
| Plug.ChangePlugStatus | app/app.py:106-111 | the lookup by name always finds a method; True selects turnOn, False selects turnOff |
| Debounce.Step | app/app.py:128-139 | turn-on iff the previous presence is false and the current one is true; turn-off iff absent now and a stored online time plus the delay is strictly before now; the stored presence becomes the current one; when present, the online time becomes now |
| Debounce.NoOpIff | app/app.py:128-137 | a cycle issues NoOp exactly when neither the turn-on nor the turn-off condition holds |
| Debounce.PresenceRefreshes | app/app.py:128-130 | a present cycle stores (True, now) and never turns off |
| Debounce.GraceHolds | app/app.py:131 | absent and not strictly past the deadline, including exactly at it: no command, and the online time is kept |
| Debounce.TurnOffClears | app/app.py:131-134 | a turn-off clears the online time; with no online time, an absent cycle issues nothing |
| Trace.Commands | app/app.py:123-139 | each cycle yields exactly one command |
| Trace.Extend | app/app.py:123-139 | one more cycle appends that cycle's step to the final state and to the commands |
| Trace.CommandAt | app/app.py:123-139 | cycle i's command is the step taken from the state the first i cycles leave |
| Trace.FinalInvariant | app/app.py:117-139 | end-of-cycle invariant: the initial state before any cycle; afterwards the stored presence is the last input, and if that input was present the online time is its timestamp |
| Trace.PreviousPresence | app/app.py:136-139 | before cycle i the stored presence is cycle i-1's presence, false before the first |
| Trace.TurnOnAt | app/app.py:117-139 | cycle i turns on iff presence rises there: present, and either first or after an absent cycle |
| Trace.TurnOnAtRunStart | app/app.py:117-139 | over any input sequence, turn-on fires exactly on the first cycle of each maximal run of presence |
| Trace.PresentFromStartTurnsOnOnce | app/app.py:117-137 | if the first cycle is present, it turns on; if moreover every cycle is present, no later cycle issues a command |
| Trace.AbsentStaysInitial | app/app.py:117-134 | cycles that never see presence leave the initial state unchanged |
| Trace.NeverPresentNoCommands | app/app.py:117-137 | an input sequence with no presence produces no commands at all |
| Trace.ClearedUntilPresent | app/app.py:131-134 | after a turn-off, the online time stays None until a present cycle |
| Trace.OneTurnOffPerAbsence | app/app.py:128-134 | between any two turn-offs some cycle saw presence |
| Trace.GraceState | app/app.py:128-134 | after the last present cycle the online time is kept. It is cleared once an absent cycle is strictly past the deadline |
| Trace.DelayedTurnOff | app/app.py:128-134 | after the last present cycle, an absent cycle turns off iff it is the first one strictly past that cycle's time plus the delay |
| Trace.NoFlap | app/app.py:128-139 | a dip that never passes the deadline issues no turn-off; the next present cycle refreshes the online time; it turns on again iff the dip lasted at least one cycle |
| Daemon.Observe | app/app.py:70-82 | one input per tick, with the tick's time; the input is present iff some host's ping result has no failed line |
| Daemon.Cycle | app/app.py:128-139 | the imperative loop body updates the two state variables and picks the command exactly as the debounce step does. It returns the `_change_plug_status` calls it makes: at most one per cycle, none iff the command is NoOp, and exactly the command's method otherwise |
| Daemon.TurnOnWherePresenceRises | app/app.py:117-139 | a tick's command is turn-on iff some host answers at that tick and no host answered at the tick before it |
| Daemon.Run | app/app.py:117-139 | the imperative loop, starting from (False, None), issues exactly the folded commands, one per tick; it turns on exactly where presence rises |
| Scenarios.TwoHostsObserved | app/app.py:70-82 | the ping results (F,F), (T,F), (F,F), (F,F), (F,F) of two hosts give the presence sequence F, T, F, F, F |
| Scenarios.TwoHostsFirstCycles | app/app.py:117-139 | the first three cycles of that run give NoOp, TurnOn, NoOp and leave the state in grace with online time 1 |
| Scenarios.TwoHostsDelayScenario | app/app.py:117-139 | hosts A and B, reachability (F,F),(T,F),(F,F),(F,F),(F,F), delay 2: NoOp, TurnOn, NoOp, NoOp, TurnOff |
| Scenarios.ShortDipScenario | app/app.py:117-139 | presence T, F, T within the delay: TurnOn, NoOp, TurnOn, and no turn-off |

## Left out

- Configuration loading (`_load_config`, app/app.py:19-30): file I/O and YAML parsing. `check_ips` and `offline_delay_interval` become parameters.
- Logger creation and log-level validation (`_create_logger`, app/app.py:32-57), and the debug and info log lines: global logging configuration and output only.
- Connecting to the plug (`_connect_plug`, app/app.py:84-97) and what `turnOn`/`turnOff` do on the device: network and encryption inside the PyP100 library. PyP100 is not part of this model. The model records which method is called.
- `pythonping.ping` (app/app.py:69): network I/O. Each host's result is given as a sequence of success flags. An exception from ping is not modelled; it would escape the loop, since only `KeyboardInterrupt` is caught.
- `datetime.now()` and `time.sleep` (app/app.py:126, 140): each cycle's time is an input, and the sleep between cycles has no effect on the decision.
- Duration parsing (`isodate.parse_duration`, `total_seconds()`, app/app.py:120-121): durations are natural numbers of ticks, so negative or fractional delays are not modelled.
- The infinite `while True` loop and its exit on `KeyboardInterrupt` (app/app.py:123, 141-143, 151): `Run` models any finite prefix of the cycles.
- A plug call that raises (app/app.py:111): the `try` catches only `KeyboardInterrupt` (app/app.py:141), so the exception ends `run`. The updates that follow the call never happen: after a raising `turnOff`, neither `latest_online_time = None` (app/app.py:134) nor `any_ips_online = any_ips_online_now` (app/app.py:139) runs. After a raising `turnOn` (app/app.py:137), `latest_online_time = now` (app/app.py:130) has already run, and only line 139 is skipped. The model assumes every plug call returns.
- `Plug.Capitalize`: models `str.capitalize` for ASCII letters only, which covers the two strings "on" and "off" that reach it.
