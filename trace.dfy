/**
  The debounce step folded over a finite run of cycles, starting from the values
  `run` initialises (app/app.py). `Final(inputs)` is the state after all of
  `inputs`; `Commands(inputs)` is the command of each cycle, in order.
 */
module Trace {
  import opened Wrappers
  import opened Plug
  import opened Debounce

  function Final(inputs: seq<Input>, offlineDelay: nat): (s: State)
  {
    if inputs == [] then Initial
    else Step(Final(inputs[..|inputs| - 1], offlineDelay), inputs[|inputs| - 1], offlineDelay).state
  }

  function Commands(inputs: seq<Input>, offlineDelay: nat): (cs: seq<Command>)
    ensures |cs| == |inputs|
  {
    if inputs == [] then []
    else
      var prefix := inputs[..|inputs| - 1];
      Commands(prefix, offlineDelay) + [Step(Final(prefix, offlineDelay), inputs[|inputs| - 1], offlineDelay).command]
  }

  /** One more cycle appends that cycle's step to the fold. */
  lemma Extend(inputs: seq<Input>, input: Input, offlineDelay: nat)
    ensures Final(inputs + [input], offlineDelay) == Step(Final(inputs, offlineDelay), input, offlineDelay).state
    ensures Commands(inputs + [input], offlineDelay) ==
      Commands(inputs, offlineDelay) + [Step(Final(inputs, offlineDelay), input, offlineDelay).command]
  {
    assert (inputs + [input])[..|inputs|] == inputs;
  }

  /** Cycle `i`'s command is the step taken from the state the earlier cycles left. */
  lemma {:induction false} CommandAt(inputs: seq<Input>, offlineDelay: nat, i: nat)
    requires i < |inputs|
    ensures Commands(inputs, offlineDelay)[i] ==
      Step(Final(inputs[..i], offlineDelay), inputs[i], offlineDelay).command
  {
    var prefix := inputs[..|inputs| - 1];
    if i < |inputs| - 1 {
      CommandAt(prefix, offlineDelay, i);
      assert prefix[..i] == inputs[..i];
    } else {
      assert prefix == inputs[..i];
    }
  }

  /**
    End-of-cycle invariant: the stored presence is the last cycle's input, and if that
    was true the online time is that cycle's time.
   */
  lemma FinalInvariant(inputs: seq<Input>, offlineDelay: nat)
    ensures inputs == [] ==> Final(inputs, offlineDelay) == Initial
    ensures inputs != [] ==>
      var last := inputs[|inputs| - 1];
      && Final(inputs, offlineDelay).anyIpsOnline == last.presence
      && (last.presence ==> Final(inputs, offlineDelay).latestOnlineTime == Some(last.now))
  {
  }

  /** The state before cycle `i` remembers whether cycle `i - 1` saw presence. */
  lemma PreviousPresence(inputs: seq<Input>, offlineDelay: nat, i: nat)
    requires i <= |inputs|
    ensures Final(inputs[..i], offlineDelay).anyIpsOnline == (0 < i && inputs[i - 1].presence)
  {
    if 0 < i {
      assert inputs[..i][i - 1] == inputs[i - 1];
    }
  }

  /** Cycle `i` is the first of a maximal run of present cycles. */
  predicate RisingEdge(inputs: seq<Input>, i: nat)
    requires i < |inputs|
  {
    inputs[i].presence && (i == 0 || !inputs[i - 1].presence)
  }

  /** Edge trigger at one cycle: it turns the plug on exactly when presence rises there. */
  lemma TurnOnAt(inputs: seq<Input>, offlineDelay: nat, i: nat)
    requires i < |inputs|
    ensures Commands(inputs, offlineDelay)[i] == Switch(TurnOn) <==> RisingEdge(inputs, i)
  {
    CommandAt(inputs, offlineDelay, i);
    PreviousPresence(inputs, offlineDelay, i);
  }

  /**
    Edge trigger: a cycle turns the plug on exactly when it sees presence and the cycle
    before it (if any) did not, so once per maximal run of present cycles, on its first cycle.
   */
  lemma TurnOnAtRunStart(inputs: seq<Input>, offlineDelay: nat)
    ensures forall i :: 0 <= i < |inputs| ==>
      (Commands(inputs, offlineDelay)[i] == Switch(TurnOn) <==> RisingEdge(inputs, i))
  {
    forall i | 0 <= i < |inputs|
      ensures Commands(inputs, offlineDelay)[i] == Switch(TurnOn) <==> RisingEdge(inputs, i)
    {
      TurnOnAt(inputs, offlineDelay, i);
    }
  }

  /**
    A first cycle that sees presence turns the plug on (the stored presence starts false);
    if every cycle sees presence, that is the only command of the run.
   */
  lemma PresentFromStartTurnsOnOnce(inputs: seq<Input>, offlineDelay: nat)
    requires |inputs| > 0 && inputs[0].presence
    ensures Commands(inputs, offlineDelay)[0] == Switch(TurnOn)
    ensures (forall i :: 0 <= i < |inputs| ==> inputs[i].presence) ==>
      forall i :: 0 < i < |inputs| ==> Commands(inputs, offlineDelay)[i] == NoOp
  {
    TurnOnAt(inputs, offlineDelay, 0);
    if forall i :: 0 <= i < |inputs| ==> inputs[i].presence {
      forall i | 0 < i < |inputs|
        ensures Commands(inputs, offlineDelay)[i] == NoOp
      {
        CommandAt(inputs, offlineDelay, i);
      }
    }
  }

  /** With no presence ever seen the state stays the initial one. */
  lemma {:induction false} AbsentStaysInitial(inputs: seq<Input>, offlineDelay: nat)
    requires forall i :: 0 <= i < |inputs| ==> !inputs[i].presence
    ensures Final(inputs, offlineDelay) == Initial
  {
    if inputs != [] {
      AbsentStaysInitial(inputs[..|inputs| - 1], offlineDelay);
    }
  }

  /** A run of cycles that never sees presence issues no command at all. */
  lemma NeverPresentNoCommands(inputs: seq<Input>, offlineDelay: nat)
    requires forall i :: 0 <= i < |inputs| ==> !inputs[i].presence
    ensures forall i :: 0 <= i < |inputs| ==> Commands(inputs, offlineDelay)[i] == NoOp
  {
    forall i | 0 <= i < |inputs|
      ensures Commands(inputs, offlineDelay)[i] == NoOp
    {
      CommandAt(inputs, offlineDelay, i);
      AbsentStaysInitial(inputs[..i], offlineDelay);
    }
  }

  /** After a turn-off in cycle `i`, the online time stays cleared until presence is seen again. */
  lemma {:induction false} ClearedUntilPresent(inputs: seq<Input>, offlineDelay: nat, i: nat, k: nat)
    requires i < k <= |inputs|
    requires Commands(inputs, offlineDelay)[i] == Switch(TurnOff)
    requires forall m :: i < m < k ==> !inputs[m].presence
    ensures Final(inputs[..k], offlineDelay).latestOnlineTime == None
  {
    assert inputs[..k][..k - 1] == inputs[..k - 1];
    if k == i + 1 {
      CommandAt(inputs, offlineDelay, i);
    } else {
      ClearedUntilPresent(inputs, offlineDelay, i, k - 1);
    }
  }

  /** Exactly one turn-off per absence: between two turn-offs presence was seen again. */
  lemma OneTurnOffPerAbsence(inputs: seq<Input>, offlineDelay: nat, i: nat, j: nat)
    requires i < j < |inputs|
    requires Commands(inputs, offlineDelay)[i] == Switch(TurnOff)
    requires Commands(inputs, offlineDelay)[j] == Switch(TurnOff)
    ensures exists k :: i < k < j && inputs[k].presence
  {
    if forall m :: i < m < j ==> !inputs[m].presence {
      ClearedUntilPresent(inputs, offlineDelay, i, j);
      CommandAt(inputs, offlineDelay, j);
      assert false;
    }
  }

  /**
    Grace window after the last present cycle `i`: the online time stays `inputs[i].now`
    until some absent cycle is strictly past the deadline, and is cleared from then on.
   */
  lemma {:induction false} GraceState(inputs: seq<Input>, offlineDelay: nat, i: nat, k: nat)
    requires i < k <= |inputs|
    requires inputs[i].presence
    requires forall m :: i < m < k ==> !inputs[m].presence
    ensures Final(inputs[..k], offlineDelay).latestOnlineTime ==
      if forall m :: i < m < k ==> inputs[m].now <= inputs[i].now + offlineDelay
      then Some(inputs[i].now) else None
  {
    assert inputs[..k][..k - 1] == inputs[..k - 1];
    assert inputs[..k][k - 1] == inputs[k - 1];
    if k > i + 1 {
      GraceState(inputs, offlineDelay, i, k - 1);
    }
  }

  /**
    Delayed turn-off: after the last present cycle `i`, an absent cycle `j` turns the plug
    off exactly when it is the first cycle strictly past `inputs[i].now + offlineDelay`.
   */
  lemma DelayedTurnOff(inputs: seq<Input>, offlineDelay: nat, i: nat, j: nat)
    requires i < j < |inputs|
    requires inputs[i].presence
    requires forall m :: i < m <= j ==> !inputs[m].presence
    ensures Commands(inputs, offlineDelay)[j] == Switch(TurnOff) <==>
      && inputs[i].now + offlineDelay < inputs[j].now
      && forall m :: i < m < j ==> inputs[m].now <= inputs[i].now + offlineDelay
  {
    CommandAt(inputs, offlineDelay, j);
    GraceState(inputs, offlineDelay, i, j);
  }

  /**
    No flapping: a dip in presence that never gets strictly past the delay issues no
    turn-off, and the next present cycle refreshes the online time. That cycle still
    turns the plug on again when the dip lasted at least one cycle.
   */
  lemma NoFlap(inputs: seq<Input>, offlineDelay: nat, i: nat, j: nat)
    requires i < j < |inputs|
    requires inputs[i].presence && inputs[j].presence
    requires forall m :: i < m < j ==>
      !inputs[m].presence && inputs[m].now <= inputs[i].now + offlineDelay
    ensures forall m :: i < m <= j ==> Commands(inputs, offlineDelay)[m] != Switch(TurnOff)
    ensures Final(inputs[..j + 1], offlineDelay).latestOnlineTime == Some(inputs[j].now)
    ensures Commands(inputs, offlineDelay)[j] == Switch(TurnOn) <==> i + 1 < j
  {
    forall m | i < m < j
      ensures Commands(inputs, offlineDelay)[m] != Switch(TurnOff)
    {
      DelayedTurnOff(inputs, offlineDelay, i, m);
    }
    CommandAt(inputs, offlineDelay, j);
    PreviousPresence(inputs, offlineDelay, j);
    assert inputs[..j + 1][..j] == inputs[..j];
    assert inputs[..j + 1][j] == inputs[j];
  }
}
