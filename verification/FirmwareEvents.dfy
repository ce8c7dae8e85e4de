/**
 * Firmware-state events (plugin/SystemServicesImplementation.cpp): the system manager's states in,
 * state-change and pending-reboot events out.
 */
module FirmwareEvents {

  const UNINITIALIZED := 0
  const SECONDS_TO_REBOOT := 600

  datatype Emission = StateChanged(state: int) | PendingReboot(seconds: int)

  ghost function AfterState(critical: int, latest: int, state: int): (int, seq<Emission>) {
    if state == critical then (latest, [PendingReboot(SECONDS_TO_REBOOT)])
    else if state == latest then (latest, [])
    else (state, [StateChanged(state)])
  }

  /** `critical` is the system manager's code for a critical reboot. */
  class FirmwareState {
    const critical: int
    var latest: int
    ghost var emitted: seq<Emission>

    constructor (critical: int)
      ensures this.critical == critical && latest == UNINITIALIZED && emitted == []
    {
      this.critical, latest, emitted := critical, UNINITIALIZED, [];
    }

    method OnFirmwareUpdateStateChange(newState: int)
      modifies this
      ensures latest == newState
      ensures emitted == old(emitted) + if newState == old(latest) then [] else [StateChanged(newState)]
    {
      if newState != latest {
        latest := newState;
        emitted := emitted + [StateChanged(newState)];
      }
    }

    method OnSystemState(state: int)
      modifies this
      ensures latest == AfterState(critical, old(latest), state).0
      ensures emitted == old(emitted) + AfterState(critical, old(latest), state).1
    {
      if state == critical {
        emitted := emitted + [PendingReboot(SECONDS_TO_REBOOT)];
      } else {
        OnFirmwareUpdateStateChange(state);
      }
    }
  }

  // ---------------------------------------------------------------------------------------------
  // The trace
  // ---------------------------------------------------------------------------------------------

  /** The stored state and everything emitted after a run. */
  ghost function Run(critical: int, latest: int, states: seq<int>): (int, seq<Emission>)
    decreases |states|
  {
    if states == [] then (latest, [])
    else
      var (before, emitted) := Run(critical, latest, states[..|states| - 1]);
      var (after, more) := AfterState(critical, before, states[|states| - 1]);
      (after, emitted + more)
  }

  /** The states received other than critical reboots. */
  ghost function UpdateStates(critical: int, states: seq<int>): seq<int>
    decreases |states|
  {
    if states == [] then []
    else
      var front, last := UpdateStates(critical, states[..|states| - 1]), states[|states| - 1];
      if last == critical then front else front + [last]
  }

  function Latest(before: int, xs: seq<int>): int {
    if xs == [] then before else xs[|xs| - 1]
  }

  /** What the i-th input is answered with, told from the inputs before it. */
  ghost function Answer(critical: int, latest: int, states: seq<int>, i: nat): seq<Emission>
    requires i < |states|
  {
    if states[i] == critical then [PendingReboot(SECONDS_TO_REBOOT)]
    else if states[i] == Latest(latest, UpdateStates(critical, states[..i])) then []
    else [StateChanged(states[i])]
  }

  ghost function Answers(critical: int, latest: int, states: seq<int>, n: nat): seq<Emission>
    requires n <= |states|
  {
    if n == 0 then [] else Answers(critical, latest, states, n - 1) + Answer(critical, latest, states, n - 1)
  }

  lemma AnswerOfPrefix(critical: int, latest: int, states: seq<int>, m: nat, i: nat)
    requires i < m <= |states|
    ensures Answer(critical, latest, states[..m], i) == Answer(critical, latest, states, i)
  {
    assert states[..m][..i] == states[..i];
  }

  lemma {:induction false} AnswersAgree(critical: int, latest: int, a: seq<int>, b: seq<int>, n: nat)
    requires n <= |a| && n <= |b|
    requires forall i :: 0 <= i < n ==> Answer(critical, latest, a, i) == Answer(critical, latest, b, i)
    ensures Answers(critical, latest, a, n) == Answers(critical, latest, b, n)
  {
    if n > 0 {
      AnswersAgree(critical, latest, a, b, n - 1);
    }
  }

  /**
   * The emissions are the answers to the inputs, in their order: 600 seconds' warning for a critical
   * reboot, and a change for each update state other than the update state before it.
   */
  lemma {:induction false} TraceIsExact(critical: int, latest: int, states: seq<int>)
    ensures var (stored, emitted) := Run(critical, latest, states);
            && emitted == Answers(critical, latest, states, |states|)
            && stored == Latest(latest, UpdateStates(critical, states))
    decreases |states|
  {
    if states != [] {
      var n := |states| - 1;
      TraceIsExact(critical, latest, states[..n]);
      forall i | 0 <= i < n {
        AnswerOfPrefix(critical, latest, states, n, i);
      }
      AnswersAgree(critical, latest, states[..n], states, n);
    }
  }

  // ---------------------------------------------------------------------------------------------
  // Its two parts
  // ---------------------------------------------------------------------------------------------

  ghost function Announced(emitted: seq<Emission>): seq<int>
    decreases |emitted|
  {
    if emitted == [] then []
    else
      var front, last := Announced(emitted[..|emitted| - 1]), emitted[|emitted| - 1];
      if last.StateChanged? then front + [last.state] else front
  }

  ghost function Warnings(emitted: seq<Emission>): seq<int>
    decreases |emitted|
  {
    if emitted == [] then []
    else
      var front, last := Warnings(emitted[..|emitted| - 1]), emitted[|emitted| - 1];
      if last.PendingReboot? then front + [last.seconds] else front
  }

  ghost function Occurrences(critical: int, states: seq<int>): nat
    decreases |states|
  {
    if states == [] then 0
    else Occurrences(critical, states[..|states| - 1]) + if states[|states| - 1] == critical then 1 else 0
  }

  /** The elements that differ from their predecessor, the first one from `before`. */
  ghost function Changes(before: int, xs: seq<int>): seq<int>
    decreases |xs|
  {
    if xs == [] then []
    else
      var front, last := xs[..|xs| - 1], xs[|xs| - 1];
      if last == Latest(before, front) then Changes(before, front) else Changes(before, front) + [last]
  }

  lemma PartsAppend(front: seq<Emission>, e: Emission)
    ensures Announced(front + [e]) == if e.StateChanged? then Announced(front) + [e.state] else Announced(front)
    ensures Warnings(front + [e]) == if e.PendingReboot? then Warnings(front) + [e.seconds] else Warnings(front)
  {
    assert (front + [e])[..|front|] == front;
  }

  lemma ChangesAppend(before: int, xs: seq<int>, x: int)
    ensures Changes(before, xs + [x]) ==
            if x == Latest(before, xs) then Changes(before, xs) else Changes(before, xs) + [x]
  {
    assert (xs + [x])[..|xs|] == xs;
  }

  lemma StepParts(critical: int, latest: int, front: seq<int>, last: int, stored: int, emitted: seq<Emission>)
    requires stored == Latest(latest, UpdateStates(critical, front))
    requires Announced(emitted) == Changes(latest, UpdateStates(critical, front))
    ensures var all := emitted + AfterState(critical, stored, last).1;
            && Announced(all) == Changes(latest, UpdateStates(critical, front + [last]))
            && Warnings(all) == if last == critical then Warnings(emitted) + [SECONDS_TO_REBOOT] else Warnings(emitted)
  {
    assert (front + [last])[..|front|] == front;
    var more := AfterState(critical, stored, last).1;
    if more == [] {
      assert emitted + more == emitted;
    } else {
      PartsAppend(emitted, more[0]);
    }
    ChangesAppend(latest, UpdateStates(critical, front), last);
  }

  /**
   * Hence the states announced are the update states with consecutive repeats removed, and the
   * warnings are one of 600 seconds for each critical reboot.
   */
  lemma {:induction false} PartsAreExact(critical: int, latest: int, states: seq<int>)
    ensures var emitted := Run(critical, latest, states).1;
            && Announced(emitted) == Changes(latest, UpdateStates(critical, states))
            && Warnings(emitted) == seq(Occurrences(critical, states), _ => 600)
    decreases |states|
  {
    if states != [] {
      var front, last := states[..|states| - 1], states[|states| - 1];
      var (stored, emitted) := Run(critical, latest, front);
      assert states == front + [last];
      PartsAreExact(critical, latest, front);
      TraceIsExact(critical, latest, front);
      StepParts(critical, latest, front, last, stored, emitted);
    }
  }

  /** No state is announced twice in a row, and from the start the last one announced is stored. */
  lemma {:induction false} ChangesNeverRepeat(before: int, xs: seq<int>)
    ensures var changes := Changes(before, xs);
            && (forall i :: 0 < i < |changes| ==> changes[i] != changes[i - 1])
            && (changes != [] ==> changes[0] != before)
            && Latest(before, changes) == Latest(before, xs)
    decreases |xs|
  {
    if xs != [] {
      ChangesNeverRepeat(before, xs[..|xs| - 1]);
    }
  }
}
