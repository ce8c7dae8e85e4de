/**
 * The state of the operating mode told from the events of a run: what keeps the thread handle
 * joinable, and when the daemon agrees.
 */
module ModeHistory {
  import opened Wrappers
  import opened ModeTimer
  import opened ModeProtocol

  /** The state before the i-th event of a run. */
  ghost function At(first: World, events: seq<Event>, i: nat): System
    requires i <= |events|
  {
    Run(Down(first), events[..i])
  }

  lemma {:induction false} RunAppend(s: System, events: seq<Event>, e: Event)
    ensures Run(s, events + [e]) == Step(Run(s, events), e)
    decreases |events|
  {
    if events == [] {
      assert (events + [e])[1..] == [];
    } else {
      assert (events + [e])[1..] == events[1..] + [e];
      RunAppend(Step(s, events[0]), events[1..], e);
    }
  }

  lemma AtIsPrefix(first: World, front: seq<Event>, e: Event)
    ensures forall i :: 0 <= i <= |front| ==> At(first, front + [e], i) == At(first, front, i)
    ensures At(first, front, |front|) == Run(Down(first), front)
  {
    assert front[..|front|] == front;
    forall i | 0 <= i <= |front|
      ensures At(first, front + [e], i) == At(first, front, i)
    {
      assert (front + [e])[..i] == front[..i];
    }
  }

  // ---------------------------------------------------------------------------------------------
  // Countdowns that did not run out
  // ---------------------------------------------------------------------------------------------

  /** The event begins a countdown: a timed request, or a restart that finds one in the settings. */
  ghost predicate Begins(s: System, e: Event) {
    && Step(s, e).Up?
    && match s
       case Down(w) => Timed(BootRequest(w))
       case Up(_, _) => e.op.Ask? && Timed(e.op.req)
  }

  /** The event is a callback that brings the mode back to NORMAL. */
  ghost predicate RunsOut(s: System, e: Event) {
    && s.Up? && Step(s, e).Up?
    && e.op.Wake?
    && s.process.mode != MODE_NORMAL && Step(s, e).process.mode == MODE_NORMAL
  }

  /** The i-th event began a countdown; since then the process has lived and no countdown has run out. */
  ghost predicate OpenSince(first: World, events: seq<Event>, i: nat)
    requires i < |events|
  {
    && Begins(At(first, events, i), events[i])
    && forall j :: i < j < |events| ==> At(first, events, j).Up? && !RunsOut(At(first, events, j), events[j])
  }

  ghost predicate CountdownOpen(first: World, events: seq<Event>) {
    exists i :: 0 <= i < |events| && OpenSince(first, events, i)
  }

  lemma HandleAfterStep(s: System, e: Event)
    requires Consistent(s) && Step(s, e).Up?
    ensures Step(s, e).process.timer.joinable <==>
            Begins(s, e) || (s.Up? && s.process.timer.joinable && !RunsOut(s, e))
  {
    StepKeepsConsistency(s, e);
    if s.Up? && e.op.Wake? && s.process.timer.tickers > 0 {
      WakeKeepsConsistency(s.process, s.world, e.busOk);
    }
  }

  lemma OpenAfterStep(first: World, front: seq<Event>, e: Event, i: nat)
    requires i <= |front|
    ensures OpenSince(first, front + [e], i) <==>
            var s := Run(Down(first), front);
            if i == |front| then Begins(s, e) else OpenSince(first, front, i) && s.Up? && !RunsOut(s, e)
  {
    AtIsPrefix(first, front, e);
    assert forall j :: 0 <= j < |front| ==> (front + [e])[j] == front[j];
  }

  lemma CountdownOpenAfterStep(first: World, front: seq<Event>, e: Event)
    ensures CountdownOpen(first, front + [e]) <==>
            var s := Run(Down(first), front);
            Begins(s, e) || (CountdownOpen(first, front) && s.Up? && !RunsOut(s, e))
  {
    forall i | 0 <= i <= |front| {
      OpenAfterStep(first, front, e, i);
    }
    assert OpenSince(first, front + [e], |front|) <==> Begins(Run(Down(first), front), e);
  }

  /** The handle is joinable exactly while a countdown of this process is begun and none ran out since. */
  lemma {:induction false} HandleTellsHistory(first: World, events: seq<Event>)
    requires WorldOk(first) && Run(Down(first), events).Up?
    ensures Run(Down(first), events).process.timer.joinable <==> CountdownOpen(first, events)
    decreases |events|
  {
    var front, e := events[..|events| - 1], events[|events| - 1];
    var s := Run(Down(first), front);
    assert events == front + [e];
    RunAppend(Down(first), front, e);
    RunsStayConsistent(Down(first), front);
    HandleAfterStep(s, e);
    CountdownOpenAfterStep(first, front, e);
    if s.Up? {
      HandleTellsHistory(first, front);
    }
  }

  lemma EndsExactly(p: Process, w: World, e: Event)
    requires UpOk(p, w) && e.crash.None?
    ensures Step(Up(p, w), e).Down? <==> e.op.Ask? && Timed(e.op.req) && p.timer.joinable
  {
    if e.op.Wake? && p.timer.tickers > 0 {
      WakeKeepsConsistency(p, w, e.busOk);
    }
  }

  /**
   * In every run, an event ends the process exactly when it is a timed request made while an earlier
   * countdown of the same process has not run out; a waking thread never ends it.
   */
  lemma TerminatesExactly(first: World, events: seq<Event>, e: Event)
    requires WorldOk(first) && Run(Down(first), events).Up? && e.crash.None?
    ensures Step(Run(Down(first), events), e).Down? <==>
            e.op.Ask? && Timed(e.op.req) && CountdownOpen(first, events)
  {
    var s := Run(Down(first), events);
    RunsStayConsistent(Down(first), events);
    HandleTellsHistory(first, events);
    EndsExactly(s.process, s.world, e);
  }

  // ---------------------------------------------------------------------------------------------
  // Agreement with the daemon
  // ---------------------------------------------------------------------------------------------

  /**
   * The event calls the daemon and the process survives it: a restart, an effective request, the end
   * of a countdown.
   */
  ghost predicate Calls(s: System, e: Event) {
    && Step(s, e).Up?
    && (s.Down? || (e.op.Ask? && !Ignored(s.process.mode, e.op.req)) || RunsOut(s, e))
  }

  ghost predicate LastCall(first: World, events: seq<Event>, i: nat)
    requires i < |events|
  {
    && Calls(At(first, events, i), events[i])
    && forall j :: i < j < |events| ==> !Calls(At(first, events, j), events[j])
  }

  /** The daemon is in the plugin's mode. */
  ghost predicate Agree(s: System)
    requires s.Up?
  {
    s.world.daemon == Some(s.process.mode)
  }

  lemma AgreeAfterStep(s: System, e: Event)
    requires Consistent(s) && Step(s, e).Up?
    ensures Calls(s, e) ==> (Agree(Step(s, e)) <==> e.busOk || s.world.daemon == Some(MODE_NORMAL))
    ensures !Calls(s, e) ==> s.Up? && (Agree(Step(s, e)) <==> Agree(s))
  {
    if s.Up? && e.op.Wake? && s.process.timer.tickers > 0 {
      WakeKeepsConsistency(s.process, s.world, e.busOk);
    }
  }

  lemma LastCallAfterStep(first: World, front: seq<Event>, e: Event, i: nat)
    requires i <= |front|
    ensures LastCall(first, front + [e], i) <==>
            var s := Run(Down(first), front);
            if i == |front| then Calls(s, e) else LastCall(first, front, i) && !Calls(s, e)
  {
    AtIsPrefix(first, front, e);
    assert forall j :: 0 <= j < |front| ==> (front + [e])[j] == front[j];
  }

  /**
   * In every run, the daemon is in the plugin's mode exactly when the last call to it succeeded or
   * found it in NORMAL.
   */
  lemma {:induction false} DaemonAgreesExactly(first: World, events: seq<Event>)
    requires WorldOk(first) && Run(Down(first), events).Up?
    ensures exists i :: 0 <= i < |events| && LastCall(first, events, i)
    ensures forall i :: 0 <= i < |events| && LastCall(first, events, i) ==>
              (Agree(Run(Down(first), events)) <==>
               events[i].busOk || At(first, events, i).world.daemon == Some(MODE_NORMAL))
    decreases |events|
  {
    var front, e := events[..|events| - 1], events[|events| - 1];
    var s := Run(Down(first), front);
    assert events == front + [e];
    RunAppend(Down(first), front, e);
    AtIsPrefix(first, front, e);
    RunsStayConsistent(Down(first), front);
    AgreeAfterStep(s, e);
    forall i | 0 <= i < |events| {
      LastCallAfterStep(first, front, e, i);
    }
    if Calls(s, e) {
      assert LastCall(first, events, |front|);
    } else {
      DaemonAgreesExactly(first, front);
      var i :| 0 <= i < |front| && LastCall(first, front, i);
      assert LastCall(first, events, i);
    }
  }
}
