/** What the operating-mode protocol guarantees, and where its guarantees end. */
module ModeTheorems {
  import opened Wrappers
  import opened ModeTimer
  import opened ModeProtocol

  // ---------------------------------------------------------------------------------------------
  // Crash recovery
  // ---------------------------------------------------------------------------------------------

  ghost predicate InProgress(p: Process, op: Op) {
    op.Ask? || (op.Wake? && p.timer.tickers > 0)
  }

  ghost function ModesInPlay(p: Process, op: Op): set<string> {
    {MODE_NORMAL, p.mode} + if op.Ask? then {op.req.mode} else {}
  }

  /** The countdowns that may be found again: before the operation, one tick on, or as requested. */
  ghost function CountdownsInPlay(p: Process, op: Op): set<int> {
    {p.remaining} + if op.Ask? then {op.req.duration} else {p.remaining - 1}
  }

  /** The settings hold nothing but the given modes and countdowns. */
  ghost predicate Holds(w: World, modes: set<string>, countdowns: set<int>) {
    && WorldOk(w)
    && w.mode.Some?
    && w.mode.value in modes
    && w.duration.Some?
    && (w.duration.value == 0 || w.duration.value in countdowns)
  }

  lemma RequestLeaves(p: Process, w: World, req: Request, busOk: bool, k: nat)
    requires UpOk(p, w)
    ensures var s := Step(Up(p, w), Event(Ask(req), busOk, Some(k)));
            s.Down? && Holds(s.world, ModesInPlay(p, Ask(req)), CountdownsInPlay(p, Ask(req)))
  {
  }

  lemma CallbackLeaves(p: Process, w: World, busOk: bool, k: nat)
    requires UpOk(p, w) && p.timer.tickers > 0
    ensures var s := Step(Up(p, w), Event(Wake, busOk, Some(k)));
            s.Down? && Holds(s.world, ModesInPlay(p, Wake), CountdownsInPlay(p, Wake))
  {
    if !p.timer.clear && p.remaining == 0 {
      var q := p.(timer := p.timer.Stopped().Detached());
      var req := Request(MODE_NORMAL, 0);
      assert AfterSetMode(q, w, req, busOk).trail == SetModeTrail(w, req, busOk);
    }
  }

  lemma CrashLeaves(p: Process, w: World, op: Op, busOk: bool, k: nat)
    requires UpOk(p, w) && InProgress(p, op)
    ensures var s := Step(Up(p, w), Event(op, busOk, Some(k)));
            s.Down? && Holds(s.world, ModesInPlay(p, op), CountdownsInPlay(p, op))
  {
    match op
    case Ask(req) => RequestLeaves(p, w, req, busOk, k);
    case Wake => CallbackLeaves(p, w, busOk, k);
  }

  ghost predicate OnlyBoots(events: seq<Event>) {
    forall i :: 0 <= i < |events| ==> events[i].op.Boot?
  }

  ghost predicate UpWithin(s: System, modes: set<string>, countdowns: set<int>) {
    && s.Up?
    && UpOk(s.process, s.world)
    && s.process.mode in modes
    && (s.process.mode != MODE_NORMAL ==>
          && s.process.remaining > 0
          && s.process.remaining in countdowns
          && s.process.timer.Ticking())
  }

  lemma BootFinds(w: World, e: Event, modes: set<string>, countdowns: set<int>)
    requires Holds(w, modes, countdowns) && MODE_NORMAL in modes && e.op.Boot?
    ensures var s := Step(Down(w), e);
            if e.crash.Some? then s.Down? && Holds(s.world, modes, countdowns)
            else UpWithin(s, modes, countdowns)
  {
    StepKeepsConsistency(Down(w), e);
  }

  lemma {:induction false} BootsFind(s: System, events: seq<Event>, modes: set<string>, countdowns: set<int>)
    requires (s.Down? && Holds(s.world, modes, countdowns)) || UpWithin(s, modes, countdowns)
    requires MODE_NORMAL in modes && OnlyBoots(events)
    ensures var r := Run(s, events);
            (r.Down? && Holds(r.world, modes, countdowns)) || UpWithin(r, modes, countdowns)
    decreases |events|
  {
    if events != [] {
      if s.Down? {
        BootFinds(s.world, events[0], modes, countdowns);
      }
      BootsFind(Step(s, events[0]), events[1..], modes, countdowns);
    }
  }

  /**
   * The process dies after any number of the writes of a request or a timer callback, and any
   * number of the restarts die as well: once the plugin is up, its mode is NORMAL, the mode before
   * or the mode requested, and a mode other than NORMAL comes with a running countdown.
   */
  lemma CrashRecovery(p: Process, w: World, op: Op, busOk: bool, k: nat, boots: seq<Event>)
    requires UpOk(p, w) && InProgress(p, op) && OnlyBoots(boots)
    ensures var s := Run(Step(Up(p, w), Event(op, busOk, Some(k))), boots);
            s.Up? ==> UpWithin(s, ModesInPlay(p, op), CountdownsInPlay(p, op))
  {
    CrashLeaves(p, w, op, busOk, k);
    BootsFind(Step(Up(p, w), Event(op, busOk, Some(k))), boots, ModesInPlay(p, op), CountdownsInPlay(p, op));
  }

  /**
   * In every run, a restart between operations keeps the mode exactly when it is NORMAL, or has time
   * left and the bus call of the restart succeeds; and it keeps the remaining time exactly when there
   * is none or the call succeeds.
   */
  lemma RestartKeepsMode(first: World, events: seq<Event>, busOk: bool)
    requires WorldOk(first) && Run(Down(first), events).Up?
    ensures var s := Run(Down(first), events);
            var r := Step(Down(s.world), Event(Boot, busOk, None));
            && r.Up?
            && (r.process.mode == s.process.mode <==>
                s.process.mode == MODE_NORMAL || (s.process.remaining > 0 && busOk))
            && (r.process.remaining == s.process.remaining <==> s.process.remaining == 0 || busOk)
            && (r.process.mode != s.process.mode ==> r.process.mode == MODE_NORMAL)
  {
    RunsStayConsistent(Down(first), events);
  }

  lemma RunOfTwo(s: System, e: Event, f: Event)
    ensures Run(s, [e, f]) == Step(Step(s, e), f)
  {
    assert [e, f][1..] == [f] && [f][1..] == [];
    assert Run(Step(s, e), [f]) == Run(Step(Step(s, e), f), []);
  }

  /** A mode set for an indefinite time on a healthy system is gone after a restart. */
  lemma IndefiniteModeIsLost(marker: bool, daemon: Option<string>, mode: string, duration: int, busOk: bool)
    requires mode == MODE_EAS || mode == MODE_WAREHOUSE
    requires duration < 0
    ensures var events := [Event(Boot, true, None), Event(Ask(Request(mode, duration)), true, None)];
            var s := Run(Down(World(None, None, marker, daemon)), events);
            && s.Up? && s.process.mode == mode && s.process.remaining == 0 && s.world.daemon == Some(mode)
            && var r := Step(Down(s.world), Event(Boot, busOk, None));
               r.Up? && r.process.mode == MODE_NORMAL
  {
    var first := Down(World(None, None, marker, daemon));
    var boot, ask := Event(Boot, true, None), Event(Ask(Request(mode, duration)), true, None);
    RunOfTwo(first, boot, ask);
    var s := Step(first, boot);
    assert s.Up? && s.process.mode == MODE_NORMAL;
  }

  // ---------------------------------------------------------------------------------------------
  // What a reported success is worth
  // ---------------------------------------------------------------------------------------------

  /**
   * From any state, a request reported as a success reaches its mode exactly when that is NORMAL, or
   * the request has a duration and the bus call succeeds.
   */
  lemma SuccessIsTrueExactly(p: Process, w: World, req: Request, busOk: bool)
    requires Recognised(req.mode)
    ensures var o := AfterSetMode(p, w, req, busOk);
            o.Returned? ==>
              (o.process.mode == req.mode <==> req.mode == MODE_NORMAL || (req.duration != 0 && busOk))
  {
  }

  // ---------------------------------------------------------------------------------------------
  // The thread handle
  // ---------------------------------------------------------------------------------------------

  /** A countdown was begun, then stopped before it ran out. */
  ghost predicate Spent(p: Process) {
    p.timer.clear && p.timer.joinable
  }

  /** Any effective request during a countdown either ends the process or stops the countdown early. */
  lemma InterruptionSpendsTimer(p: Process, w: World, req: Request, busOk: bool)
    requires UpOk(p, w) && p.timer.Ticking() && !Ignored(p.mode, req)
    ensures var s := Step(Up(p, w), Event(Ask(req), busOk, None));
            if Timed(req) then s == Down(w)
            else s.Up? && Spent(s.process) && s.process.timer.started == p.timer.started
  {
  }

  ghost predicate WithoutBoots(events: seq<Event>) {
    forall i :: 0 <= i < |events| ==> !events[i].op.Boot?
  }

  ghost predicate WithoutTimed(events: seq<Event>) {
    forall i :: 0 <= i < |events| ==> !(events[i].op.Ask? && Timed(events[i].op.req))
  }

  lemma {:induction false} DownStaysDown(w: World, events: seq<Event>)
    requires WithoutBoots(events)
    ensures Run(Down(w), events) == Down(w)
    decreases |events|
  {
    if events != [] {
      DownStaysDown(w, events[1..]);
    }
  }

  /**
   * Once a countdown was stopped early the process never counts down again: it survives only runs
   * without timed requests.
   */
  lemma {:induction false} SpentForGood(p: Process, w: World, events: seq<Event>)
    requires UpOk(p, w) && Spent(p) && WithoutBoots(events)
    ensures var s := Run(Up(p, w), events);
            s.Up? ==> WithoutTimed(events) && Spent(s.process) && s.process.remaining == 0
                      && s.process.timer.started == p.timer.started
    decreases |events|
  {
    if events != [] {
      var s := Step(Up(p, w), events[0]);
      StepKeepsConsistency(Up(p, w), events[0]);
      if s.Up? {
        SpentForGood(s.process, s.world, events[1..]);
        assert forall i :: 0 < i < |events| ==> events[i] == events[1..][i - 1];
      } else {
        DownStaysDown(s.world, events[1..]);
      }
    }
  }

  /** A thread whose countdown was stopped leaves at its next wake-up, and changes nothing else by it. */
  lemma StoppedWakeOnlyLeaves(p: Process, w: World, busOk: bool)
    requires UpOk(p, w) && p.timer.clear
    ensures Step(Up(p, w), Event(Wake, busOk, None)) == Up(p.(timer := p.timer.(tickers := 0)), w)
  {
  }

  ghost predicate SomeWake(events: seq<Event>) {
    exists i :: 0 <= i < |events| && events[i].op.Wake?
  }

  /**
   * Once a countdown was stopped early, the first wake-up ends its thread for good: in every run that the
   * process survives, a thread lives at the end exactly when one lived and none has woken up.
   */
  lemma {:induction false} StoppedThreadLeaves(p: Process, w: World, events: seq<Event>)
    requires UpOk(p, w) && Spent(p) && WithoutBoots(events)
    ensures var s := Run(Up(p, w), events);
            s.Up? ==> s.process.timer.tickers == if SomeWake(events) then 0 else p.timer.tickers
    decreases |events|
  {
    if events != [] {
      var s, rest := Step(Up(p, w), events[0]), events[1..];
      StepKeepsConsistency(Up(p, w), events[0]);
      assert SomeWake(events) <==> events[0].op.Wake? || SomeWake(rest) by {
        assert forall i :: 0 < i < |events| ==> events[i] == rest[i - 1];
      }
      if s.Up? {
        StoppedThreadLeaves(s.process, s.world, rest);
      } else {
        DownStaysDown(s.world, rest);
      }
    }
  }

  // ---------------------------------------------------------------------------------------------
  // Exact countdown
  // ---------------------------------------------------------------------------------------------

  function Wakes(oks: seq<bool>): (events: seq<Event>)
    ensures |events| == |oks|
  {
    seq(|oks|, i requires 0 <= i < |oks| => Event(Wake, oks[i], None))
  }

  lemma WakesTail(oks: seq<bool>)
    requires oks != []
    ensures Wakes(oks)[0] == Event(Wake, oks[0], None) && Wakes(oks)[1..] == Wakes(oks[1..])
  {
  }

  lemma {:induction false} NoTickerNoChange(p: Process, w: World, oks: seq<bool>)
    requires p.timer.tickers == 0
    ensures Run(Up(p, w), Wakes(oks)) == Up(p, w)
    decreases |oks|
  {
    if oks != [] {
      WakesTail(oks);
      NoTickerNoChange(p, w, oks[1..]);
    }
  }

  ghost predicate Expired(before: Process, s: System) {
    && s.Up?
    && s.process.mode == MODE_NORMAL
    && s.process.remaining == 0
    && s.process.timer == Timer(true, true, false, 0, before.timer.started, before.timer.expired + 1)
    && s.world.mode == Some(MODE_NORMAL)
    && s.world.duration == Some(0)
    && !s.world.marker
  }

  /** After k callbacks d - k seconds remain; callback d + 1 ends the mode and the ticking thread. */
  lemma {:induction false} CountdownIsExact(p: Process, w: World, oks: seq<bool>)
    requires UpOk(p, w) && p.timer.Ticking()
    ensures var s := Run(Up(p, w), Wakes(oks));
            if |oks| <= p.remaining then
              s == Up(p.(remaining := p.remaining - |oks|), w.(duration := Some(p.remaining - |oks|)))
            else Expired(p, s)
    decreases |oks|
  {
    if oks != [] {
      WakesTail(oks);
      var s := Step(Up(p, w), Event(Wake, oks[0], None));
      StepKeepsConsistency(Up(p, w), Event(Wake, oks[0], None));
      if p.remaining > 0 {
        CountdownIsExact(s.process, s.world, oks[1..]);
      } else {
        assert Expired(p, s);
        NoTickerNoChange(s.process, s.world, oks[1..]);
      }
    }
  }

  /** A timed request that finds no joinable handle takes effect for its duration plus one interval. */
  lemma TimedRequestRunsItsCourse(p: Process, w: World, req: Request, oks: seq<bool>)
    requires UpOk(p, w) && Timed(req) && !p.timer.joinable
    ensures var s := Run(Step(Up(p, w), Event(Ask(req), true, None)), Wakes(oks));
            && s.Up?
            && (|oks| <= req.duration ==>
                  s.process.mode == req.mode && s.process.remaining == req.duration - |oks|)
            && (|oks| > req.duration ==>
                  s.process.mode == MODE_NORMAL && s.process.timer.tickers == 0 && !s.process.timer.joinable)
  {
    var s := Step(Up(p, w), Event(Ask(req), true, None));
    StepKeepsConsistency(Up(p, w), Event(Ask(req), true, None));
    assert s.Up? && s.process.mode == req.mode && s.process.timer.Ticking();
    CountdownIsExact(s.process, s.world, oks);
  }

  /**
   * The runs take the callback and the flag check that follows it as one step. Without a lock a
   * request can come in between: it leaves two threads counting down exactly when the countdown has
   * just run out, the request is timed and its bus call succeeds.
   */
  lemma RequestInsideCallback(p: Process, w: World, req: Request, callbackOk: bool, busOk: bool)
    requires UpOk(p, w) && p.timer.Ticking()
    ensures var end := AfterCallback(p, w, callbackOk);
            && end.Returned?
            && var o := AfterSetMode(end.process, Final(w, end.trail), req, busOk);
               (o.Returned? && !o.process.timer.clear && o.process.timer.tickers == 2 <==>
                p.remaining == 0 && Timed(req) && busOk)
  {
  }

  // ---------------------------------------------------------------------------------------------
  // Agreement with the daemon
  // ---------------------------------------------------------------------------------------------

  /** The plugin is in a special mode only together with the daemon. */
  ghost predicate SpecialModeShared(s: System) {
    s.Up? && s.process.mode != MODE_NORMAL ==> s.world.daemon == Some(s.process.mode)
  }

  lemma StepKeepsSharing(s: System, e: Event)
    requires Consistent(s) && SpecialModeShared(s)
    ensures SpecialModeShared(Step(s, e))
  {
    match (s, e.op)
    case (Up(p, w), Wake) =>
      if p.timer.tickers > 0 {
        WakeKeepsConsistency(p, w, e.busOk);
      }
    case (_, _) =>
  }

  /** In no state of any run does the plugin report EAS or WAREHOUSE while the daemon is elsewhere. */
  lemma {:induction false} SpecialModesAreShared(s: System, events: seq<Event>)
    requires Consistent(s) && SpecialModeShared(s)
    ensures SpecialModeShared(Run(s, events))
    decreases |events|
  {
    if events != [] {
      StepKeepsConsistency(s, events[0]);
      StepKeepsSharing(s, events[0]);
      SpecialModesAreShared(Step(s, events[0]), events[1..]);
    }
  }

  /** Requests for NORMAL in either form, or for no mode at all. */
  ghost predicate NormalRequests(events: seq<Event>) {
    forall i :: 0 <= i < |events| ==>
      && events[i].op.Ask? && events[i].crash.None?
      && var req := events[i].op.req;
         req.mode == MODE_NORMAL || req.duration == 0 || (req.mode != MODE_EAS && req.mode != MODE_WAREHOUSE)
  }

  lemma {:induction false} NormalRequestsChangeNothing(p: Process, w: World, events: seq<Event>)
    requires p.mode == MODE_NORMAL && NormalRequests(events)
    ensures Run(Up(p, w), events) == Up(p, w)
    decreases |events|
  {
    if events != [] {
      NormalRequestsChangeNothing(p, w, events[1..]);
    }
  }

  /**
   * When the call that ends a mode fails, the daemon stays in that mode and no later request for
   * NORMAL or with a zero duration, however often repeated and however the bus behaves, brings it back.
   */
  lemma FailedReturnIsNotRepaired(p: Process, w: World, req: Request, requests: seq<Event>)
    requires UpOk(p, w) && p.mode != MODE_NORMAL && w.daemon == Some(p.mode)
    requires Recognised(req.mode) && Target(req) == MODE_NORMAL && NormalRequests(requests)
    ensures var s := Run(Step(Up(p, w), Event(Ask(req), false, None)), requests);
            s.Up? && s.process.mode == MODE_NORMAL && s.world.daemon == Some(p.mode)
  {
    var s := Step(Up(p, w), Event(Ask(req), false, None));
    NormalRequestsChangeNothing(s.process, s.world, requests);
  }
}
