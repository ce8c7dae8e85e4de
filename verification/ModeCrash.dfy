/**
 * What exactly a restart makes of the settings, what is left when the process dies between two writes,
 * and what becomes of the daemon.
 */
module ModeCrash {
  import opened Wrappers
  import opened ModeTimer
  import opened ModeProtocol

  ghost predicate Special(mode: string) {
    mode == "EAS" || mode == "WAREHOUSE"
  }

  // ---------------------------------------------------------------------------------------------
  // Restarts
  // ---------------------------------------------------------------------------------------------

  /** The mode and the remaining time that a restart makes of two settings. */
  ghost function Resumed(mode: Option<string>, duration: Option<int>, busOk: bool): (string, int) {
    if mode.Some? && Special(mode.value) && duration.Some? && duration.value != 0 && busOk
    then (mode.value, if duration.value > 0 then duration.value else 0)
    else if mode.Some? && !Special(mode.value) && mode.value != "NORMAL" then ("", 0)
    else ("NORMAL", 0)
  }

  /**
   * A restart over any settings at all: only a special mode with a duration is resumed, if the bus call
   * succeeds, and counts down if the duration is positive; a stored mode that is not recognised leaves
   * the plugin without a mode and touches nothing.
   */
  lemma RestartExactly(w: World, busOk: bool)
    ensures var s := Step(Down(w), Event(Boot, busOk, None));
            var resumed := Resumed(w.mode, w.duration, busOk);
            && s.Up?
            && (s.process.mode, s.process.remaining) == resumed
            && (s.process.timer.Ticking() <==> resumed.1 > 0)
            && s.process.timer.armed
            && (resumed.0 == "" ==> s.world == w)
            && (resumed.0 != "" ==>
                  && s.world.mode == Some(resumed.0) && s.world.duration == Some(resumed.1)
                  && (s.world.marker <==> resumed.0 == MODE_WAREHOUSE))
  {
  }

  /** Configuring a plugin that is up changes nothing. */
  lemma SecondConfigureIsIdle(p: Process, w: World, busOk: bool)
    requires UpOk(p, w)
    ensures AfterConfigure(p, w, busOk) == Returned(p, [])
  {
  }

  /** Before Configure the timer has no callback: a request starts no thread and never ends the process. */
  lemma UnarmedTimerNeverStarts(p: Process, w: World, req: Request, busOk: bool)
    requires !p.timer.armed
    ensures var o := AfterSetMode(p, w, req, busOk);
            && o.Returned?
            && o.process.timer.(clear := p.timer.clear) == p.timer
            && (!Ignored(p.mode, req) ==>
                  o.process.mode == if busOk && req.duration != 0 then req.mode else MODE_NORMAL)
  {
  }

  /** A callback ends the process exactly when the time is up and there is no handle to detach. */
  lemma CallbackEndsExactly(p: Process, w: World, busOk: bool)
    ensures AfterCallback(p, w, busOk).Terminated? <==> p.remaining <= 0 && !p.timer.joinable
  {
  }

  // ---------------------------------------------------------------------------------------------
  // A request that is cut short
  // ---------------------------------------------------------------------------------------------

  /** Where the process dies: the world after the first k writes of a request. */
  ghost function CutWorld(p: Process, w: World, req: Request, busOk: bool, k: nat): World {
    Step(Up(p, w), Event(Ask(req), busOk, Some(k))).world
  }

  ghost predicate Effective(p: Process, req: Request) {
    && !Ignored(p.mode, req)
    && !(Timed(req) && p.timer.joinable)
  }

  /**
   * The writes come in this order: duration, daemon or a failed call's zero, marker file, mode, duration.
   * Up to the fourth the settings keep the old mode, and the marker file is ahead of them.
   */
  lemma WritesAreOrdered(p: Process, w: World, req: Request, busOk: bool, k: nat)
    requires UpOk(p, w) && Effective(p, req)
    ensures var cut := CutWorld(p, w, req, busOk, k);
            var reached := if busOk && req.duration != 0 then req.mode else MODE_NORMAL;
            var asked := if Special(req.mode) && req.duration > 0 then req.duration else 0;
            && cut.mode == Some(if k < 4 then p.mode else reached)
            && cut.duration == Some(if k == 0 then p.remaining else if k == 1 || busOk then asked else 0)
            && (cut.marker <==> (if k < 3 then p.mode else reached) == MODE_WAREHOUSE)
            && cut.daemon == if k < 2 || !busOk then w.daemon
                             else Some(if req.duration == 0 then MODE_NORMAL else req.mode)
  {
  }

  /** A request that is ignored, or that ends the process over its joinable handle, writes nothing. */
  lemma NothingIsWritten(p: Process, w: World, req: Request, busOk: bool, k: nat)
    requires UpOk(p, w) && !Effective(p, req)
    ensures CutWorld(p, w, req, busOk, k) == w
  {
  }

  /**
   * The marker file disagrees with the stored mode in one world only: after the third write of a request
   * that enters or leaves WAREHOUSE.
   */
  lemma MarkerDisagreesExactly(p: Process, w: World, req: Request, busOk: bool, k: nat)
    requires UpOk(p, w) && Effective(p, req)
    ensures var cut := CutWorld(p, w, req, busOk, k);
            var reached := if busOk && req.duration != 0 then req.mode else MODE_NORMAL;
            cut.marker != (cut.mode == Some(MODE_WAREHOUSE)) <==>
            k == 3 && (p.mode == MODE_WAREHOUSE) != (reached == MODE_WAREHOUSE)
  {
    WritesAreOrdered(p, w, req, busOk, k);
  }

  /**
   * A crash inside a request and a good restart, exactly: before the fourth write the old mode comes back,
   * but with the countdown of the request once its duration is written; without a positive countdown it
   * is NORMAL.
   */
  lemma CrashedRequestExactly(p: Process, w: World, req: Request, busOk: bool, k: nat)
    requires UpOk(p, w) && Effective(p, req)
    ensures var s := Step(Down(CutWorld(p, w, req, busOk, k)), Event(Boot, true, None));
            var reached := if busOk && req.duration != 0 then req.mode else MODE_NORMAL;
            var asked := if Special(req.mode) && req.duration > 0 then req.duration else 0;
            var mode := if k < 4 then p.mode else reached;
            var left := if k == 0 then p.remaining else if k == 1 || busOk then asked else 0;
            && s.Up?
            && (s.process.mode, s.process.remaining) ==
               if mode != MODE_NORMAL && left > 0 then (mode, left) else (MODE_NORMAL, 0)
  {
    WritesAreOrdered(p, w, req, busOk, k);
    RestartExactly(CutWorld(p, w, req, busOk, k), true);
  }

  lemma ExpiryStoresNoTime(p: Process, w: World, busOk: bool, k: nat)
    requires UpOk(p, w) && p.timer.Ticking() && p.remaining == 0
    ensures var cut := Step(Up(p, w), Event(Wake, busOk, Some(k))).world;
            cut.duration == Some(0) && (cut.mode == Some(p.mode) || cut.mode == Some(MODE_NORMAL))
  {
    var q := p.(timer := p.timer.Stopped().Detached());
    var req := Request(MODE_NORMAL, 0);
    assert AfterSetMode(q, w, req, busOk).trail == SetModeTrail(w, req, busOk);
  }

  /** A crash inside a callback and a good restart: the second is gone exactly when it was written. */
  lemma CrashedCallbackExactly(p: Process, w: World, busOk: bool, k: nat)
    requires UpOk(p, w) && p.timer.Ticking()
    ensures var s := Step(Down(Step(Up(p, w), Event(Wake, busOk, Some(k))).world), Event(Boot, true, None));
            var left := if k == 0 || p.remaining == 0 then p.remaining else p.remaining - 1;
            && s.Up?
            && (s.process.mode, s.process.remaining) == if left > 0 then (p.mode, left) else (MODE_NORMAL, 0)
  {
    var cut := Step(Up(p, w), Event(Wake, busOk, Some(k))).world;
    if p.remaining == 0 {
      ExpiryStoresNoTime(p, w, busOk, k);
    }
    RestartExactly(cut, true);
  }

  // ---------------------------------------------------------------------------------------------
  // The daemon
  // ---------------------------------------------------------------------------------------------

  lemma FailedCallKeepsDaemon(s: System, e: Event)
    requires Consistent(s) && !e.busOk
    ensures Step(s, e).world.daemon == s.world.daemon
  {
    match (s, e.op)
    case (Up(p, w), Wake) =>
      if p.timer.tickers > 0 && !p.timer.clear && p.remaining == 0 {
        var q, req := p.(timer := p.timer.Stopped().Detached()), Request(MODE_NORMAL, 0);
        assert AfterSetMode(q, w, req, false).trail == SetModeTrail(w, req, false);
      }
    case (_, _) =>
  }

  /** While every bus call fails, no run of requests, callbacks, crashes and restarts moves the daemon. */
  lemma {:induction false} SilentBusKeepsDaemon(s: System, events: seq<Event>)
    requires Consistent(s) && forall i :: 0 <= i < |events| ==> !events[i].busOk
    ensures Run(s, events).world.daemon == s.world.daemon
    decreases |events|
  {
    if events != [] {
      StepKeepsConsistency(s, events[0]);
      FailedCallKeepsDaemon(s, events[0]);
      SilentBusKeepsDaemon(Step(s, events[0]), events[1..]);
    }
  }
}
