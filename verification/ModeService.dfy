/**
 * The operating-mode part of the plugin object (plugin/SystemServicesImplementation.cpp) in its
 * imperative form, proved against the protocol in ModeProtocol.
 *
 * A method that returns `terminated` did not get past std::thread's move assignment over a joinable
 * handle: the process is gone and only `world` is still meaningful.
 */
module ModeService {
  import opened Wrappers
  import opened ModeTimer
  import opened ModeProtocol

  const MODE_TIMER_UPDATE_INTERVAL := 1000

  /** The worlds a mode change passes through from the bus call on. */
  ghost function Announcements(w: World, mode: string, remaining: int, busOk: bool): seq<World> {
    var called := if busOk then w.(daemon := Some(mode)) else w.(duration := Some(0));
    var marked := called.(marker := mode == MODE_WAREHOUSE);
    var named := marked.(mode := Some(mode));
    [called, marked, named, named.(duration := Some(remaining))]
  }

  lemma TrailInTwoHalves(w: World, req: Request, busOk: bool)
    ensures var switched := w.(duration := Some(Countdown(req, true)));
            && SetModeTrail(w, req, busOk) ==
               [switched] + Announcements(switched, Reached(req, busOk), Countdown(req, busOk), busOk)
            && Final(w, SetModeTrail(w, req, busOk)) ==
               World(Some(Reached(req, busOk)), Some(Countdown(req, busOk)), Reached(req, busOk) == MODE_WAREHOUSE,
                     if busOk then Some(Target(req)) else w.daemon)
  {
  }

  class OperatingMode {
    var currentMode: string
    var remainingDuration: int
    const timer: CTimer
    var world: World
    /** Every world written since construction. */
    ghost var trail: seq<World>

    ghost function State(): Process
      reads this, timer
    {
      Process(currentMode, remainingDuration, timer.State())
    }

    /** The state after an operation, as the protocol has it. */
    twostate predicate Follows(o: Outcome, terminated: bool)
      reads this, timer
    {
      match o
      case Terminated => terminated && world == old(world) && trail == old(trail)
      case Returned(p, writes) =>
        && !terminated
        && State() == p
        && world == Final(old(world), writes)
        && trail == old(trail) + writes
    }

    constructor (w: World)
      ensures State() == FRESH_PROCESS && world == w && trail == []
      ensures fresh(timer)
    {
      timer := new CTimer();
      currentMode, remainingDuration := "", 0;
      world, trail := w, [];
    }

    method WriteDuration(duration: int)
      modifies `world, `trail
      ensures world == old(world).(duration := Some(duration)) && trail == old(trail) + [world]
    {
      world := world.(duration := Some(duration));
      trail := trail + [world];
    }

    method WriteMode(mode: string)
      modifies `world, `trail
      ensures world == old(world).(mode := Some(mode)) && trail == old(trail) + [world]
    {
      world := world.(mode := Some(mode));
      trail := trail + [world];
    }

    method WriteMarker(present: bool)
      modifies `world, `trail
      ensures world == old(world).(marker := present) && trail == old(trail) + [world]
    {
      world := world.(marker := present);
      trail := trail + [world];
    }

    method StartModeTimer(duration: int) returns (terminated: bool)
      modifies this, timer
      ensures terminated <==> old(timer.State().armed && timer.joinable)
      ensures terminated ==> world == old(world) && trail == old(trail)
      ensures !terminated ==>
                && timer.State() == (var t := old(timer.State()); if t.armed then t.Started() else t)
                && State() == Process(old(currentMode), duration, timer.State())
                && world == old(world).(duration := Some(duration))
                && trail == old(trail) + [world]
    {
      remainingDuration := duration;
      if (timer.interval > 0 || timer.hasCallback) && timer.joinable {
        return true;
      }
      var _ := timer.Start();
      WriteDuration(remainingDuration);
      return false;
    }

    method StopModeTimer()
      modifies `remainingDuration, `world, `trail, timer`clear
      ensures State() == Process(old(currentMode), 0, old(timer.State()).Stopped())
      ensures world == old(world).(duration := Some(0)) && trail == old(trail) + [world]
    {
      remainingDuration := 0;
      timer.Stop();
      WriteDuration(remainingDuration);
    }

    /** The first half of a mode change: the mode in memory, the timer and the stored duration. */
    method SwitchTo(newMode: string, duration: int) returns (terminated: bool)
      requires Recognised(newMode)
      modifies this, timer
      ensures terminated <==> Timed(Request(newMode, duration)) && old(timer.State().armed && timer.joinable)
      ensures terminated ==> world == old(world) && trail == old(trail)
      ensures !terminated ==>
                && currentMode == Target(Request(newMode, duration))
                && remainingDuration == Countdown(Request(newMode, duration), true)
                && timer.State() == (if !Timed(Request(newMode, duration)) then old(timer.State()).Stopped()
                                     else if old(timer.State().armed) then old(timer.State()).Started()
                                     else old(timer.State()))
                && world == old(world).(duration := Some(remainingDuration))
                && trail == old(trail) + [world]
    {
      terminated := false;
      if newMode != MODE_NORMAL && duration != 0 {
        currentMode := newMode;
        if duration < 0 {
          StopModeTimer();
        } else {
          terminated := StartModeTimer(duration);
        }
      } else {
        currentMode := MODE_NORMAL;
        StopModeTimer();
      }
    }

    /** The second half of a mode change: the bus call, the marker file and the two settings. */
    method AnnounceAndStore(busOk: bool)
      modifies this, timer
      ensures State() == if busOk then old(State())
                         else Process(MODE_NORMAL, 0, old(timer.State()).Stopped())
      ensures world == World(Some(currentMode), Some(remainingDuration), currentMode == MODE_WAREHOUSE,
                             if busOk then Some(currentMode) else old(world.daemon))
      ensures trail == old(trail) + Announcements(old(world), currentMode, remainingDuration, busOk)
    {
      if busOk {
        world := world.(daemon := Some(currentMode));
        trail := trail + [world];
      } else {
        StopModeTimer();
        currentMode := MODE_NORMAL;
      }
      WriteMarker(currentMode == MODE_WAREHOUSE);
      WriteMode(currentMode);
      WriteDuration(remainingDuration);
    }

    /** Both halves, for a request that is not ignored. */
    method ChangeMode(req: Request, busOk: bool) returns (terminated: bool)
      requires !Ignored(currentMode, req)
      modifies this, timer
      ensures Follows(AfterSetMode(old(State()), old(world), req, busOk), terminated)
    {
      terminated := SwitchTo(req.mode, req.duration);
      if !terminated {
        AnnounceAndStore(busOk);
        TrailInTwoHalves(old(world), req, busOk);
      }
    }

    /** `reported` is the caller's success flag, which an empty mode leaves as it was. */
    method SetMode(req: Request, busOk: bool, reported: bool) returns (success: bool, terminated: bool)
      modifies this, timer
      ensures Follows(AfterSetMode(old(State()), old(world), req, busOk), terminated)
      ensures !terminated ==> success == if req.mode == "" then reported else Recognised(req.mode)
    {
      var changeMode := true;
      var newMode, duration := req.mode, req.duration;
      terminated := false;
      if newMode == "" {
        return reported, false;
      }
      if newMode != MODE_NORMAL && newMode != MODE_WAREHOUSE && newMode != MODE_EAS {
        return false, false;
      }

      if currentMode == MODE_NORMAL && (duration == 0 || (duration != 0 && newMode == MODE_NORMAL)) {
        changeMode := false;
      }

      if changeMode {
        terminated := ChangeMode(req, busOk);
      }
      success := true;
    }

    /** The timer's callback; `terminated` also covers detach() on a handle that is not joinable. */
    method UpdateDuration(busOk: bool) returns (terminated: bool)
      modifies this, timer
      ensures Follows(AfterCallback(old(State()), old(world), busOk), terminated)
    {
      terminated := false;
      if remainingDuration > 0 {
        remainingDuration := remainingDuration - 1;
      } else {
        timer.Stop();
        if !timer.joinable {
          return true;
        }
        timer.Detach();
        var _, gone := SetMode(Request(MODE_NORMAL, 0), busOk, false);
        if gone {
          return true;
        }
      }
      WriteDuration(remainingDuration);
    }

    /** What the thread does between two sleeps: it leaves when the flag is raised before or after the callback. */
    method WakeUp(busOk: bool) returns (terminated: bool)
      requires timer.tickers > 0
      modifies this, timer
      ensures Follows(AfterWake(old(State()), old(world), busOk), terminated)
    {
      if timer.clear {
        timer.RetireTicker();
        return false;
      }
      terminated := UpdateDuration(busOk);
      if !terminated && timer.clear {
        timer.RetireTicker();
      }
    }

    /**
     * The thread function, left alone until it returns: it runs one callback for every second that
     * remains and one more, and leaves the mode NORMAL and no thread behind.
     */
    method TimerFunction(busOk: bool) returns (callbacks: nat)
      requires UpOk(State(), world) && timer.State().Ticking()
      modifies this, timer
      ensures callbacks == old(remainingDuration) + 1
      ensures UpOk(State(), world) && currentMode == MODE_NORMAL
      ensures timer.State() == Timer(true, true, false, 0, old(timer.started), old(timer.expired) + 1)
    {
      callbacks := 0;
      while !timer.clear
        invariant UpOk(State(), world)
        invariant timer.started == old(timer.started)
        invariant !timer.clear ==>
                    && callbacks + remainingDuration == old(remainingDuration)
                    && timer.State() == old(timer.State())
        invariant timer.clear ==>
                    && callbacks == old(remainingDuration) + 1
                    && currentMode == MODE_NORMAL
                    && timer.State() == Timer(true, true, false, 0, old(timer.started), old(timer.expired) + 1)
        decreases !timer.clear, remainingDuration
      {
        WakeKeepsConsistency(State(), world, busOk);
        var _ := WakeUp(busOk);
        callbacks := callbacks + 1;
      }
    }

    method Configure(busOk: bool) returns (terminated: bool)
      modifies this, timer
      ensures Follows(AfterConfigure(old(State()), old(world), busOk), terminated)
    {
      timer.SetInterval(MODE_TIMER_UPDATE_INTERVAL);
      terminated := false;
      if world.mode.None? && currentMode == "" {
        var _, gone := SetMode(Request(MODE_NORMAL, -1), busOk, false);
        terminated := gone;
      } else if currentMode == "" {
        var _, gone := SetMode(Request(world.mode.value, world.duration.GetOr(0)), busOk, false);
        terminated := gone;
      }
    }
  }
}
