/**
 * The operating-mode protocol on values: SetMode, updateDuration and Configure
 * (plugin/SystemServicesImplementation.cpp) over runs with bus failures, crashes between any two
 * external writes, process terminations and restarts.
 */
module ModeProtocol {
  import opened Wrappers
  import opened ModeTimer

  const MODE_NORMAL := "NORMAL"
  const MODE_EAS := "EAS"
  const MODE_WAREHOUSE := "WAREHOUSE"

  /** What outlives the process: the two settings, the warehouse marker file, the daemon's mode. */
  datatype World = World(mode: Option<string>, duration: Option<int>, marker: bool, daemon: Option<string>)

  datatype Process = Process(mode: string, remaining: int, timer: Timer)

  datatype Request = Request(mode: string, duration: int)

  /**
   * The effect of one operation: the new process state and every world it passed through, in
   * order; or the end of the process, when std::thread is assigned over a joinable handle.
   */
  datatype Outcome = Returned(process: Process, trail: seq<World>) | Terminated

  const FRESH_PROCESS := Process("", 0, FRESH_TIMER)

  predicate Recognised(mode: string) {
    mode == MODE_NORMAL || mode == MODE_WAREHOUSE || mode == MODE_EAS
  }

  /** The request leaves the current mode alone: it is invalid, or asks NORMAL for NORMAL. */
  predicate Ignored(current: string, req: Request) {
    || !Recognised(req.mode)
    || (current == MODE_NORMAL && (req.duration == 0 || req.mode == MODE_NORMAL))
  }

  /** The request starts a countdown. */
  predicate Timed(req: Request) {
    Recognised(req.mode) && req.mode != MODE_NORMAL && req.duration > 0
  }

  /** The mode asked for from the daemon; a zero duration turns any request into one for NORMAL. */
  function Target(req: Request): string {
    if req.duration == 0 then MODE_NORMAL else req.mode
  }

  function Reached(req: Request, busOk: bool): string {
    if busOk then Target(req) else MODE_NORMAL
  }

  function Countdown(req: Request, busOk: bool): int {
    if busOk && Timed(req) then req.duration else 0
  }

  function Final(w: World, trail: seq<World>): World {
    if trail == [] then w else trail[|trail| - 1]
  }

  /** The world after the first k of the writes. */
  function WorldAt(w: World, trail: seq<World>, k: nat): World {
    if k == 0 then w else if k <= |trail| then trail[k - 1] else Final(w, trail)
  }

  function SetModeTrail(w: World, req: Request, busOk: bool): seq<World> {
    var timed := w.(duration := Some(if Timed(req) then req.duration else 0));
    var called := if busOk then timed.(daemon := Some(Target(req))) else timed.(duration := Some(0));
    var marked := called.(marker := Reached(req, busOk) == MODE_WAREHOUSE);
    var named := marked.(mode := Some(Reached(req, busOk)));
    [timed, called, marked, named, named.(duration := Some(Countdown(req, busOk)))]
  }

  function AfterSetMode(p: Process, w: World, req: Request, busOk: bool): Outcome {
    if Ignored(p.mode, req) then Returned(p, [])
    else if Timed(req) && p.timer.armed && p.timer.joinable then Terminated
    else
      var timer := if !Timed(req) then p.timer.Stopped() else if p.timer.armed then p.timer.Started() else p.timer;
      Returned(Process(Reached(req, busOk), Countdown(req, busOk), if busOk then timer else timer.Stopped()),
               SetModeTrail(w, req, busOk))
  }

  /** One timer callback. Detaching a handle that is not joinable throws, which ends the process. */
  function AfterCallback(p: Process, w: World, busOk: bool): Outcome {
    if p.remaining > 0 then
      Returned(p.(remaining := p.remaining - 1), [w.(duration := Some(p.remaining - 1))])
    else if !p.timer.joinable then Terminated
    else
      match AfterSetMode(p.(timer := p.timer.Stopped().Detached()), w, Request(MODE_NORMAL, 0), busOk)
      case Terminated => Terminated
      case Returned(q, trail) => Returned(q, trail + [Final(w, trail).(duration := Some(q.remaining))])
  }

  /** A ticker wakes from its sleep: it leaves when the flag is set before or after the callback. */
  function AfterWake(p: Process, w: World, busOk: bool): Outcome
    requires p.timer.tickers > 0
  {
    if p.timer.clear then Returned(p.(timer := p.timer.TickerGone()), [])
    else
      match AfterCallback(p, w, busOk)
      case Terminated => Terminated
      case Returned(q, trail) =>
        Returned(if q.timer.clear && q.timer.tickers > 0 then q.(timer := q.timer.TickerGone()) else q, trail)
  }

  /** The request Configure makes on behalf of the stored settings; a missing number reads as 0. */
  function BootRequest(w: World): Request {
    match w.mode
    case None => Request(MODE_NORMAL, -1)
    case Some(mode) => Request(mode, w.duration.GetOr(0))
  }

  function AfterConfigure(p: Process, w: World, busOk: bool): Outcome {
    var armed := p.(timer := p.timer.Armed());
    if p.mode == "" then AfterSetMode(armed, w, BootRequest(w), busOk) else Returned(armed, [])
  }

  // ---------------------------------------------------------------------------------------------
  // Runs
  // ---------------------------------------------------------------------------------------------

  datatype System = Down(world: World) | Up(process: Process, world: World)

  datatype Op = Boot | Ask(req: Request) | Wake

  /** An operation, whether the bus call succeeds, and after how many writes the process dies, if it does. */
  datatype Event = Event(op: Op, busOk: bool, crash: Option<nat>)

  function Conclude(o: Outcome, w: World, crash: Option<nat>): System {
    match o
    case Terminated => Down(w)
    case Returned(p, trail) =>
      if crash.Some? then Down(WorldAt(w, trail, crash.value)) else Up(p, Final(w, trail))
  }

  /** Events that are not possible in a state leave it unchanged. */
  function Step(s: System, e: Event): System {
    match (s, e.op)
    case (Down(w), Boot) => Conclude(AfterConfigure(FRESH_PROCESS, w, e.busOk), w, e.crash)
    case (Up(p, w), Ask(req)) => Conclude(AfterSetMode(p, w, req, e.busOk), w, e.crash)
    case (Up(p, w), Wake) =>
      if p.timer.tickers > 0 then Conclude(AfterWake(p, w, e.busOk), w, e.crash) else s
    case (_, _) => s
  }

  function Run(s: System, events: seq<Event>): System
    decreases |events|
  {
    if events == [] then s else Run(Step(s, events[0]), events[1..])
  }

  /** Settings that are absent or that the plugin wrote itself. */
  ghost predicate WorldOk(w: World) {
    && (w.mode.Some? ==> Recognised(w.mode.value))
    && (w.duration.Some? ==> w.duration.value >= 0)
  }

  ghost predicate UpOk(p: Process, w: World) {
    && Recognised(p.mode)
    && p.remaining >= 0
    && p.timer.Coherent()
    && (p.remaining > 0 ==> p.mode != MODE_NORMAL && p.timer.Ticking())
    && (p.mode == MODE_NORMAL ==> p.remaining == 0 && p.timer.clear)
    && w.mode == Some(p.mode)
    && w.duration == Some(p.remaining)
    && (w.marker <==> p.mode == MODE_WAREHOUSE)
  }

  ghost predicate Consistent(s: System) {
    match s
    case Down(w) => WorldOk(w)
    case Up(p, w) => UpOk(p, w)
  }

  ghost predicate AllOk(worlds: seq<World>) {
    forall i :: 0 <= i < |worlds| ==> WorldOk(worlds[i])
  }

  /** The process when Configure makes its request. */
  const BOOTING := FRESH_PROCESS.(timer := FRESH_TIMER.Armed())

  lemma SetModeKeepsConsistency(p: Process, w: World, req: Request, busOk: bool)
    requires WorldOk(w)
    requires UpOk(p, w) || p == BOOTING
    requires p == BOOTING ==> Recognised(req.mode)
    ensures var o := AfterSetMode(p, w, req, busOk);
            o.Returned? ==> UpOk(o.process, Final(w, o.trail)) && AllOk(o.trail)
  {
  }

  lemma WakeKeepsConsistency(p: Process, w: World, busOk: bool)
    requires UpOk(p, w) && p.timer.tickers > 0
    ensures var o := AfterWake(p, w, busOk);
            o.Returned? && UpOk(o.process, Final(w, o.trail)) && AllOk(o.trail)
  {
    if !p.timer.clear && p.remaining == 0 {
      var q := p.(timer := p.timer.Stopped().Detached());
      var trail := SetModeTrail(w, Request(MODE_NORMAL, 0), busOk);
      assert AfterSetMode(q, w, Request(MODE_NORMAL, 0), busOk).trail == trail;
      assert AllOk(trail);
    }
  }

  lemma StepKeepsConsistency(s: System, e: Event)
    requires Consistent(s)
    ensures Consistent(Step(s, e))
  {
    match (s, e.op)
    case (Down(w), Boot) => SetModeKeepsConsistency(BOOTING, w, BootRequest(w), e.busOk);
    case (Up(p, w), Ask(req)) => SetModeKeepsConsistency(p, w, req, e.busOk);
    case (Up(p, w), Wake) =>
      if p.timer.tickers > 0 {
        WakeKeepsConsistency(p, w, e.busOk);
      }
    case (_, _) =>
  }

  /** Every state of every run is consistent, whatever fails, crashes or restarts on the way. */
  lemma {:induction false} RunsStayConsistent(s: System, events: seq<Event>)
    requires Consistent(s)
    ensures Consistent(Run(s, events))
    decreases |events|
  {
    if events != [] {
      StepKeepsConsistency(s, events[0]);
      RunsStayConsistent(Step(s, events[0]), events[1..]);
    }
  }
}
