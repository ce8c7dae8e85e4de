/**
 * The network-standby cache (plugin/SystemServicesImplementation.cpp) against the PowerManager's
 * value, with the notifications that are still under way.
 */
module NetworkStandby {
  import opened Wrappers

  datatype Cache = Cache(valid: bool, mode: bool)

  function AfterGet(c: Cache, answer: Option<bool>): Cache {
    if c.valid || answer.None? then c else Cache(true, answer.value)
  }

  class StandbyCache {
    var modeValid: bool
    var mode: bool

    ghost function State(): Cache
      reads this
    {
      Cache(modeValid, mode)
    }

    constructor ()
      ensures State() == Cache(false, false)
    {
      modeValid, mode := false, false;
    }

    /** `answer` is the PowerManager's, None when the call fails; `was` is what the caller's variable held. */
    method GetNetworkStandbyMode(answer: Option<bool>, was: bool) returns (nwStandby: bool, success: bool)
      modifies this
      ensures State() == AfterGet(old(State()), answer)
      ensures success <==> State().valid
      ensures success ==> nwStandby == mode
    {
      nwStandby := was;
      if modeValid {
        return mode, true;
      }
      match answer
      case Some(value) =>
        nwStandby := value;
        mode := value;
        modeValid := true;
        return nwStandby, true;
      case None =>
        return nwStandby, false;
    }

    method SetNetworkStandbyMode(callOk: bool) returns (success: bool)
      modifies this
      ensures State() == if callOk then old(State()).(valid := false) else old(State())
      ensures success == callOk
    {
      if callOk {
        modeValid := false;
        return true;
      }
      return false;
    }

    method OnNetworkStandbyModeChanged(enabled: bool)
      modifies this
      ensures State() == Cache(true, enabled)
    {
      mode := enabled;
      modeValid := true;
    }
  }

  // ---------------------------------------------------------------------------------------------
  // Runs
  // ---------------------------------------------------------------------------------------------

  /** `pending` are the notifications not yet delivered; `inFlight` the answers not yet stored, by thread. */
  datatype System = System(cache: Cache, actual: bool, pending: seq<bool>, inFlight: map<nat, bool>)

  datatype Step =
    | Get(answered: bool)                // a whole GetNetworkStandbyMode
    | Ask(t: nat)                        // its call to the PowerManager only
    | Store(t: nat)                      // and the assignment of the answer
    | Set(value: bool, callOk: bool)     // SetNetworkStandbyMode
    | Foreign(value: bool)               // another client changes the mode
    | Deliver                            // the next notification arrives

  /** The PowerManager takes a value and notifies a change. */
  function Change(s: System, value: bool): System {
    s.(actual := value, pending := if value == s.actual then s.pending else s.pending + [value])
  }

  function Next(s: System, step: Step): System {
    match step
    case Get(answered) => s.(cache := AfterGet(s.cache, if answered then Some(s.actual) else None))
    case Ask(t) => if s.cache.valid then s else s.(inFlight := s.inFlight[t := s.actual])
    case Store(t) =>
      if t in s.inFlight then s.(cache := Cache(true, s.inFlight[t]), inFlight := s.inFlight - {t}) else s
    case Set(value, callOk) =>
      if callOk then Change(s, value).(cache := s.cache.(valid := false)) else s
    case Foreign(value) => Change(s, value)
    case Deliver =>
      if s.pending == [] then s else s.(cache := Cache(true, s.pending[0]), pending := s.pending[1..])
  }

  /** A valid cache is right once all notifications have arrived, and these end in the actual value. */
  ghost predicate Agrees(s: System) {
    if s.pending == [] then s.cache.valid ==> s.cache.mode == s.actual
    else s.pending[|s.pending| - 1] == s.actual
  }

  ghost function Run(s: System, steps: seq<Step>): System
    decreases |steps|
  {
    if steps == [] then s else Next(Run(s, steps[..|steps| - 1]), steps[|steps| - 1])
  }

  lemma RunAppend(s: System, front: seq<Step>, e: Step)
    ensures Run(s, front + [e]) == Next(Run(s, front), e)
    ensures forall i :: 0 <= i <= |front| ==> (front + [e])[..i] == front[..i]
  {
    assert (front + [e])[..|front|] == front;
  }

  // ---------------------------------------------------------------------------------------------
  // The PowerManager's value
  // ---------------------------------------------------------------------------------------------

  /** The value that a step gives to the PowerManager. */
  function Given(e: Step): Option<bool> {
    match e
    case Set(value, true) => Some(value)
    case Foreign(value) => Some(value)
    case _ => None
  }

  ghost function ValueAfter(value: bool, steps: seq<Step>): bool
    decreases |steps|
  {
    if steps == [] then value
    else Given(steps[|steps| - 1]).GetOr(ValueAfter(value, steps[..|steps| - 1]))
  }

  /** How often the steps change the value. */
  ghost function Flips(value: bool, steps: seq<Step>): nat
    decreases |steps|
  {
    if steps == [] then 0
    else
      var front := steps[..|steps| - 1];
      Flips(value, front) + if ValueAfter(value, steps) != ValueAfter(value, front) then 1 else 0
  }

  lemma OneMoreIsOdd(n: nat)
    ensures (n + 1) % 2 == 1 <==> n % 2 != 1
  {
  }

  lemma {:induction false} OddFlipsChange(value: bool, steps: seq<Step>)
    ensures Flips(value, steps) % 2 == 1 <==> ValueAfter(value, steps) != value
    decreases |steps|
  {
    if steps != [] {
      var front := steps[..|steps| - 1];
      OddFlipsChange(value, front);
      OneMoreIsOdd(Flips(value, front));
    }
  }

  lemma ValueAppend(value: bool, front: seq<Step>, e: Step)
    ensures ValueAfter(value, front + [e]) == Given(e).GetOr(ValueAfter(value, front))
  {
    assert (front + [e])[..|front|] == front;
  }

  lemma StepGives(x: System, e: Step)
    ensures Next(x, e).actual == Given(e).GetOr(x.actual)
  {
  }

  lemma {:induction false} ValueFrom(s: System, steps: seq<Step>, k: nat)
    requires k <= |steps|
    ensures Run(s, steps).actual == ValueAfter(Run(s, steps[..k]).actual, steps[k..])
    decreases |steps|
  {
    if k == |steps| {
      assert steps[..k] == steps;
    } else {
      var front, e := steps[..|steps| - 1], steps[|steps| - 1];
      ValueFrom(s, front, k);
      StepGives(Run(s, front), e);
      ValueAppend(Run(s, steps[..k]).actual, front[k..], e);
      assert front[..k] == steps[..k] && steps[k..] == front[k..] + [e];
    }
  }

  // ---------------------------------------------------------------------------------------------
  // The answers under way
  // ---------------------------------------------------------------------------------------------

  ghost predicate Asks(x: System, e: Step, t: nat) {
    e == Ask(t) && !x.cache.valid
  }

  /** The k-th step is thread t's last call to the PowerManager, and its answer is not yet stored. */
  ghost predicate AskedAt(s: System, steps: seq<Step>, t: nat, k: nat)
    requires k < |steps|
  {
    && Asks(Run(s, steps[..k]), steps[k], t)
    && forall j :: k < j < |steps| ==> steps[j] != Store(t) && !Asks(Run(s, steps[..j]), steps[j], t)
  }

  lemma AskedNow(s: System, front: seq<Step>, e: Step, t: nat)
    ensures AskedAt(s, front + [e], t, |front|) <==> Asks(Run(s, front), e, t)
  {
    assert (front + [e])[..|front|] == front;
  }

  lemma AskedBefore(s: System, front: seq<Step>, e: Step, t: nat, k: nat)
    requires k < |front|
    ensures AskedAt(s, front + [e], t, k) <==>
            AskedAt(s, front, t, k) && e != Store(t) && !Asks(Run(s, front), e, t)
  {
    var steps := front + [e];
    assert steps[..|front|] == front;
    forall j | 0 <= j < |front| ensures steps[j] == front[j] && steps[..j] == front[..j] {
    }
  }

  lemma AskedAtAfterStep(s: System, front: seq<Step>, e: Step, t: nat, k: nat)
    requires k <= |front|
    ensures AskedAt(s, front + [e], t, k) <==>
            var now := Asks(Run(s, front), e, t);
            if k == |front| then now else AskedAt(s, front, t, k) && e != Store(t) && !now
  {
    if k == |front| {
      AskedNow(s, front, e, t);
    } else {
      AskedBefore(s, front, e, t, k);
    }
  }

  lemma AnswerAfterStep(x: System, e: Step, t: nat)
    ensures t in Next(x, e).inFlight <==> Asks(x, e, t) || (t in x.inFlight && e != Store(t))
    ensures t in Next(x, e).inFlight ==> Next(x, e).inFlight[t] == if Asks(x, e, t) then x.actual else x.inFlight[t]
  {
  }

  /** An answer is under way exactly after an unstored call, and is the value at that call. */
  lemma {:induction false} AnswersAreAsked(s: System, steps: seq<Step>, t: nat)
    requires s.inFlight == map[]
    ensures t in Run(s, steps).inFlight ==> exists k :: 0 <= k < |steps| && AskedAt(s, steps, t, k)
    ensures forall k :: 0 <= k < |steps| && AskedAt(s, steps, t, k) ==>
              t in Run(s, steps).inFlight && Run(s, steps).inFlight[t] == Run(s, steps[..k]).actual
    decreases |steps|
  {
    if steps != [] {
      var front, e := steps[..|steps| - 1], steps[|steps| - 1];
      assert steps == front + [e];
      AnswersAreAsked(s, front, t);
      RunAppend(s, front, e);
      AnswerAfterStep(Run(s, front), e, t);
      forall k | 0 <= k < |steps| {
        AskedAtAfterStep(s, front, e, t, k);
      }
      assert steps[..|front|] == front;
      if Asks(Run(s, front), e, t) {
        assert AskedAt(s, steps, t, |front|);
      }
    }
  }

  // ---------------------------------------------------------------------------------------------
  // Agreement
  // ---------------------------------------------------------------------------------------------

  ghost predicate LastPendingIsTrue(s: System) {
    s.pending != [] ==> s.pending[|s.pending| - 1] == s.actual
  }

  /** The step stores an answer, changes the value, or empties the cache. */
  ghost predicate Settles(x: System, e: Step) {
    match e
    case Store(t) => t in x.inFlight
    case Set(_, callOk) => callOk
    case Foreign(value) => value != x.actual
    case _ => false
  }

  lemma AgreementAfterStep(x: System, e: Step)
    requires LastPendingIsTrue(x)
    ensures LastPendingIsTrue(Next(x, e))
    ensures Agrees(Next(x, e)) <==>
            if e.Store? && e.t in x.inFlight then x.pending == [] ==> x.inFlight[e.t] == x.actual
            else Agrees(x) || Settles(x, e)
  {
  }

  ghost predicate Atomic(steps: seq<Step>) {
    forall i :: 0 <= i < |steps| ==> !steps[i].Ask? && !steps[i].Store?
  }

  /** With each handler atomic, every reachable state agrees. */
  lemma {:induction false} AtomicHandlersAgree(s: System, steps: seq<Step>)
    requires Agrees(s) && Atomic(steps)
    ensures Agrees(Run(s, steps))
    decreases |steps|
  {
    if steps != [] {
      var front := steps[..|steps| - 1];
      AtomicHandlersAgree(s, front);
      AgreementAfterStep(Run(s, front), steps[|steps| - 1]);
    }
  }

  /** Thread t's answer, stored after these steps, is no longer true and no notification will correct it. */
  ghost predicate StaleAfter(s: System, steps: seq<Step>, t: nat) {
    && Run(s, steps).pending == []
    && exists k :: 0 <= k < |steps| && AskedAt(s, steps, t, k) && Flips(Run(s, steps[..k]).actual, steps[k..]) % 2 == 1
  }

  lemma StaleMeans(s: System, steps: seq<Step>, t: nat)
    requires s.inFlight == map[]
    ensures var x := Run(s, steps);
            StaleAfter(s, steps, t) <==> x.pending == [] && t in x.inFlight && x.inFlight[t] != x.actual
  {
    AnswersAreAsked(s, steps, t);
    forall k | 0 <= k < |steps| && AskedAt(s, steps, t, k)
      ensures Flips(Run(s, steps[..k]).actual, steps[k..]) % 2 == 1 <==>
              Run(s, steps).inFlight[t] != Run(s, steps).actual
    {
      ValueFrom(s, steps, k);
      OddFlipsChange(Run(s, steps[..k]).actual, steps[k..]);
    }
  }

  /** The i-th step stores a stale answer, and nothing has settled the matter since. */
  ghost predicate LostAt(s: System, steps: seq<Step>, i: nat)
    requires i < |steps|
  {
    && steps[i].Store?
    && StaleAfter(s, steps[..i], steps[i].t)
    && forall j :: i < j < |steps| ==> !Settles(Run(s, steps[..j]), steps[j])
  }

  lemma LostAtAfterStep(s: System, front: seq<Step>, e: Step, i: nat)
    requires i <= |front|
    ensures LostAt(s, front + [e], i) <==>
            if i == |front| then e.Store? && StaleAfter(s, front, e.t)
            else LostAt(s, front, i) && !Settles(Run(s, front), e)
  {
    RunAppend(s, front, e);
    assert front[..|front|] == front;
    assert forall j :: 0 <= j < |front| ==> (front + [e])[j] == front[j];
  }

  ghost predicate Lost(s: System, steps: seq<Step>) {
    exists i :: 0 <= i < |steps| && LostAt(s, steps, i)
  }

  lemma LostAfterStep(s: System, front: seq<Step>, e: Step)
    ensures Lost(s, front + [e]) <==>
            (e.Store? && StaleAfter(s, front, e.t)) || (Lost(s, front) && !Settles(Run(s, front), e))
  {
    forall i | 0 <= i <= |front| {
      LostAtAfterStep(s, front, e, i);
    }
    assert LostAt(s, front + [e], |front|) <==> e.Store? && StaleAfter(s, front, e.t);
  }

  /**
   * In every run the cache is wrong with nothing left to correct it exactly when a get stored its
   * answer after an odd number of changes since its call, all of them notified by then, and since
   * that store there was no other one, no change and no successful set.
   */
  lemma {:induction false} AgreementLostExactly(s: System, steps: seq<Step>)
    requires Agrees(s) && s.inFlight == map[]
    ensures Agrees(Run(s, steps)) <==> !Lost(s, steps)
    ensures LastPendingIsTrue(Run(s, steps))
    decreases |steps|
  {
    if steps != [] {
      var front, e := steps[..|steps| - 1], steps[|steps| - 1];
      assert steps == front + [e];
      AgreementLostExactly(s, front);
      AgreementAfterStep(Run(s, front), e);
      LostAfterStep(s, front, e);
      if e.Store? {
        StaleMeans(s, front, e.t);
      }
    }
  }

  ghost predicate OnlyAsks(steps: seq<Step>) {
    forall i :: 0 <= i < |steps| ==> steps[i].Get? || steps[i].Ask?
  }

  lemma {:induction false} ValidCacheStays(s: System, steps: seq<Step>)
    requires s.cache.valid && OnlyAsks(steps)
    ensures Run(s, steps) == s
    decreases |steps|
  {
    if steps != [] {
      ValidCacheStays(s, steps[..|steps| - 1]);
    }
  }

  /**
   * A get that has to ask, or the last notification under way, leaves the PowerManager's value in the
   * cache, and later gets return it without asking.
   */
  lemma FilledCacheAnswers(s: System, e: Step, gets: seq<Step>)
    requires Agrees(s) && OnlyAsks(gets)
    requires (e == Get(true) && !s.cache.valid) || (e == Deliver && |s.pending| == 1)
    ensures Run(Next(s, e), gets).cache == Cache(true, s.actual)
  {
    ValidCacheStays(Next(s, e), gets);
  }

  /** A get whose call fails fills nothing, and a successful set empties the cache: the next get asks. */
  lemma EmptyCacheAsks(s: System, e: Step)
    requires (e == Get(false) && !s.cache.valid) || (e.Set? && e.callOk)
    ensures !Next(s, e).cache.valid
    ensures Next(Next(s, e), Get(true)).cache == Cache(true, Next(s, e).actual)
  {
  }

  /**
   * Without that atomicity a change notified between a get's call and its assignment is overwritten,
   * and however often the mode is read afterwards, the cache keeps answering with the old value.
   */
  lemma SplitGetLosesChange(s: System, t: nat, gets: seq<Step>)
    requires !s.cache.valid && s.pending == [] && OnlyAsks(gets)
    ensures var stale := Run(Next(Next(Next(Next(s, Ask(t)), Foreign(!s.actual)), Deliver), Store(t)), gets);
            stale.cache == Cache(true, s.actual) && stale.actual == !s.actual && stale.pending == []
  {
    var s4 := Next(Next(Next(Next(s, Ask(t)), Foreign(!s.actual)), Deliver), Store(t));
    ValidCacheStays(s4, gets);
  }
}
