/**
 * The periodic timer behind the operating mode (plugin/cTimer.cpp).
 *
 * `armed` says that start() gets past its guard: an interval or a callback was set.
 * `joinable` is the state of the std::thread handle. The threads themselves are counted in
 * `tickers`: a thread keeps living after Stop() until it wakes up and sees the cleared flag.
 * `started` and `expired` count the countdowns begun and the countdowns that ran out.
 */
module ModeTimer {

  datatype Timer = Timer(armed: bool, clear: bool, joinable: bool, tickers: nat, started: nat, expired: nat) {

    /** What the handle and flag protocol guarantees from Configure on. */
    ghost predicate Coherent() {
      && armed
      && tickers <= 1
      && (tickers == 1 ==> joinable)
      && (!clear ==> tickers == 1)
      && started == expired + (if joinable then 1 else 0)
    }

    ghost predicate Ticking() {
      !clear && joinable && tickers == 1
    }

    function Armed(): Timer {
      this.(armed := true)
    }

    function Stopped(): Timer {
      this.(clear := true)
    }

    function Started(): Timer {
      this.(clear := false, joinable := true, tickers := tickers + 1, started := started + 1)
    }

    function Detached(): Timer {
      this.(joinable := false, expired := expired + 1)
    }

    function TickerGone(): Timer
      requires tickers > 0
    {
      this.(tickers := tickers - 1)
    }
  }

  const FRESH_TIMER := Timer(false, false, false, 0, 0, 0)

  class CTimer {
    var clear: bool
    var interval: int
    var hasCallback: bool
    var joinable: bool
    ghost var tickers: nat
    ghost var started: nat
    ghost var expired: nat

    ghost function State(): Timer
      reads this
    {
      Timer(interval > 0 || hasCallback, clear, joinable, tickers, started, expired)
    }

    constructor ()
      ensures State() == FRESH_TIMER && interval == 0 && !hasCallback
    {
      clear, interval, hasCallback, joinable := false, 0, false, false;
      tickers, started, expired := 0, 0, 0;
    }

    method SetInterval(val: int)
      modifies `hasCallback, `interval
      ensures hasCallback && interval == val
      ensures State() == old(State()).Armed()
    {
      hasCallback := true;
      interval := val;
    }

    /** A new thread is move-assigned to the handle, which must not be joinable then. */
    method Start() returns (ok: bool)
      requires interval > 0 || hasCallback ==> !joinable
      modifies `clear, `joinable, `tickers, `started
      ensures ok <==> interval > 0 || hasCallback
      ensures State() == if ok then old(State()).Started() else old(State())
    {
      if interval <= 0 && !hasCallback {
        return false;
      }
      clear := false;
      joinable, tickers, started := true, tickers + 1, started + 1;
      return true;
    }

    method Stop()
      modifies `clear
      ensures State() == old(State()).Stopped()
    {
      clear := true;
    }

    /** Detaching a handle that is not joinable would throw. */
    method Detach()
      requires joinable
      modifies `joinable, `expired
      ensures State() == old(State()).Detached()
    {
      joinable := false;
      expired := expired + 1;
    }

    /** A thread returns from its thread function. */
    ghost method RetireTicker()
      requires tickers > 0
      modifies `tickers
      ensures State() == old(State()).TickerGone()
    {
      tickers := tickers - 1;
    }
  }
}
