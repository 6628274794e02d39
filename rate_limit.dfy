/**
  The two timing helpers at the end of script.js, `throttle(func, limit)` and
  `debounce(func, wait, immediate)`. Each returns a wrapper that keeps one
  piece of mutable state in a closure: `inThrottle` for the throttle, the
  pending `timeout` for the debounce.

  Time does not pass here: the expiry of the timer a wrapper set is an event of
  its own, `TimerExpired`, delivered by the caller. A wrapper's behaviour over
  a run of events is given by a step function and a count of how often `func`
  ran; the classes are proved against the step functions.
*/
module RateLimit {

  /** What reaches a wrapper: a call of the wrapper, or the expiry of the timer it set. */
  datatype Event = Call | TimerExpired

  /** A wrapper's flag after one event, and whether `func` ran during it. */
  datatype Step = Step(flag: bool, ran: bool)

  /** How many timer expiries a run of events holds. */
  function Expiries(trace: seq<Event>): (n: nat)
    ensures n <= |trace|
  {
    if |trace| == 0 then 0 else (if trace[0] == TimerExpired then 1 else 0) + Expiries(trace[1..])
  }

  /** A run of n calls with no expiry between them: a burst. */
  function Burst(n: nat): (trace: seq<Event>)
    ensures |trace| == n && Expiries(trace) == 0
  {
    if n == 0 then [] else [Call] + Burst(n - 1)
  }

  // ---------------------------------------------------------------- throttle

  /**
    The throttled wrapper on one event. A call runs `func` only when not
    already throttled, and leaves it throttled; the expiry of the `limit` timer
    lifts the throttle.
  */
  function ThrottleStep(inThrottle: bool, e: Event): (s: Step)
    ensures s.ran ==> e == Call && !inThrottle
  {
    match e
    case Call => if inThrottle then Step(true, false) else Step(true, true)
    case TimerExpired => Step(false, false)
  }

  /** How often `func` runs over a run of events, starting from the given `inThrottle`: only calls run it. */
  function ThrottleRuns(inThrottle: bool, trace: seq<Event>): (runs: nat)
    ensures runs + Expiries(trace) <= |trace|
    decreases |trace|
  {
    if |trace| == 0 then 0
    else
      var s := ThrottleStep(inThrottle, trace[0]);
      (if s.ran then 1 else 0) + ThrottleRuns(s.flag, trace[1..])
  }

  /** At most one run per window: never more runs than expiries, plus one if not throttled at the start. */
  lemma {:induction false} ThrottleRunsOncePerWindow(inThrottle: bool, trace: seq<Event>)
    ensures ThrottleRuns(inThrottle, trace) <= (if inThrottle then 0 else 1) + Expiries(trace)
    decreases |trace|
  {
    if |trace| > 0 {
      var s := ThrottleStep(inThrottle, trace[0]);
      ThrottleRunsOncePerWindow(s.flag, trace[1..]);
    }
  }

  /** A burst reaching an unthrottled wrapper runs `func` once, on its first call; a throttled one not at all. */
  lemma {:induction false} ThrottleBurst(inThrottle: bool, n: nat)
    ensures ThrottleRuns(inThrottle, Burst(n)) == if !inThrottle && n > 0 then 1 else 0
    decreases n
  {
    if n > 0 {
      ThrottleBurst(true, n - 1);
    }
  }

  class Throttle {
    /** The closure variable `inThrottle`. */
    var inThrottle: bool
    /** The `setTimeout` that clears `inThrottle` has been set and has not fired. */
    var timerPending: bool

    /** A timer is pending exactly while the wrapper is throttled. */
    ghost predicate Valid()
      reads this
    {
      timerPending == inThrottle
    }

    /** The wrapper as `throttle` returns it: `inThrottle` is undefined, so not throttled. */
    constructor ()
      ensures Valid() && !inThrottle
    {
      inThrottle := false;
      timerPending := false;
    }

    /** A call of the wrapper; `ran` says whether `func` ran. */
    method Invoke() returns (ran: bool)
      requires Valid()
      modifies this
      ensures Valid()
      ensures Step(inThrottle, ran) == ThrottleStep(old(inThrottle), Call)
    {
      ran := false;
      if !inThrottle {
        ran := true;
        inThrottle := true;
        timerPending := true;
      }
    }

    /** The `limit` timer fires. */
    method Expire()
      requires Valid() && timerPending
      modifies this
      ensures Valid()
      ensures Step(inThrottle, false) == ThrottleStep(old(inThrottle), TimerExpired)
    {
      timerPending := false;
      inThrottle := false;
    }
  }

  // ---------------------------------------------------------------- debounce

  /**
    The debounced wrapper on one event; the flag says a timer is set
    (`timeout` holds one). A call runs `func` at once only in `immediate`
    mode with no timer set, and always (re)sets the timer. The timer's expiry
    clears it and, outside `immediate` mode, runs `func`. With no timer set
    nothing can expire.
  */
  function DebounceStep(immediate: bool, armed: bool, e: Event): (s: Step)
    ensures e == Call ==> s.flag
    ensures e == TimerExpired ==> !s.flag
  {
    match e
    case Call => Step(true, immediate && !armed)
    case TimerExpired => if armed then Step(false, !immediate) else Step(false, false)
  }

  /**
    How often `func` runs over a run of events, starting from the given timer
    state: only calls run it in `immediate` mode, only expiries otherwise.
  */
  function DebounceRuns(immediate: bool, armed: bool, trace: seq<Event>): (runs: nat)
    ensures immediate ==> runs + Expiries(trace) <= |trace|
    ensures !immediate ==> runs <= Expiries(trace)
    decreases |trace|
  {
    if |trace| == 0 then 0
    else
      var s := DebounceStep(immediate, armed, trace[0]);
      (if s.ran then 1 else 0) + DebounceRuns(immediate, s.flag, trace[1..])
  }

  /** Never more runs than expiries, plus one for the leading call of an idle `immediate` wrapper. */
  lemma {:induction false} DebounceRunsOncePerQuietPeriod(immediate: bool, armed: bool, trace: seq<Event>)
    ensures DebounceRuns(immediate, armed, trace) <= (if immediate && !armed then 1 else 0) + Expiries(trace)
    decreases |trace|
  {
    if |trace| > 0 {
      var s := DebounceStep(immediate, armed, trace[0]);
      DebounceRunsOncePerQuietPeriod(immediate, s.flag, trace[1..]);
    }
  }

  /** Within a burst an idle wrapper runs `func` once in `immediate` mode (on the first call) and never otherwise. */
  lemma {:induction false} DebounceBurst(immediate: bool, armed: bool, n: nat)
    ensures DebounceRuns(immediate, armed, Burst(n)) == if immediate && !armed && n > 0 then 1 else 0
    decreases n
  {
    if n > 0 {
      DebounceBurst(immediate, true, n - 1);
    }
  }

  /**
    A burst reaching an idle wrapper, followed by the quiet period that lets
    its timer expire, runs `func` exactly once in either mode: on the leading
    edge in `immediate` mode, on the trailing edge otherwise.
  */
  lemma DebounceBurstThenQuiet(immediate: bool, n: nat)
    requires n > 0
    ensures DebounceRuns(immediate, false, Burst(n) + [TimerExpired]) == 1
  {
    DebounceRunsAppend(immediate, false, Burst(n), [TimerExpired]);
    DebounceBurst(immediate, false, n);
    BurstLeavesTimerSet(immediate, n);
  }

  /** The timer state after a run of events. */
  function DebounceArmedAfter(immediate: bool, armed: bool, trace: seq<Event>): bool
    decreases |trace|
  {
    if |trace| == 0 then armed
    else DebounceArmedAfter(immediate, DebounceStep(immediate, armed, trace[0]).flag, trace[1..])
  }

  /** After a burst of at least one call the timer is set. */
  lemma {:induction false} BurstLeavesTimerSet(immediate: bool, n: nat)
    requires n > 0
    ensures DebounceArmedAfter(immediate, false, Burst(n))
  {
    BurstKeepsTimerSet(immediate, n - 1);
  }

  /** A burst that starts with the timer set leaves it set. */
  lemma {:induction false} BurstKeepsTimerSet(immediate: bool, n: nat)
    ensures DebounceArmedAfter(immediate, true, Burst(n))
    decreases n
  {
    if n > 0 {
      BurstKeepsTimerSet(immediate, n - 1);
    }
  }

  /** The runs over two consecutive stretches of events add up. */
  lemma {:induction false} DebounceRunsAppend(immediate: bool, armed: bool, first: seq<Event>, second: seq<Event>)
    ensures DebounceRuns(immediate, armed, first + second)
      == DebounceRuns(immediate, armed, first) + DebounceRuns(immediate, DebounceArmedAfter(immediate, armed, first), second)
    decreases |first|
  {
    if |first| > 0 {
      assert (first + second)[1..] == first[1..] + second;
      DebounceRunsAppend(immediate, DebounceStep(immediate, armed, first[0]).flag, first[1..], second);
    } else {
      assert first + second == second;
    }
  }

  /** The default of `debounce`'s `immediate` argument. */
  const DefaultImmediate := true

  class Debounce {
    /** The `immediate` argument: run on the leading edge rather than the trailing one. */
    const immediate: bool
    /** The closure variable `timeout` holds a timer that has not fired. */
    var armed: bool

    /** The wrapper as `debounce` returns it: `timeout` is undefined. A call without `immediate` passes `DefaultImmediate`. */
    constructor (immediate: bool)
      ensures this.immediate == immediate && !armed
    {
      this.immediate := immediate;
      armed := false;
    }

    /** A call of the wrapper: clear any timer, set a new one, and run `func` now if that is due. */
    method Invoke() returns (ran: bool)
      modifies this`armed
      ensures Step(armed, ran) == DebounceStep(immediate, old(armed), Call)
    {
      var callNow := immediate && !armed;
      armed := true;
      ran := callNow;
    }

    /** The `wait` timer fires (`later`). */
    method Expire() returns (ran: bool)
      requires armed
      modifies this`armed
      ensures Step(armed, ran) == DebounceStep(immediate, old(armed), TimerExpired)
    {
      armed := false;
      ran := !immediate;
    }
  }
}
