/**
 * runFlusher (internal/scan/flush.go:23-75) against recordResultLocked (internal/scan/scanner.go:446-450): when a
 * flush is due, something is always there to start it.
 */
module Flusher {
  import opened Prelude

  const MINUTE: int := 60_000_000_000

  /** New replaces non-positive settings (internal/scan/scanner.go:114-119). */
  datatype Config = Config(flushInterval: int, flushSize: int)
  {
    predicate Valid() {
      flushInterval > 0 && flushSize > 0
    }
  }

  /** The local variables of runFlusher: backoff, and whether retry and wake are non-nil channels. */
  datatype Timing = Timing(backoff: int, retry: bool, wake: bool)

  const CALM := Timing(0, false, true)

  function Backoff(t: Timing, interval: int): int {
    if t.backoff == 0 then Min(interval, MINUTE) else Min(t.backoff * 2, MINUTE)
  }

  /** scheduleRetry. */
  function Scheduled(t: Timing, interval: int): Timing {
    Timing(Backoff(t, interval), true, false)
  }

  class RetryState {
    var backoff: int
    var retry: bool
    var wake: bool
    const flushInterval: int

    ghost function State(): Timing
      reads this
    {
      Timing(backoff, retry, wake)
    }

    constructor (interval: int)
      ensures State() == CALM && flushInterval == interval
    {
      backoff, retry, wake := 0, false, true;
      flushInterval := interval;
    }

    method ResetBackoff()
      modifies this
      ensures State() == CALM
    {
      backoff := 0;
      retry := false;
      wake := true;
    }

    method ScheduleRetry()
      modifies this
      ensures State() == Scheduled(old(State()), flushInterval)
    {
      if backoff == 0 {
        backoff := Min(flushInterval, MINUTE);
      } else {
        backoff := Min(backoff * 2, MINUTE);
      }
      retry := true;
      wake := false;
    }

    /** What each case of the select does once flush has returned ok. */
    method AfterFlush(byRetry: bool, ok: bool)
      modifies this
      ensures State() == Finished(old(State()), byRetry, ok, flushInterval)
    {
      if byRetry && ok {
        ResetBackoff();
      } else if !ok {
        ScheduleRetry();
      }
    }
  }

  function Finished(t: Timing, byRetry: bool, ok: bool, interval: int): Timing {
    if !ok then Scheduled(t, interval) else if byRetry then CALM else t
  }

  // ---------- The flusher and the producers ----------

  /** Where the flusher's goroutine is: in the select, in flush before or after it took the buffer, or past requeue. */
  datatype Phase = Idle | Called(byRetry: bool) | Submitting(byRetry: bool, inFlight: nat) | Requeued(byRetry: bool)

  /**
   * buffered is len(s.checks); token the one-slot channel flushReady; timer whether the retry timer runs or has fired
   * unread; failures counts the failed flushes since the last successful one.
   */
  datatype State = State(buffered: nat, token: bool, phase: Phase, timing: Timing, timer: bool, failures: nat)

  const START := State(0, false, Idle, CALM, false, 0)

  datatype Event =
    | Append
    | Ticker
    | Wake
    | Retry
    | TakeBuffer
    | Requeue
    | ReturnFalse
    | ReturnTrue

  predicate Enabled(s: State, e: Event) {
    match e
    case Append => true
    case Ticker => s.phase.Idle?
    case Wake => s.phase.Idle? && s.timing.wake && s.token
    case Retry => s.phase.Idle? && s.timing.retry && s.timer
    case TakeBuffer => s.phase.Called?
    case Requeue => s.phase.Submitting?
    case ReturnFalse => s.phase.Requeued?
    case ReturnTrue => s.phase.Submitting?
  }

  function Step(s: State, e: Event, c: Config): State {
    if !Enabled(s, e) then s
    else
      match e
      case Append => s.(buffered := s.buffered + 1, token := s.token || s.buffered + 1 >= c.flushSize)
      case Ticker => if s.timing.retry then s else s.(phase := Called(false))
      case Wake => s.(token := false, phase := Called(false))
      case Retry => s.(timer := false, phase := Called(true))
      case TakeBuffer => s.(buffered := 0, phase := Submitting(s.phase.byRetry, s.buffered))
      case Requeue => s.(buffered := s.phase.inFlight + s.buffered, phase := Requeued(s.phase.byRetry))
      case ReturnFalse =>
        s.(timing := Finished(s.timing, s.phase.byRetry, false, c.flushInterval), timer := true, phase := Idle, failures := s.failures + 1)
      case ReturnTrue =>
        s.(timing := Finished(s.timing, s.phase.byRetry, true, c.flushInterval), phase := Idle, failures := 0)
  }

  function Run(es: seq<Event>, c: Config): State {
    if es == [] then START else Step(Run(es[..|es| - 1], c), es[|es| - 1], c)
  }

  /** FlushInterval doubled after every further failure, one minute at most. */
  function BackoffAfter(failures: nat, interval: int): int {
    if failures == 0 then 0 else Min(interval * Pow2(failures - 1), MINUTE)
  }

  ghost predicate Good(s: State, c: Config) {
    && s.timing.backoff == BackoffAfter(s.failures, c.flushInterval)
    && (s.timing.retry <==> s.failures > 0)
    && (s.timing.wake <==> s.failures == 0)
    && (s.phase.Idle? ==> s.timer == s.timing.retry)
    && (!s.phase.Idle? ==> !s.timer && (s.phase.byRetry <==> s.timing.retry))
    && ((s.phase.Idle? && !s.timing.retry) || s.phase.Submitting? ==> s.buffered >= c.flushSize ==> s.token)
  }

  lemma NextBackoff(t: Timing, failures: nat, interval: int)
    requires interval > 0 && t.backoff == BackoffAfter(failures, interval)
    ensures Backoff(t, interval) == BackoffAfter(failures + 1, interval) > 0
  {
    if failures == 0 {
      assert interval * Pow2(0) == interval;
    } else {
      var p := Pow2(failures - 1);
      assert Pow2(failures) == 2 * p;
      assert interval * (2 * p) == 2 * (interval * p);
      assert interval * p > 0;
    }
  }

  lemma StepGood(s: State, e: Event, c: Config)
    requires c.Valid() && Good(s, c)
    ensures Good(Step(s, e, c), c)
  {
    if e.ReturnFalse? && Enabled(s, e) {
      NextBackoff(s.timing, s.failures, c.flushInterval);
    }
  }

  lemma {:induction false} RunGood(es: seq<Event>, c: Config)
    requires c.Valid()
    ensures Good(Run(es, c), c)
  {
    if es != [] {
      RunGood(es[..|es| - 1], c);
      StepGood(Run(es[..|es| - 1], c), es[|es| - 1], c);
    }
  }

  // ---------- Main results ----------

  /**
   * In every reachable state with FlushSize checks buffered, a token is pending, a flush is under way or a retry is
   * armed; and when the flusher waits in its select, one of the cases that start a flush can be taken.
   */
  lemma NoLostWakeup(es: seq<Event>, c: Config)
    requires c.Valid() && Run(es, c).buffered >= c.flushSize
    ensures
      var s := Run(es, c);
      && (s.token || !s.phase.Idle? || s.timing.retry)
      && (s.phase.Idle? ==> Enabled(s, Wake) || Enabled(s, Retry))
  {
    RunGood(es, c);
  }

  /** Retry armed, wake disabled and a positive backoff are one condition, and the backoff follows the failures. */
  lemma RetryBookkeeping(es: seq<Event>, c: Config)
    requires c.Valid()
    ensures
      var s := Run(es, c);
      && (s.timing.retry <==> !s.timing.wake)
      && (s.timing.retry <==> s.timing.backoff > 0)
      && s.timing.backoff == BackoffAfter(s.failures, c.flushInterval)
  {
    RunGood(es, c);
    var s := Run(es, c);
    if s.failures > 0 {
      assert c.flushInterval * Pow2(s.failures - 1) > 0;
    }
  }

  lemma RunNext(es: seq<Event>, e: Event, c: Config)
    ensures Run(es + [e], c) == Step(Run(es, c), e, c)
  {
    assert (es + [e])[..|es|] == es;
  }

  /** The cases of the select that call flush. */
  predicate Flushes(s: State, e: Event) {
    Enabled(s, e) && (e.Wake? || e.Retry? || (e.Ticker? && !s.timing.retry))
  }

  /** A flush that succeeds, whatever started it, leaves no check, no backoff and no retry. */
  lemma FlushSucceeds(es: seq<Event>, c: Config, e: Event)
    requires c.Valid() && Flushes(Run(es, c), e)
    ensures Run(es + [e, TakeBuffer, ReturnTrue], c) == State(0, Run(es, c).token && !e.Wake?, Idle, Timing(0, false, true), false, 0)
  {
    RunGood(es, c);
    RunNext(es, e, c);
    RunNext(es + [e], TakeBuffer, c);
    RunNext(es + [e] + [TakeBuffer], ReturnTrue, c);
    assert es + [e] + [TakeBuffer] + [ReturnTrue] == es + [e, TakeBuffer, ReturnTrue];
  }

  /** One that fails keeps every check, and arms a retry in the interval doubled per earlier failure, one minute at most. */
  lemma FlushFails(es: seq<Event>, c: Config, e: Event)
    requires c.Valid() && Flushes(Run(es, c), e)
    ensures
      var s := Run(es, c);
      var delay := c.flushInterval * Pow2(s.failures);
      Run(es + [e, TakeBuffer, Requeue, ReturnFalse], c)
      == State(s.buffered, s.token && !e.Wake?, Idle, Timing(if delay <= 60_000_000_000 then delay else 60_000_000_000, true, false), true, s.failures + 1)
  {
    RunGood(es, c);
    NextBackoff(Run(es, c).timing, Run(es, c).failures, c.flushInterval);
    RunNext(es, e, c);
    RunNext(es + [e], TakeBuffer, c);
    RunNext(es + [e] + [TakeBuffer], Requeue, c);
    RunNext(es + [e] + [TakeBuffer] + [Requeue], ReturnFalse, c);
    assert es + [e] + [TakeBuffer] + [Requeue] + [ReturnFalse] == es + [e, TakeBuffer, Requeue, ReturnFalse];
  }

  /** A check that comes is counted, and with FlushSize of them a token is there; while a retry is armed the ticker does nothing. */
  lemma ProducersAndTicker(es: seq<Event>, c: Config)
    ensures Run(es + [Append], c).buffered == Run(es, c).buffered + 1
    ensures Run(es + [Append], c).buffered >= c.flushSize ==> Run(es + [Append], c).token
    ensures Run(es, c).timing.retry ==> Run(es + [Ticker], c) == Run(es, c)
  {
    RunNext(es, Append, c);
    RunNext(es, Ticker, c);
  }

  /** A retry that fires leads, once the buffer is taken and submitted, back to the calm state with nothing taken left. */
  lemma RetryRecovers(es: seq<Event>, c: Config)
    requires c.Valid() && Run(es, c).phase.Idle? && Run(es, c).timing.retry
    ensures Run(es + [Retry, TakeBuffer, ReturnTrue], c) == State(0, Run(es, c).token, Idle, CALM, false, 0)
  {
    RunGood(es, c);
    FlushSucceeds(es, c, Retry);
  }
}
