/** The retry-with-backoff loop that wraps each `model.generateContent` call
    of the backend (the stage-1 loop and the identical stage-2 loop). The
    model is an outside service: its answers are given as a function from the
    call number to what that call settles to, and the delays the loop sleeps
    for are recorded instead of slept. */
module Retry {
  import opened Js

  const MaxRetries: nat := 3
  const BaseDelay: nat := 1000
  const OverloadedMessage: string := "The model is currently overloaded. " + "Please try again later."

  /** The delays of a stage that retries as often as it may: 2000 ms, then
      4000 ms. */
  const Backoff: seq<nat> := [2000, 4000]

  /** What `response.text()` does on a resolved call: return the reply text,
      or throw (the SDK throws when, for instance, the reply was blocked). */
  datatype Reply = Text(text: string) | TextThrows(error: JsError)

  /** What one `await model.generateContent(...)` settles to. */
  datatype CallOutcome = Resolved(reply: Reply) | Rejected(error: JsError)

  /** The model's answers to one request: the k-th call (counting from 0
      across both stages) settles to `upstream(k)`. */
  type Upstream = nat -> CallOutcome

  /** What a stage's loop ends with: the reply it keeps or the error it
      throws, how many calls it made and the delays it slept for, in order. */
  datatype StageOutcome = StageOutcome(result: Result<Reply>, calls: nat, delays: seq<nat>)

  /** The error thrown when the retry budget is spent. */
  const Overloaded: JsError := JsError(OverloadedMessage, None)

  /** `err.message.includes('overloaded') || err.message.includes('quota')`. */
  predicate IsTransient(e: JsError) {
    Includes(e.message, "overloaded") || Includes(e.message, "quota")
  }

  /** A call rejected with a transient error. */
  predicate FailsTransiently(o: CallOutcome) {
    o.Rejected? && IsTransient(o.error)
  }

  /** `Math.pow(b, e)` on naturals. */
  function Pow(b: nat, e: nat): nat {
    if e == 0 then 1 else b * Pow(b, e - 1)
  }

  /** The loop from the iteration where `retryCount` holds `retryCount`, for
      a stage whose first call is call number `start`: `calls` counts every
      call of the stage, `delays` only those slept from this iteration on. */
  function StageFrom(upstream: Upstream, start: nat, retryCount: nat): StageOutcome
    requires retryCount < MaxRetries
    decreases MaxRetries - retryCount
  {
    match upstream(start + retryCount)
    case Resolved(reply) => StageOutcome(Ok(reply), retryCount + 1, [])
    case Rejected(err) =>
      if !IsTransient(err) then StageOutcome(Err(err), retryCount + 1, [])
      else if retryCount + 1 >= MaxRetries then StageOutcome(Err(Overloaded), retryCount + 1, [])
      else
        var rest := StageFrom(upstream, start, retryCount + 1);
        rest.(delays := [BaseDelay * Pow(2, retryCount + 1)] + rest.delays)
  }

  /** A whole stage: the loop entered with `retryCount = 0`. */
  function Stage(upstream: Upstream, start: nat): StageOutcome {
    StageFrom(upstream, start, 0)
  }

  /** The loop as the backend runs it. */
  method CallWithRetry(upstream: Upstream, start: nat) returns (outcome: StageOutcome)
    ensures outcome == Stage(upstream, start)
  {
    var retryCount := 0;
    var calls := 0;
    var delays: seq<nat> := [];
    var reply: Option<Reply> := None;
    while retryCount < MaxRetries
      invariant retryCount < MaxRetries
      invariant calls == retryCount
      invariant reply == None
      invariant Stage(upstream, start)
        == StageFrom(upstream, start, retryCount).(delays := delays + StageFrom(upstream, start, retryCount).delays)
      decreases MaxRetries - retryCount
    {
      var answer := upstream(start + calls);
      calls := calls + 1;
      if answer.Resolved? {
        reply := Some(answer.reply);
        break;
      }
      var err := answer.error;
      if IsTransient(err) {
        retryCount := retryCount + 1;
        if retryCount >= MaxRetries {
          return StageOutcome(Err(Overloaded), calls, delays);
        }
        var delay := BaseDelay * Pow(2, retryCount);
        RetryStep(upstream, start, retryCount - 1, delays);
        delays := delays + [delay];
        continue;
      }
      return StageOutcome(Err(err), calls, delays);
    }
    outcome := StageOutcome(Ok(reply.value), calls, delays);
  }

  /** One transient failure: the loop goes on with the next iteration,
      having slept for the delay of that iteration. */
  lemma RetryStep(upstream: Upstream, start: nat, rc: nat, delays: seq<nat>)
    requires rc + 1 < MaxRetries
    requires FailsTransiently(upstream(start + rc))
    ensures var o := StageFrom(upstream, start, rc);
      var rest := StageFrom(upstream, start, rc + 1);
      o.(delays := delays + o.delays)
        == rest.(delays := (delays + [BaseDelay * Pow(2, rc + 1)]) + rest.delays)
  {
    var rest := StageFrom(upstream, start, rc + 1);
    assert delays + ([BaseDelay * Pow(2, rc + 1)] + rest.delays)
      == (delays + [BaseDelay * Pow(2, rc + 1)]) + rest.delays;
  }

  /** What a stage does, from the iteration where `retryCount` holds `rc`:
      it ends at the first call that is not a transient failure, or at the
      third call; every call before the last failed transiently; it sleeps
      `Backoff[j]` after the (j+1)-th failure, except after the last call; and
      its result is the last call's reply, its non-transient error, or the
      overloaded error when the third call failed transiently. */
  lemma {:induction false} StageFromFacts(upstream: Upstream, start: nat, rc: nat)
    requires rc < MaxRetries
    ensures var o := StageFrom(upstream, start, rc);
      && rc < o.calls <= MaxRetries
      && o.delays == Backoff[rc..o.calls - 1]
      && (forall i :: start + rc <= i < start + o.calls - 1 ==> FailsTransiently(upstream(i)))
      && (match upstream(start + o.calls - 1)
          case Resolved(reply) => o.result == Ok(reply)
          case Rejected(err) =>
            if IsTransient(err) then o.calls == MaxRetries && o.result == Err(Overloaded)
            else o.result == Err(err))
    decreases MaxRetries - rc
  {
    var o := StageFrom(upstream, start, rc);
    match upstream(start + rc)
    case Resolved(reply) =>
    case Rejected(err) =>
      if IsTransient(err) && rc + 1 < MaxRetries {
        StageFromFacts(upstream, start, rc + 1);
        var rest := StageFrom(upstream, start, rc + 1);
        assert BaseDelay * Pow(2, rc + 1) == Backoff[rc];
        assert o.delays == [Backoff[rc]] + Backoff[rc + 1..rest.calls - 1];
      }
  }

  /** A stage makes between one and three calls; its delays are the first
      `calls - 1` entries of 2000 ms, 4000 ms; all calls but the last failed
      transiently, and the last call decides the result. */
  lemma StageFacts(upstream: Upstream, start: nat)
    ensures var o := Stage(upstream, start);
      && 1 <= o.calls <= MaxRetries
      && o.delays == Backoff[..o.calls - 1]
      && (forall i :: start <= i < start + o.calls - 1 ==> FailsTransiently(upstream(i)))
      && (match upstream(start + o.calls - 1)
          case Resolved(reply) => o.result == Ok(reply)
          case Rejected(err) =>
            if IsTransient(err) then o.calls == MaxRetries && o.result == Err(Overloaded)
            else o.result == Err(err))
  {
    StageFromFacts(upstream, start, 0);
  }

  /** A non-transient failure of the first call is thrown at once: one call,
      no delay. */
  lemma FatalFailureIsNotRetried(upstream: Upstream, start: nat)
    requires upstream(start).Rejected? && !IsTransient(upstream(start).error)
    ensures Stage(upstream, start) == StageOutcome(Err(upstream(start).error), 1, [])
  {
  }

  /** Two transient failures and then an answer: three calls, delays of 2000
      and then 4000 ms, and the answer is kept. */
  lemma RecoversOnThirdCall(upstream: Upstream, start: nat)
    requires FailsTransiently(upstream(start)) && FailsTransiently(upstream(start + 1))
    requires upstream(start + 2).Resolved?
    ensures Stage(upstream, start) == StageOutcome(Ok(upstream(start + 2).reply), 3, [2000, 4000])
  {
    StageFacts(upstream, start);
  }

  /** Three transient failures: the stage throws the overloaded error after
      the third call, with no fourth call and no third delay. */
  lemma ExhaustsAfterThreeCalls(upstream: Upstream, start: nat)
    requires forall i :: start <= i < start + MaxRetries ==> FailsTransiently(upstream(i))
    ensures Stage(upstream, start) == StageOutcome(Err(Overloaded), 3, [2000, 4000])
  {
    assert FailsTransiently(upstream(start + 0));
    assert FailsTransiently(upstream(start + 1));
    assert FailsTransiently(upstream(start + 2));
    StageFacts(upstream, start);
  }
}
