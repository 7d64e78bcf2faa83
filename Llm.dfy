/**
 * README generation through the Gemini models: the models whose daily quota
 * still allows a call are tried in priority order, each up to three times.
 * A rate-limit error waits `5000 * attempt` milliseconds and tries the same
 * model again; any other error, or a third rate-limit error, moves on to the
 * next model.  The first answer is recorded against the model's quota and
 * returned.
 *
 * The remote model is the parameter `respond`: the outcome of the call that
 * the given model receives on the given attempt.  Waiting is not performed;
 * the lengths of the waits are returned in order instead.
 */
module Llm {
  import opened Wrappers
  import opened JsText
  import opened Quota

  const MaxRetries: nat := 3
  const BaseDelay: nat := 5000

  /** The models in the order they are tried. */
  const Priority: seq<string> := [FlashPreview, Flash, Pro]

  const QuotaExceeded: string :=
    "Daily quota exceeded for all available models. Please try again tomorrow or upgrade to a paid plan."
  const AllFailed: string :=
    "All Gemini models failed. Please check your API key and quota, or try again later."

  /** One request: the model asked and the attempt number, counting from 1. */
  datatype Call = Call(model: string, attempt: nat)

  /** What a request yields: the generated text, or an error whose message may be missing. */
  datatype Outcome = Success(text: string) | Failure(message: Option<string>)

  /** An error counts as a rate limit when its message mentions `429` or `RATE_LIMIT_EXCEEDED`. */
  predicate RateLimited(message: Option<string>) {
    message.Some? && (Includes(message.value, "429") || Includes(message.value, "RATE_LIMIT_EXCEEDED"))
  }

  // ---------------------------------------------------------------------------
  // Which models are tried
  // ---------------------------------------------------------------------------

  /** The quota test of `canUseModel` on a ledger that is already reset-checked. */
  function Admits(quotas: map<string, QuotaInfo>): string -> bool {
    m => m !in quotas || Usable(quotas[m])
  }

  /** The models left after the quota filter, in priority order. */
  function Candidates(quotas: map<string, QuotaInfo>): seq<string> {
    Filter(Priority, Admits(quotas))
  }

  /** The filter keeps priority order and keeps exactly the models with quota left. */
  lemma CandidatesExactly(quotas: map<string, QuotaInfo>, m: string)
    requires WellFormed(quotas)
    ensures Subsequence(Candidates(quotas), Priority)
    ensures m in Candidates(quotas) <==> m in Priority && Usable(quotas[m])
  {
    FilterSubsequence(Priority, Admits(quotas));
    if m in Priority && Usable(quotas[m]) {
      FilterKeeps(Priority, Admits(quotas), m);
    }
  }

  /** The Pro model has a daily limit of zero, so it is never tried. */
  lemma ProNeverTried(quotas: map<string, QuotaInfo>, now: int, midnight: int)
    requires WellFormed(quotas) && !(quotas[Pro].used.Finite? && quotas[Pro].used.value < 0)
    ensures Pro !in Candidates(RefreshAll(quotas, now, midnight))
  {
    RefreshAllWellFormed(quotas, now, midnight);
    ZeroLimitNeverUsable(quotas[Pro], now, midnight);
    CandidatesExactly(RefreshAll(quotas, now, midnight), Pro);
  }

  // ---------------------------------------------------------------------------
  // The sequence of requests
  // ---------------------------------------------------------------------------

  /** The requests made, the waits in between and, if one answered, the model and its text. */
  datatype Trace = Trace(calls: seq<Call>, delays: seq<nat>, winner: Option<(string, string)>)

  const NoTrace: Trace := Trace([], [], None)

  /** Requests `t` after the unanswered requests `first`. */
  function Prepend(first: Trace, t: Trace): Trace {
    Trace(first.calls + t.calls, first.delays + t.delays, t.winner)
  }

  /** `t`, then `rest` if `t` got no answer. */
  function Then(t: Trace, rest: Trace): Trace {
    if t.winner.Some? then t else Prepend(t, rest)
  }

  /** The retry loop on one model, from the given attempt on. */
  function ModelTrace(model: string, respond: Call -> Outcome, attempt: nat): Trace
    requires attempt >= 1
    decreases MaxRetries + 1 - attempt
  {
    if attempt > MaxRetries then NoTrace
    else
      var call := Call(model, attempt);
      match respond(call)
      case Success(text) => Trace([call], [], Some((model, text)))
      case Failure(message) =>
        if RateLimited(message) && attempt < MaxRetries then
          Prepend(Trace([call], [BaseDelay * attempt], None), ModelTrace(model, respond, attempt + 1))
        else
          Trace([call], [], None)
  }

  /** The models tried one after the other until one answers. */
  function RunTrace(models: seq<string>, respond: Call -> Outcome): Trace
    decreases |models|
  {
    if |models| == 0 then NoTrace
    else Then(ModelTrace(models[0], respond, 1), RunTrace(models[1..], respond))
  }

  /** `generateReadme` as a whole: the text of the first answer, or the error it throws. */
  function Generated(candidates: seq<string>, respond: Call -> Outcome): Result<string, string> {
    if |candidates| == 0 then Err(QuotaExceeded)
    else
      var t := RunTrace(candidates, respond);
      if t.winner.Some? then Ok(t.winner.value.1) else Err(AllFailed)
  }

  /** The ledger after `recordUsage` of the model that answered, if any. */
  function AfterRun(quotas: map<string, QuotaInfo>, t: Trace): map<string, QuotaInfo> {
    if t.winner.Some? && t.winner.value.0 in quotas then
      var m := t.winner.value.0;
      quotas[m := quotas[m].(used := Increment(quotas[m].used))]
    else quotas
  }

  lemma PrependAssociates(a: Trace, b: Trace, c: Trace)
    ensures Prepend(Prepend(a, b), c) == Prepend(a, Prepend(b, c))
  {
    assert (a.calls + b.calls) + c.calls == a.calls + (b.calls + c.calls);
    assert (a.delays + b.delays) + c.delays == a.delays + (b.delays + c.delays);
  }

  /** Unanswered requests in front commute with the fallback to the next model. */
  lemma ThenAfterPrepend(first: Trace, t: Trace, rest: Trace)
    requires first.winner.None?
    ensures Then(Prepend(first, t), rest) == Prepend(first, Then(t, rest))
  {
    if t.winner.None? {
      PrependAssociates(first, t, rest);
    }
  }

  // ---------------------------------------------------------------------------
  // What the requests look like
  // ---------------------------------------------------------------------------

  /** On one model: at most three requests, all to that model, with attempts counting up from `attempt`. */
  lemma {:induction false} ModelTraceShape(model: string, respond: Call -> Outcome, attempt: nat)
    requires 1 <= attempt <= MaxRetries + 1
    ensures var t := ModelTrace(model, respond, attempt);
      && |t.calls| <= MaxRetries + 1 - attempt
      && (forall k :: 0 <= k < |t.calls| ==> t.calls[k] == Call(model, attempt + k))
      && |t.delays| == (if t.calls == [] then 0 else |t.calls| - 1)
    decreases MaxRetries + 1 - attempt
  {
    if attempt <= MaxRetries {
      var call := Call(model, attempt);
      if respond(call).Failure? && RateLimited(respond(call).message) && attempt < MaxRetries {
        ModelTraceShape(model, respond, attempt + 1);
        var rest := ModelTrace(model, respond, attempt + 1);
        assert rest.calls != [] by {
          assert respond(Call(model, attempt + 1)).Success? ==> |rest.calls| == 1;
        }
      }
    }
  }

  /**
   * On one model, every wait follows a rate-limit error on the request before
   * it and lasts `5000 * attempt`, the attempt of that request.
   */
  lemma {:induction false} WaitsFollowRateLimits(model: string, respond: Call -> Outcome, attempt: nat)
    requires 1 <= attempt <= MaxRetries + 1
    ensures var t := ModelTrace(model, respond, attempt);
      forall k :: 0 <= k < |t.delays| ==>
        && k < |t.calls|
        && respond(t.calls[k]).Failure?
        && RateLimited(respond(t.calls[k]).message)
        && t.delays[k] == BaseDelay * t.calls[k].attempt
        && t.calls[k].attempt < MaxRetries
    decreases MaxRetries + 1 - attempt
  {
    if attempt <= MaxRetries {
      var call := Call(model, attempt);
      if respond(call).Failure? && RateLimited(respond(call).message) && attempt < MaxRetries {
        WaitsFollowRateLimits(model, respond, attempt + 1);
        ModelTraceShape(model, respond, attempt + 1);
        var t := ModelTrace(model, respond, attempt);
        var rest := ModelTrace(model, respond, attempt + 1);
        forall k | 1 <= k < |t.delays|
          ensures t.calls[k] == rest.calls[k - 1] && t.delays[k] == rest.delays[k - 1]
        {
        }
      }
    }
  }

  /** Every wait is 5 or 10 seconds. */
  lemma {:induction false} WaitLengths(models: seq<string>, respond: Call -> Outcome)
    ensures forall k :: 0 <= k < |RunTrace(models, respond).delays| ==>
      RunTrace(models, respond).delays[k] in {BaseDelay, 2 * BaseDelay}
    decreases |models|
  {
    if |models| > 0 {
      var t := ModelTrace(models[0], respond, 1);
      WaitsFollowRateLimits(models[0], respond, 1);
      ModelTraceShape(models[0], respond, 1);
      WaitLengths(models[1..], respond);
      forall k | 0 <= k < |t.delays| ensures t.delays[k] in {BaseDelay, 2 * BaseDelay} {
        assert t.calls[k].attempt == 1 + k;
      }
    }
  }

  /** At most three requests per candidate model, each to one of the candidates. */
  lemma {:induction false} RequestBound(models: seq<string>, respond: Call -> Outcome)
    ensures |RunTrace(models, respond).calls| <= MaxRetries * |models|
    ensures forall k :: 0 <= k < |RunTrace(models, respond).calls| ==>
      RunTrace(models, respond).calls[k].model in models
    decreases |models|
  {
    if |models| > 0 {
      ModelTraceShape(models[0], respond, 1);
      RequestBound(models[1..], respond);
      var t := ModelTrace(models[0], respond, 1);
      var rest := RunTrace(models[1..], respond);
      var all := RunTrace(models, respond);
      if t.winner.None? {
        forall k | 0 <= k < |all.calls| ensures all.calls[k].model in models {
          if k >= |t.calls| {
            assert all.calls[k] == rest.calls[k - |t.calls|];
            assert rest.calls[k - |t.calls|].model in models[1..];
          }
        }
      }
    }
  }

  /** On one model: an answer is the last request, and every request before it failed. */
  lemma {:induction false} ModelAnswerLast(model: string, respond: Call -> Outcome, attempt: nat)
    requires 1 <= attempt <= MaxRetries + 1
    ensures var t := ModelTrace(model, respond, attempt);
      && (forall k :: 0 <= k < |t.calls| - 1 ==> respond(t.calls[k]).Failure?)
      && (t.winner.Some? ==>
            |t.calls| > 0 && t.winner.value.0 == model && respond(t.calls[|t.calls| - 1]) == Success(t.winner.value.1))
      && (t.winner.None? ==> forall k :: 0 <= k < |t.calls| ==> respond(t.calls[k]).Failure?)
    decreases MaxRetries + 1 - attempt
  {
    if attempt <= MaxRetries {
      var call := Call(model, attempt);
      if respond(call).Failure? && RateLimited(respond(call).message) && attempt < MaxRetries {
        ModelAnswerLast(model, respond, attempt + 1);
        var t := ModelTrace(model, respond, attempt);
        var rest := ModelTrace(model, respond, attempt + 1);
        assert t.calls == [call] + rest.calls;
        forall k | 1 <= k < |t.calls| ensures t.calls[k] == rest.calls[k - 1] {
        }
      }
    }
  }

  /**
   * The text returned is the answer to the last request, every earlier
   * request failed, and "All Gemini models failed" means that every request
   * failed.
   */
  lemma {:induction false} AnswerIsLastRequest(models: seq<string>, respond: Call -> Outcome)
    ensures var t := RunTrace(models, respond);
      && (forall k :: 0 <= k < |t.calls| - 1 ==> respond(t.calls[k]).Failure?)
      && (t.winner.Some? ==>
            |t.calls| > 0 && t.winner.value.0 == t.calls[|t.calls| - 1].model && respond(t.calls[|t.calls| - 1]) == Success(t.winner.value.1))
      && (t.winner.None? ==> forall k :: 0 <= k < |t.calls| ==> respond(t.calls[k]).Failure?)
    decreases |models|
  {
    if |models| > 0 {
      var first := ModelTrace(models[0], respond, 1);
      ModelAnswerLast(models[0], respond, 1);
      ModelTraceShape(models[0], respond, 1);
      if first.winner.Some? {
        assert first.calls[|first.calls| - 1] == Call(models[0], |first.calls|);
      } else {
        AnswerIsLastRequest(models[1..], respond);
        var rest := RunTrace(models[1..], respond);
        var t := RunTrace(models, respond);
        assert t.calls == first.calls + rest.calls;
        forall k | |first.calls| <= k < |t.calls| ensures t.calls[k] == rest.calls[k - |first.calls|] {
        }
      }
    }
  }

  /** A model that is rate-limited twice and then answers: waits of 5 and 10 seconds, then its text. */
  lemma RetriedTwiceThenAnswered(model: string, respond: Call -> Outcome, text: string)
    requires respond(Call(model, 1)) == Failure(Some("429 Too Many Requests"))
    requires respond(Call(model, 2)) == Failure(Some("RATE_LIMIT_EXCEEDED"))
    requires respond(Call(model, 3)) == Success(text)
    ensures ModelTrace(model, respond, 1) ==
      Trace([Call(model, 1), Call(model, 2), Call(model, 3)], [5000, 10000], Some((model, text)))
  {
    assert RateLimited(Some("429 Too Many Requests")) by {
      IncludesAt("429 Too Many Requests", "429", 0);
    }
    assert RateLimited(Some("RATE_LIMIT_EXCEEDED")) by {
      IncludesAt("RATE_LIMIT_EXCEEDED", "RATE_LIMIT_EXCEEDED", 0);
    }
  }

  // ---------------------------------------------------------------------------
  // generateReadme
  // ---------------------------------------------------------------------------

  lemma CandidateStep(quotas: map<string, QuotaInfo>, i: nat)
    requires i < |Priority|
    ensures Filter(Priority[..i + 1], Admits(quotas)) ==
      Filter(Priority[..i], Admits(quotas)) + (if Admits(quotas)(Priority[i]) then [Priority[i]] else [])
  {
    FilterAppend(Priority[..i], [Priority[i]], Admits(quotas));
    assert Priority[..i + 1] == Priority[..i] + [Priority[i]];
  }

  /** The `.filter(model => quotaManager.canUseModel(model))` step: every model is reset-checked. */
  method AvailableModels(qm: QuotaManager, now: int, midnight: int) returns (availableModels: seq<string>)
    requires qm.Valid()
    modifies qm
    ensures qm.Valid()
    ensures qm.quotas == RefreshAll(old(qm.quotas), now, midnight)
    ensures availableModels == Candidates(qm.quotas)
  {
    ghost var refreshed := RefreshAll(qm.quotas, now, midnight);
    RefreshAllWellFormed(qm.quotas, now, midnight);
    availableModels := [];
    for i := 0 to |Priority|
      invariant RefreshedUpTo(qm.quotas, old(qm.quotas), refreshed, i)
      invariant availableModels == Filter(Priority[..i], Admits(refreshed))
    {
      var model := Priority[i];
      ghost var before := qm.quotas;
      var ok := qm.CanUseModel(model, now, midnight);
      RefreshStep(before, qm.quotas, old(qm.quotas), refreshed, i, now, midnight);
      CandidateStep(refreshed, i);
      if ok {
        availableModels := availableModels + [model];
      }
    }
    AllRefreshed(qm.quotas, old(qm.quotas), refreshed);
    assert Priority[..|Priority|] == Priority;
  }

  /** The inner `for (let attempt = 1; attempt <= maxRetries; attempt++)` loop on one model. */
  method TryModel(modelName: string, respond: Call -> Outcome) returns (answer: Option<string>, calls: seq<Call>, delays: seq<nat>)
    ensures ModelTrace(modelName, respond, 1) ==
      Trace(calls, delays, if answer.Some? then Some((modelName, answer.value)) else None)
  {
    calls, delays := [], [];
    for attempt := 1 to MaxRetries + 1
      invariant ModelTrace(modelName, respond, 1) == Prepend(Trace(calls, delays, None), ModelTrace(modelName, respond, attempt))
    {
      var call := Call(modelName, attempt);
      ghost var before := Trace(calls, delays, None);
      calls := calls + [call];
      match respond(call)
      case Success(text) =>
        assert delays + [] == delays;
        return Some(text), calls, delays;
      case Failure(message) =>
        if RateLimited(message) {
          if attempt < MaxRetries {
            var delayTime := BaseDelay * attempt;
            delays := delays + [delayTime];
            PrependAssociates(before, Trace([call], [delayTime], None), ModelTrace(modelName, respond, attempt + 1));
            continue;
          } else {
            assert delays + [] == delays;
            return None, calls, delays;
          }
        }
        assert delays + [] == delays;
        return None, calls, delays;
    }
    assert calls + [] == calls && delays + [] == delays;
    answer := None;
  }

  /**
   * `generateReadme(repoContent)`: filter the models by quota, then try each
   * in turn; the result is `Generated` of the candidates, the requests and
   * waits are those of `RunTrace`, and only the answering model's count goes
   * up, in the ledger and in the store.
   */
  method GenerateReadme(qm: QuotaManager, now: int, midnight: int, today: string, respond: Call -> Outcome)
    returns (r: Result<string, string>, calls: seq<Call>, delays: seq<nat>)
    requires qm.Valid()
    modifies qm, qm.store
    ensures qm.Valid()
    ensures var refreshed := RefreshAll(old(qm.quotas), now, midnight);
      var candidates := Candidates(refreshed);
      var t := if |candidates| == 0 then NoTrace else RunTrace(candidates, respond);
      && r == Generated(candidates, respond)
      && calls == t.calls && delays == t.delays
      && qm.quotas == AfterRun(refreshed, t)
      && qm.store.items == (if t.winner.Some? && t.winner.value.0 in refreshed
                            then old(qm.store.items)[Key(t.winner.value.0, today) :=
                                   NumberText(Increment(refreshed[t.winner.value.0].used))]
                            else old(qm.store.items))
  {
    var availableModels := AvailableModels(qm, now, midnight);
    if |availableModels| == 0 {
      return Err(QuotaExceeded), [], [];
    }
    ghost var whole := RunTrace(availableModels, respond);
    ghost var refreshed := qm.quotas;
    calls, delays := [], [];
    for i := 0 to |availableModels|
      invariant qm.Valid() && qm.quotas == refreshed && qm.store.items == old(qm.store.items)
      invariant whole == Prepend(Trace(calls, delays, None), RunTrace(availableModels[i..], respond))
    {
      var modelName := availableModels[i];
      assert availableModels[i..][1..] == availableModels[i + 1..];
      ghost var rest := RunTrace(availableModels[i + 1..], respond);
      var answer, modelCalls, modelDelays := TryModel(modelName, respond);
      ThenAfterPrepend(Trace(calls, delays, None), Trace(modelCalls, modelDelays, None), rest);
      PrependAssociates(Trace(calls, delays, None), Trace(modelCalls, modelDelays, None), rest);
      calls, delays := calls + modelCalls, delays + modelDelays;
      if answer.Some? {
        qm.RecordUsage(modelName, today);
        return Ok(answer.value), calls, delays;
      }
    }
    assert availableModels[|availableModels|..] == [];
    assert calls + [] == calls && delays + [] == delays;
    return Err(AllFailed), calls, delays;
  }
}
