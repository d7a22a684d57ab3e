/** The `POST /api/generate` handler: the prompt guard, the two stages around
    the model (a scene description, then the Three.js code), and the mapping
    of every error thrown inside to a 500 response. The request body, the
    model's answers and the JSON library are inputs; the response, the
    number of model calls and the delays slept are the outputs. */
module Handler {
  import opened Js
  import opened Fences
  import opened Retry
  import opened Recovery

  const PromptRequiredMessage: string := "A text prompt is required."
  const GenericFailureMessage: string := "Failed to generate scene."
  const SceneFailureMessage: string :=
    "The AI failed to generate " + "a valid scene description. " + "Please try a different prompt."
  const BlockedPrefix: string := "Request was blocked. Reason: "

  /** The JSON body of a response: `{ code, sceneDescription }` or
      `{ error }`. */
  datatype Body = Generated(code: string, sceneDescription: JsonValue) | Failure(error: string)

  datatype Response = Response(status: nat, body: Body)

  /** What one request does: the response it sends, how many times it
      called the model and the delays it slept for, in order. */
  datatype Exchange = Exchange(response: Response, calls: nat, delays: seq<nat>)

  /** `response.text()` on a call that resolved. */
  function ReplyText(reply: Reply): Result<string> {
    match reply
    case Text(text) => Ok(text)
    case TextThrows(e) => Err(e)
  }

  /** The message the `catch` block picks for an error: the scene message
      when the error's message mentions JSON, else the block reason when
      the error carries prompt feedback, else the generic message. */
  function ErrorMessage(e: JsError): string {
    if Includes(e.message, "JSON") then SceneFailureMessage
    else if e.blockReason.Some? then BlockedPrefix + e.blockReason.value
    else GenericFailureMessage
  }

  /** `res.status(500).json({ error: errorMessage })`. */
  function Failed(e: JsError): Response {
    Response(500, Failure(ErrorMessage(e)))
  }

  /** `!prompt` for the `prompt` field of the request body; `None` when the
      field is missing. */
  predicate PromptMissing(prompt: Option<JsonValue>) {
    prompt.None? || !Truthy(prompt.value)
  }

  /** Stage 1 up to the object check: the retry loop's reply, its text, and
      the scene description recovered from it. */
  function Describe(s1: StageOutcome, rt: JsonRuntime): (r: Result<JsonValue>)
    ensures r.Ok? ==> PassesObjectCheck(r.value)
  {
    match s1.result
    case Err(e) => Err(e)
    case Ok(reply) =>
      match ReplyText(reply)
      case Err(e) => Err(e)
      case Ok(text) => ParseSceneDescription(CleanResponse(text), rt)
  }

  /** The handler once the prompt has passed the guard, stage 1 has ended as
      `s1` and the recovery as `described`. Stage 2 starts with the call
      after the last call of stage 1, and its retry counter starts again
      from 0. */
  function Proceed(upstream: Upstream, s1: StageOutcome, described: Result<JsonValue>): Exchange {
    match described
    case Err(e) => Exchange(Failed(e), s1.calls, s1.delays)
    case Ok(sceneDescription) =>
      var s2 := Stage(upstream, s1.calls);
      var calls := s1.calls + s2.calls;
      var delays := s1.delays + s2.delays;
      match s2.result
      case Err(e) => Exchange(Failed(e), calls, delays)
      case Ok(reply) =>
        match ReplyText(reply)
        case Err(e) => Exchange(Failed(e), calls, delays)
        case Ok(text) => Exchange(Response(200, Generated(CleanResponse(text), sceneDescription)), calls, delays)
  }

  /** The whole handler. */
  function Respond(prompt: Option<JsonValue>, upstream: Upstream, rt: JsonRuntime): Exchange {
    if PromptMissing(prompt) then Exchange(Response(400, Failure(PromptRequiredMessage)), 0, [])
    else
      var s1 := Stage(upstream, 0);
      Proceed(upstream, s1, Describe(s1, rt))
  }

  /** The handler as the backend runs it: the guard, the stage-1 loop, the
      recovery, then the stage-2 loop; every error thrown on the way ends in
      the `catch` block. */
  method HandleGenerate(prompt: Option<JsonValue>, upstream: Upstream, rt: JsonRuntime) returns (ex: Exchange)
    ensures ex == Respond(prompt, upstream, rt)
  {
    if PromptMissing(prompt) {
      return Exchange(Response(400, Failure(PromptRequiredMessage)), 0, []);
    }
    var first := CallWithRetry(upstream, 0);
    RespondPastGuard(prompt, upstream, rt);
    ghost var described := Describe(first, rt);
    var calls := first.calls;
    var delays := first.delays;
    if first.result.Err? {
      return Exchange(Failed(first.result.error), calls, delays);
    }
    var sceneText := ReplyText(first.result.value);
    if sceneText.Err? {
      return Exchange(Failed(sceneText.error), calls, delays);
    }
    var sceneDescription := ParseSceneDescription(CleanResponse(sceneText.value), rt);
    assert described == sceneDescription;
    if sceneDescription.Err? {
      return Exchange(Failed(sceneDescription.error), calls, delays);
    }
    var second := CallWithRetry(upstream, calls);
    calls := calls + second.calls;
    delays := delays + second.delays;
    if second.result.Err? {
      return Exchange(Failed(second.result.error), calls, delays);
    }
    var codeText := ReplyText(second.result.value);
    if codeText.Err? {
      return Exchange(Failed(codeText.error), calls, delays);
    }
    ex := Exchange(Response(200, Generated(CleanResponse(codeText.value), sceneDescription.value)), calls, delays);
  }

  // ---------------------------------------------------------------------
  // The error mapping

  /** Each of the three messages is picked exactly in its own case. */
  lemma ErrorMessageCases(e: JsError)
    ensures ErrorMessage(e) == SceneFailureMessage <==> Includes(e.message, "JSON")
    ensures ErrorMessage(e) == GenericFailureMessage
      <==> !Includes(e.message, "JSON") && e.blockReason.None?
    ensures StartsWith(ErrorMessage(e), BlockedPrefix)
      <==> !Includes(e.message, "JSON") && e.blockReason.Some?
  {
    MessagesDiffer(SceneFailureMessage, GenericFailureMessage, BlockedPrefix);
    if e.blockReason.Some? {
      var m := BlockedPrefix + e.blockReason.value;
      assert m[..|BlockedPrefix|] == BlockedPrefix;
      assert m[0] == BlockedPrefix[0];
    }
  }

  /** The first characters of the three messages differ. */
  lemma MessagesDiffer(scene: string, generic: string, blocked: string)
    requires scene == SceneFailureMessage && generic == GenericFailureMessage && blocked == BlockedPrefix
    ensures !StartsWith(scene, blocked) && !StartsWith(generic, blocked)
    ensures scene != generic
    ensures blocked != [] && scene[0] != blocked[0] && generic[0] != blocked[0]
  {
    assert scene[0] != blocked[0] && generic[0] != blocked[0];
    assert !StartsWith(scene, blocked) by { assert scene[..|blocked|][0] == scene[0]; }
    assert |generic| < |blocked|;
    assert scene[0] != generic[0];
  }

  /** The recovery's own error is reported as a failed scene description. */
  lemma ParseFailureReported()
    ensures ErrorMessage(ParseFailure) == SceneFailureMessage
  {
    ParseFailureMentionsJson();
  }

  /** The overloaded error does not mention JSON and carries no prompt
      feedback: it is reported with the generic message. */
  lemma OverloadedReportedAsGeneric()
    ensures ErrorMessage(Overloaded) == GenericFailureMessage
  {
    OverloadedMessageHasNoJ(OverloadedMessage);
    NotIncludedWithoutFirstChar(OverloadedMessage, "JSON");
  }

  lemma OverloadedMessageHasNoJ(s: string)
    requires s == OverloadedMessage
    ensures 'J' !in s
  {
  }

  // ---------------------------------------------------------------------
  // Properties of the handler

  /** The guard: a missing or falsy prompt, and only such a prompt, gets a
      400 with the prompt-required message before any model call. */
  lemma PromptGuard(prompt: Option<JsonValue>, upstream: Upstream, rt: JsonRuntime)
    ensures Respond(prompt, upstream, rt).response.status == 400 <==> PromptMissing(prompt)
    ensures PromptMissing(prompt) ==>
      Respond(prompt, upstream, rt) == Exchange(Response(400, Failure(PromptRequiredMessage)), 0, [])
    ensures !PromptMissing(prompt) ==> Respond(prompt, upstream, rt).calls >= 1
  {
    if !PromptMissing(prompt) {
      var s1 := Stage(upstream, 0);
      StageFacts(upstream, 0);
      ProceedShapes(upstream, s1, Describe(s1, rt));
    }
  }

  /** A prompt of spaces is truthy: it passes the guard and reaches the
      model. */
  lemma BlankPromptReachesModel(upstream: Upstream, rt: JsonRuntime)
    ensures Respond(Some(JString(" ")), upstream, rt).calls >= 1
  {
    PromptGuard(Some(JString(" ")), upstream, rt);
  }

  /** What a response past the guard looks like: a 200 carrying generated
      code and a description that passed the object check, or a 500 with
      one of the three failure messages. */
  predicate WellFormedAnswer(r: Response) {
    && (r.status == 200 || r.status == 500)
    && (r.status == 200 <==> r.body.Generated?)
    && (r.status == 200 ==> PassesObjectCheck(r.body.sceneDescription) && IsTrimmed(r.body.code))
    && (r.status == 500 ==>
          r.body.Failure?
          && (r.body.error == SceneFailureMessage || r.body.error == GenericFailureMessage
              || StartsWith(r.body.error, BlockedPrefix)))
  }

  /** A 500 built from any error is well formed. */
  lemma FailedWellFormed(e: JsError)
    ensures WellFormedAnswer(Failed(e))
  {
    ErrorMessageCases(e);
  }

  /** Past the guard every response is well formed, and it comes after at
      least the calls of stage 1. */
  lemma ProceedShapes(upstream: Upstream, s1: StageOutcome, described: Result<JsonValue>)
    requires described.Ok? ==> PassesObjectCheck(described.value)
    ensures WellFormedAnswer(Proceed(upstream, s1, described).response)
    ensures Proceed(upstream, s1, described).calls >= s1.calls
  {
    match described
    case Err(e) => FailedWellFormed(e);
    case Ok(_) =>
      var s2 := Stage(upstream, s1.calls);
      match s2.result
      case Err(e) => FailedWellFormed(e);
      case Ok(reply) =>
        match ReplyText(reply)
        case Err(e) => FailedWellFormed(e);
        case Ok(_) =>
  }

  /** Every response is a 400 for the prompt, a 200 with generated code, or
      a 500 with one of the three failure messages; a 200 carries an object
      or an array and trimmed code. */
  lemma ResponseShapes(prompt: Option<JsonValue>, upstream: Upstream, rt: JsonRuntime)
    ensures var r := Respond(prompt, upstream, rt).response;
      r.status == 400 || WellFormedAnswer(r)
  {
    if !PromptMissing(prompt) {
      var s1 := Stage(upstream, 0);
      ProceedShapes(upstream, s1, Describe(s1, rt));
    }
  }

  /** The delays of a stage are 2000 or 4000 ms, at most two of them. */
  predicate StageBudget(s: StageOutcome) {
    && 1 <= s.calls <= MaxRetries
    && |s.delays| < MaxRetries
    && forall i :: 0 <= i < |s.delays| ==> s.delays[i] == 2000 || s.delays[i] == 4000
  }

  lemma StageWithinBudget(upstream: Upstream, start: nat)
    ensures StageBudget(Stage(upstream, start))
  {
    StageFacts(upstream, start);
  }

  /** Past the guard, stage 2 adds at most its own budget to stage 1's. */
  lemma ProceedBudget(upstream: Upstream, s1: StageOutcome, described: Result<JsonValue>)
    requires StageBudget(s1)
    ensures var ex := Proceed(upstream, s1, described);
      && ex.calls <= 2 * MaxRetries
      && |ex.delays| <= 2 * (MaxRetries - 1)
      && forall i :: 0 <= i < |ex.delays| ==> ex.delays[i] == 2000 || ex.delays[i] == 4000
  {
    if described.Ok? {
      var s2 := Stage(upstream, s1.calls);
      StageWithinBudget(upstream, s1.calls);
      var d := s1.delays + s2.delays;
      assert forall i :: |s1.delays| <= i < |d| ==> d[i] == s2.delays[i - |s1.delays|];
    }
  }

  /** Each stage has its own budget of three calls: a request makes at most
      six calls and sleeps only 2000 or 4000 ms at a time, at most twice per
      stage. */
  lemma CallBudget(prompt: Option<JsonValue>, upstream: Upstream, rt: JsonRuntime)
    ensures var ex := Respond(prompt, upstream, rt);
      && ex.calls <= 2 * MaxRetries
      && |ex.delays| <= 2 * (MaxRetries - 1)
      && forall i :: 0 <= i < |ex.delays| ==> ex.delays[i] == 2000 || ex.delays[i] == 4000
  {
    if !PromptMissing(prompt) {
      var s1 := Stage(upstream, 0);
      StageWithinBudget(upstream, 0);
      ProceedBudget(upstream, s1, Describe(s1, rt));
    }
  }

  /** A scene description that cannot be recovered ends the request with the
      scene message: stage 2 never calls the model. */
  lemma UnparsableDescriptionStopsBeforeStageTwo(
    prompt: Option<JsonValue>, upstream: Upstream, rt: JsonRuntime, text: string)
    requires !PromptMissing(prompt)
    requires Stage(upstream, 0).result == Ok(Text(text))
    requires ParseSceneDescription(CleanResponse(text), rt).Err?
    ensures Respond(prompt, upstream, rt)
      == Exchange(Response(500, Failure(SceneFailureMessage)), Stage(upstream, 0).calls, Stage(upstream, 0).delays)
  {
    ParseFailureReported();
  }

  /** Three transient failures in stage 1 end the request with the generic
      message, after three calls and delays of 2000 and 4000 ms. */
  lemma OverloadedStageOne(prompt: Option<JsonValue>, upstream: Upstream, rt: JsonRuntime)
    requires !PromptMissing(prompt)
    requires forall i :: 0 <= i < MaxRetries ==> FailsTransiently(upstream(i))
    ensures Respond(prompt, upstream, rt)
      == Exchange(Response(500, Failure(GenericFailureMessage)), 3, [2000, 4000])
  {
    ExhaustsAfterThreeCalls(upstream, 0);
    OverloadedReportedAsGeneric();
  }

  /** The retry counter starts again for stage 2: two transient failures
      before each stage's answer make six calls and the delays 2000, 4000,
      2000, 4000 ms, and the request succeeds when the scene description
      could be recovered from the third call's reply. */
  lemma EachStageRetriesOnItsOwn(
    prompt: Option<JsonValue>, upstream: Upstream, rt: JsonRuntime, code: string)
    requires !PromptMissing(prompt)
    requires FailsTransiently(upstream(0)) && FailsTransiently(upstream(1))
    requires upstream(2).Resolved?
    requires FailsTransiently(upstream(3)) && FailsTransiently(upstream(4))
    requires upstream(5) == Resolved(Text(code))
    ensures var ex := Respond(prompt, upstream, rt);
      Describe(Stage(upstream, 0), rt).Ok? ==>
        && ex.response.status == 200
        && ex.response.body.code == CleanResponse(code)
        && ex.calls == 6
        && ex.delays == [2000, 4000, 2000, 4000]
  {
    RecoversOnThirdCall(upstream, 0);
    var s1 := Stage(upstream, 0);
    var described := Describe(s1, rt);
    if described.Ok? {
      RespondRecovers(prompt, upstream, rt, s1, described, code);
    }
  }

  /** The handler past the guard once stage 1 made three calls and its
      description was recovered. */
  lemma RespondRecovers(
    prompt: Option<JsonValue>, upstream: Upstream, rt: JsonRuntime,
    s1: StageOutcome, described: Result<JsonValue>, code: string)
    requires !PromptMissing(prompt)
    requires s1 == Stage(upstream, 0) && described == Describe(s1, rt)
    requires s1.calls == 3 && s1.delays == [2000, 4000] && described.Ok?
    requires FailsTransiently(upstream(3)) && FailsTransiently(upstream(4))
    requires upstream(5) == Resolved(Text(code))
    ensures Respond(prompt, upstream, rt)
      == Exchange(Response(200, Generated(CleanResponse(code), described.value)), 6, [2000, 4000, 2000, 4000])
  {
    RespondPastGuard(prompt, upstream, rt);
    ProceedRecovers(upstream, s1, described, code);
  }

  /** Past the guard the handler is stage 1, the recovery, and the rest. */
  lemma RespondPastGuard(prompt: Option<JsonValue>, upstream: Upstream, rt: JsonRuntime)
    requires !PromptMissing(prompt)
    ensures Respond(prompt, upstream, rt)
      == Proceed(upstream, Stage(upstream, 0), Describe(Stage(upstream, 0), rt))
  {
  }

  /** Past a successful stage 1 that made three calls, two transient failures
      and an answer in stage 2 give a 200 after six calls. */
  lemma ProceedRecovers(upstream: Upstream, s1: StageOutcome, described: Result<JsonValue>, code: string)
    requires s1.calls == 3 && s1.delays == [2000, 4000] && described.Ok?
    requires FailsTransiently(upstream(3)) && FailsTransiently(upstream(4))
    requires upstream(5) == Resolved(Text(code))
    ensures Proceed(upstream, s1, described)
      == Exchange(Response(200, Generated(CleanResponse(code), described.value)), 6, [2000, 4000, 2000, 4000])
  {
    RecoversOnThirdCall(upstream, 3);
  }
}
