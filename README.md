# Text-to-3D scene backend: the generate pipeline in Dafny

The backend turns a text prompt into a Three.js scene in two model calls.
`POST /api/generate` checks the prompt. It then asks the model for a JSON
scene description, retrying an overloaded model with exponential backoff.
A chain of regular-expression rewrites and at most two `JSON.parse`
attempts recover the description, which must pass an object check. A second
retried call asks for the Three.js code, and both replies are cleaned of
Markdown fences. Any error thrown on the way becomes a 500 response whose
message depends on the error. A separate Gemini service has its own fence
stripper.

The model has these modules:

- `Js` (`js.dfy`) holds the JavaScript built-ins the code relies on.
  - `String.prototype.trim` and `includes`, and JavaScript truthiness.
  - `String.prototype.replace` with a global regular expression. This is one
    left-to-right scanner, `ReplaceAll`, parameterised by a *matcher*: the
    match a regular expression finds at the start of a text, and its
    replacement. Each regular expression of the backend is written as a
    matcher, with its backtracking worked out in the matcher's comment.
- `Fences` (`fences.dfy`) holds `cleanResponse`.
- `Retry` (`retry.dfy`) holds the retry loop. The loop is a method, proved
  against a function that specifies what a stage does.
- `Quoting` (`quoting.dfy`) holds the `key: value` quoting heuristic in its
  two variants and the quote swap.
- `Recovery` (`recovery.dfy`) holds the stage-1 recovery: the `parseText`
  chain, the two parses and the object check.
- `RecoveryExamples` (`recovery_examples.dfy`) shows what the recovery does
  to three concrete model replies.
- `Handler` (`handler.dfy`) holds the route handler. The handler is a
  method, proved equal to a function of the prompt, the model's answers and
  the JSON library.
- `GeminiService` (`gemini_service.dfy`) holds the fence stripper of
  `generateSceneWithGemini` and the `{ code }` value it returns.

The model's answers form a function from the call number to what that call
settles to. Call numbers count across both stages, so stage 2 starts at the
call after stage 1's last. The delays the loop would sleep are recorded, not
slept. `JSON.parse`, `JSON.parse` with the reviver, and the decimal text of
`Math.PI / n` are parameters (`Recovery.JsonRuntime`).

## Where the code and its description differ

The model follows the code.

- The object check `!v || typeof v !== 'object'` lets arrays through, not
  only objects.
- A prompt of spaces is truthy, so it passes the guard and reaches the model.
- The "overloaded" error thrown after three transient failures does not
  mention JSON. It is reported with the generic message "Failed to generate
  scene.", not with a message about the overload.
- The first-pass quoting heuristic is not a no-op on valid JSON. A colon
  inside a string value (`"at 12:30, noon"`) makes it rewrite the text.
- On `{type: ConeGeometry, args: [1,2,8]}` the heuristic quotes the values
  but not the keys. It quotes only the first array element, giving
  `{type:"ConeGeometry", args:"[1",2,8]}`. That text is still not JSON, and
  the second pass leaves it unchanged.
- A first parse that returns a value that fails the object check (a number,
  a string, `null`) ends the stage with the parse error. The second pass is
  tried only when the first parse throws.
- The delays are `1000 * 2^retryCount` after `retryCount` was incremented:
  2000 ms, then 4000 ms. There is never a third delay.
- In the Gemini service, the tag after a fence is matched as a literal
  prefix. "```json" loses "```js" and keeps "on", and "```javascript" loses
  only "```".
- In the Gemini service, the first `replace` already deletes every "```",
  so the second `replace(/```/g, '')` never changes anything.

## Model

| member | source | states |
|---|---|---|
| Js.Trim | backend/server.js:49 | `trim()` returns a slice of its input with no whitespace at either end; only whitespace was cut on each side, and a trimmed text is returned unchanged |
| Js.TrimDropsTrailingWhitespace | backend/server.js:49 | trimming a trimmed non-empty text followed by whitespace gives the text back |
| Js.ReplaceAll | backend/server.js:123-138 | a global `replace` as one left-to-right scan: a match at the current index is replaced and the scan resumes after it, otherwise one character is copied; its meaning is stated by `ReplaceAllAtMatch`, `ReplaceAllCopies`, `ReplaceAllNoMatch` and `ReplaceAllShrinks` |
| Js.ReplaceAllShrinks | backend/server.js:123-138 | a global replace whose replacements are never longer than their matches never lengthens the text |
| Js.ReplaceAllNoMatch | backend/server.js:123-138 | a global replace that matches nowhere in the text returns it unchanged |
| Js.ReplaceAllCopies | backend/server.js:123-138 | a prefix inside which no match starts is copied unchanged, and the scan goes on after it |
| Js.ReplaceAllAtMatch | backend/server.js:123-138 | a match at the start is replaced, and the scan resumes right after the match |
| Js.IncludesAt | backend/server.js:233 | `includes` holds exactly when the searched text occurs at some index |
| Js.Includes | backend/server.js:103 | `includes` as a scan over the start positions; `IncludesAt` states that it holds exactly when the searched text occurs at some index |
| Js.Truthy | backend/server.js:57 | JavaScript truthiness of a JSON value: `null`, `false`, `0` and the empty string are falsy, and every other value, arrays and objects included, is truthy |
| Js.TypeofObject | backend/server.js:161 | `typeof v === 'object'` holds for `null`, arrays and objects only; `ObjectCheckAcceptsObjectsAndArrays` states what the object check built on it accepts |
| Fences.OpeningFenceLength | backend/server.js:49 | the opening alternative (a fence at index 0, an optional `json` or `javascript` tag, a line feed) spans 0, 4, 8 or 14 characters at index 0 and never more than the text |
| Fences.DropClosingFence | backend/server.js:49 | a "```" ending the text is removed, and text not ending in "```" is unchanged |
| Fences.CleanResponse | backend/server.js:48-50 | the cleaned reply is trimmed and never longer than the reply |
| Fences.CleanResponseWithoutBackticks | backend/server.js:48-50 | a reply with no backtick is only trimmed |
| Fences.CleanResponseUnwraps | backend/server.js:48-50 | a reply fenced with "```", "```json" or "```javascript" on the first line and closed by "```" at the very end becomes its trimmed body |
| Fences.CleanResponseKeepsOtherTags | backend/server.js:49 | a "```js" opening line is not recognised: only the closing fence goes |
| Fences.CleanResponseKeepsUnrecognisedOpening | backend/server.js:49 | a reply that opens with none of "```\n", "```json\n" and "```javascript\n" keeps its start: only a closing fence and the surrounding whitespace are removed |
| Retry.CallWithRetry | backend/server.js:89-115 | the loop ends with exactly the outcome, call count and delays the stage specification gives |
| Retry.StageFacts | backend/server.js:94-115 | a stage makes 1 to 3 calls; its delays are the first `calls - 1` of 2000 and 4000 ms; every call before the last failed transiently; the last call decides: its reply, its non-transient error, or the overloaded error after a third transient failure |
| Retry.FatalFailureIsNotRetried | backend/server.js:113 | a non-transient failure of the first call is thrown at once, after one call and no delay |
| Retry.RecoversOnThirdCall | backend/server.js:101-111 | two transient failures and an answer give that answer after three calls and delays of 2000 and 4000 ms |
| Retry.ExhaustsAfterThreeCalls | backend/server.js:104-107 | three transient failures throw the overloaded error after three calls, with no fourth call and no third delay |
| Retry.RetryStep | backend/server.js:103-111 | after a transient failure the loop goes on with the next iteration, having slept `1000 * 2^retryCount` ms |
| Retry.StageFrom | backend/server.js:94-115 | the loop from the iteration with a given `retryCount`: an answer or a non-transient error ends it, a transient error after the third call throws the overloaded error, and otherwise the next iteration follows a delay of `1000 * 2^(retryCount + 1)` ms; `StageFacts` states what a whole stage does |
| Retry.Stage | backend/server.js:89-115 | a stage is the loop entered with `retryCount = 0`; `CallWithRetry` is proved equal to it and `StageFacts` characterises it |
| Retry.IsTransient | backend/server.js:103 | an error is retried exactly when its message includes "overloaded" or "quota"; `FatalFailureIsNotRetried` and `StageFacts` state what follows from each case |
| Quoting.KeyValueAt | backend/server.js:137 | a key/value match consumes at least one character and no more than the text |
| Quoting.ColonIndex | backend/server.js:137 | `(\w+)\s*` takes every word character and then every whitespace character, so the colon must stand right after them; `KeyValueRewrittenSpaced` states the match with whitespace before the colon |
| Quoting.ValueAt | backend/server.js:137-147 | a value match lies inside the text after the colon, which does not start with `"`; `ValueNeedsCloser` relates its two variants on every input |
| Quoting.KeyValueAtColon | backend/server.js:137 | a key/value match needs a colon with no double quote right before or right after it |
| Quoting.KeyValueRewritten | backend/server.js:137 | an unquoted `key: value` pair is matched up to the end of the value and replaced by `key:"value"`; the key is not quoted |
| Quoting.KeyValueRewrittenSpaced | backend/server.js:137 | `key : value`, with whitespace between the key and the colon, is matched up to the end of the value and replaced by `key:"value"`; that whitespace goes with the match |
| Quoting.LookaheadNeedsCloser | backend/server.js:137-147 | on every text the first-pass variant matches exactly where the second-pass variant does and a `,`, `}` or `]` follows its match, and then with the same match |
| Quoting.ValueNeedsCloser | backend/server.js:137-147 | on every text after the colon, the value match with the lookahead is the one without it, kept only when a `,`, `}` or `]` follows it |
| Quoting.PairOfValue | backend/server.js:137 | once a key and its colon are found, the key/value match is the value match on the text after the colon, counted from the start of the text |
| Quoting.LookaheadRefuses | backend/server.js:137-147 | a pair whose value runs up to a `"` or to the end of the text is refused by the first-pass variant, whose lookahead needs `,`, `}` or `]`, and rewritten by the second-pass variant |
| Quoting.WhitespaceValueQuoted | backend/server.js:137 | a colon followed by whitespace and then no value character gives back the last whitespace character as the value: `a: ,` becomes `a:" ",` |
| Quoting.EmptyValueRefused | backend/server.js:137-147 | a colon followed at once by a character outside the value class, or by nothing, is matched by neither variant |
| Quoting.QuoteValuesPair | backend/server.js:137 | the scan of a text that opens with an unquoted pair is the quoted pair followed by the scan of the rest |
| Quoting.QuoteValuesSkips | backend/server.js:137 | a leading character that cannot start a key is copied, and the scan goes on after it |
| Quoting.ArrayValueSplit | backend/server.js:137 | an array value is quoted only up to its first comma, as `key:"[first"`, and the other elements are copied |
| Quoting.QuotedColonsUntouched | backend/server.js:137 | text whose every colon has a double quote beside it is left unchanged by either variant of the heuristic |
| Quoting.QuoteValues | backend/server.js:137-147 | the global `(\w+)\s*:\s*([^,"}\]]+)` replace, with the lookahead in the first pass and without it in the second; `QuoteValuesPair`, `QuoteValuesSkips` and `QuotedColonsUntouched` state what it does |
| Quoting.SingleQuoteAt | backend/server.js:146 | a match is one `'` at the start of the text, replaced by `"`; `SingleQuotesSwapped` states what the global replace does |
| Quoting.NoSingleQuotesUnchanged | backend/server.js:146 | text without a single quote is unchanged by the quote swap |
| Quoting.SingleQuotesSwapped | backend/server.js:146 | the quote swap keeps the length, turns every `'` into `"` and leaves every other character as it was |
| Recovery.DropLeadingFence | backend/server.js:124-126 | text that does not start with "```" is unchanged, and otherwise a proper prefix is removed |
| Recovery.DropLeadingFenceRemoves | backend/server.js:124-126 | "```", then the tag when it is there, then all the whitespace after it are removed, and the text from the first non-whitespace character on is kept, whatever it is (a reply "```json {...}" whose fence has no line feed becomes "{...}") |
| Recovery.PiQuotientAt | backend/server.js:128-130 | a `Math.PI / n` match starts with "Math.PI" and consumes at least one character |
| Recovery.PiQuotientMatches | backend/server.js:128-130 | "Math.PI", any whitespace, "/", any whitespace and a run of digits not followed by another digit is one match, ending at the last digit, replaced by the decimal text of pi over those digits |
| Recovery.PiQuotientReplaced | backend/server.js:128-130 | the global `Math.PI / n` replace turns such a quotient into the decimal text of pi over `n` and goes on scanning after the last digit |
| Recovery.PiWithoutSlashKept | backend/server.js:128-130 | `Math.PI` with no "/" after it is not matched, and the step copies it and goes on after it |
| Recovery.SlashWithoutDigitsKept | backend/server.js:128-130 | `Math.PI`, whitespace, "/" and whitespace not followed by a digit is not matched, and the step copies `Math.PI` |
| Recovery.QuotientlessPiCopied | backend/server.js:128-130 | wherever no quotient starts at a `Math.PI`, the step copies those seven characters and goes on scanning after them |
| Recovery.PiWithoutQuotientKept | backend/server.js:128-130 | `Math.PI` followed by whitespace and then anything but "/" is not matched, and the step copies `Math.PI` and goes on after it |
| Recovery.BarePiAt | backend/server.js:131-133 | a bare-pi match starts with "Math.PI" or "-Math.PI" and consumes at least one character |
| Recovery.BarePiReplaced | backend/server.js:131-133 | `Math.PI` with no word character after it becomes 3.14159265359, and a leading `-` stays in front |
| Recovery.GluedPiKept | backend/server.js:131 | `Math.PI` followed by a word character is copied unchanged, with or without its sign |
| Recovery.PiFreeTextUnchanged | backend/server.js:128-133 | text that never mentions `Math.PI` is left alone by both pi substitutions |
| Recovery.SubstitutePi | backend/server.js:128-133 | the two pi replaces in source order, the quotient step before the bare-pi step; `PiQuotientReplaced`, `BarePiReplaced` and `PiFreeTextUnchanged` state what they do |
| Recovery.NonPrintableAt | backend/server.js:135 | a match is one character outside printable ASCII, CR and LF, deleted; `StripNonPrintableChar` states which characters match |
| Recovery.StripNonPrintable | backend/server.js:135 | the global filter; `StripNonPrintableKeepsOnlyPrintable`, `StripNonPrintableSplits` and `StripNonPrintableKeepsPrintableText` state what it keeps |
| Recovery.StripNonPrintableKeepsOnlyPrintable | backend/server.js:135 | after the filter every character is printable ASCII, a carriage return or a line feed |
| Recovery.StripNonPrintableSplits | backend/server.js:135 | the filter works character by character: filtering a concatenation concatenates the filtered parts |
| Recovery.StripNonPrintableChar | backend/server.js:135 | one character is kept exactly when it is printable ASCII, CR or LF |
| Recovery.StripNonPrintableKeepsPrintableText | backend/server.js:135 | text of kept characters passes the filter unchanged |
| Recovery.FirstPassOnlyQuotes | backend/server.js:123-138 | on text with no fence at either end, no `Math.PI` and only kept characters, the first pass is the quoting heuristic and the trim |
| Recovery.FirstPassLeavesPlainJsonAlone | backend/server.js:123-138 | the first pass returns unchanged any trimmed text with no fences, no `Math.PI`, only kept characters and every colon beside a quote |
| Recovery.FirstPassText | backend/server.js:123-138 | the `parseText` chain in source order: the two leading-fence removals around the closing-fence removal, the pi substitutions, the filter, the first-pass quoting and the trim; `FirstPassOnlyQuotes` and `FirstPassLeavesPlainJsonAlone` state what it does |
| Recovery.SecondPassText | backend/server.js:145-147 | the quote swap, then the quoting without the lookahead; `ConeSecondPass` and `NotJsonFails` show it on concrete text |
| Recovery.CleanResponseOfJsonBlock | backend/server.js:48-50 | a "```json" block closed on the next line is cleaned down to its trimmed content |
| Recovery.FencedPlainJsonReachesParser | backend/server.js:117-142 | for a fenced plain-JSON reply, the first `JSON.parse` is handed exactly the JSON between the fences |
| Recovery.ParseSceneDescription | backend/server.js:121-172 | a recovered description always passes the object check, and every failure is the one parse-failure error |
| Recovery.ParseFrom | backend/server.js:140-172 | the `try` block from the first parse on either gives a value that passes the object check or throws the parse-failure error |
| Recovery.ObjectCheckAcceptsObjectsAndArrays | backend/server.js:161-163 | the object check accepts exactly objects and arrays |
| Recovery.PassesObjectCheck | backend/server.js:161-163 | a value passes when it is truthy and its `typeof` is 'object', the negation of the check at line 161; `ObjectCheckAcceptsObjectsAndArrays` states that it accepts exactly objects and arrays |
| Recovery.FirstParseDecides | backend/server.js:140-163 | when the first parse returns a value, that value is kept if it is an object or an array, and otherwise the stage fails without a second pass |
| Recovery.SecondParseDecides | backend/server.js:143-163 | when the first parse throws, the reviver parse of the second-pass text decides, under the same object check |
| Recovery.ParseFailureMentionsJson | backend/server.js:171 | the parse-failure message contains "JSON" |
| RecoveryExamples.FencedJsonReachesParser | backend/server.js:117-142 | the fenced reply of `{"color": "#ff0000", "size": 3}` reaches `JSON.parse` unchanged |
| RecoveryExamples.ConeQuoting | backend/server.js:137 | the heuristic quotes `{type: ConeGeometry, args: [1,2,8]}` into `{type:"ConeGeometry", args:"[1",2,8]}` |
| RecoveryExamples.ConeFirstPass | backend/server.js:123-138 | the first pass hands `JSON.parse` `{type:"ConeGeometry", args:"[1",2,8]}`, keys still bare |
| RecoveryExamples.ConeSecondPass | backend/server.js:145-147 | the second pass leaves that text unchanged |
| RecoveryExamples.NotJsonFails | backend/server.js:121-172 | "not json at all" passes `cleanResponse` and both passes unchanged, and when neither parse accepts it the recovery fails with the parse-failure error |
| Handler.Describe | backend/server.js:117-172 | a stage-1 description that survives the reply text and the recovery passes the object check |
| Handler.HandleGenerate | backend/server.js:54-241 | the handler sends exactly the response, and makes the calls and delays, that the handler specification gives |
| Handler.Respond | backend/server.js:54-241 | the handler as a function: the guard's 400, else stage 1, the recovery and `Proceed`; `PromptGuard`, `ResponseShapes` and `CallBudget` state what it does |
| Handler.Proceed | backend/server.js:174-228 | past the guard: a failed recovery ends the request, otherwise stage 2 starts with the next call and a fresh retry counter, and its cleaned reply is sent with the description; `ProceedShapes` and `ProceedBudget` state what it does |
| Handler.ReplyText | backend/server.js:117 | `response.text()` on a resolved call gives its text, or throws the error it carries |
| Handler.ErrorMessageCases | backend/server.js:230-239 | the scene message is chosen exactly when the error mentions JSON; the block-reason message exactly when it does not and carries prompt feedback; the generic message exactly otherwise |
| Handler.ErrorMessage | backend/server.js:232-238 | the `catch` block's message choice; `ErrorMessageCases` states when each of the three messages is chosen |
| Handler.Failed | backend/server.js:239 | an error becomes a 500 with the chosen message; `FailedWellFormed` states its shape |
| Handler.ParseFailureReported | backend/server.js:171-234 | a description that cannot be recovered is reported with the scene message |
| Handler.OverloadedReportedAsGeneric | backend/server.js:106-232 | the overloaded error is reported with the generic message |
| Handler.PromptGuard | backend/server.js:57-59 | the response is a 400 exactly when the prompt is missing or falsy, then with the prompt-required message and no model call; otherwise the model is called |
| Handler.PromptMissing | backend/server.js:57 | `!prompt` for a missing field or a falsy value; `PromptGuard` and `BlankPromptReachesModel` state its effect |
| Handler.BlankPromptReachesModel | backend/server.js:57 | a prompt of spaces passes the guard and reaches the model |
| Handler.FailedWellFormed | backend/server.js:230-239 | every error becomes a 500 with one of the three failure messages |
| Handler.ProceedShapes | backend/server.js:117-239 | past the guard, the response is a 200 with trimmed code and a description that passed the object check, or a 500 with one of the three failure messages |
| Handler.ResponseShapes | backend/server.js:54-241 | every response is the 400 of the guard, such a 200, or such a 500 |
| Handler.StageWithinBudget | backend/server.js:89-115 | a stage makes 1 to 3 calls and sleeps at most twice, 2000 or 4000 ms each time |
| Handler.ProceedBudget | backend/server.js:198-221 | stage 2 adds at most its own budget to stage 1's |
| Handler.CallBudget | backend/server.js:89-221 | a request makes at most six calls and sleeps at most four times, 2000 or 4000 ms each time |
| Handler.UnparsableDescriptionStopsBeforeStageTwo | backend/server.js:121-172 | an unrecoverable description ends the request with the scene message, after stage 1's calls only |
| Handler.OverloadedStageOne | backend/server.js:103-107 | three transient failures in stage 1 give the generic 500 after three calls and delays of 2000 and 4000 ms |
| Handler.EachStageRetriesOnItsOwn | backend/server.js:198-221 | stage 2 restarts the retry counter: two transient failures before each stage's answer give a 200 after six calls and delays 2000, 4000, 2000, 4000 ms, with the cleaned code |
| Handler.ProceedRecovers | backend/server.js:198-228 | past a stage 1 of three calls, two transient failures and an answer in stage 2 give the 200 after six calls |
| GeminiService.TaggedFenceAt | backend/services/geminiService.js:37 | a match happens exactly where "```" starts, deletes what it matches, and takes "html" or "js" after the fence when they are there |
| GeminiService.FenceAt | backend/services/geminiService.js:38 | a match happens exactly where "```" starts and deletes those three characters |
| GeminiService.GenerateScene | backend/services/geminiService.js:36-41 | a missing answer text throws a `TypeError`; otherwise the `{ code }` value holds trimmed code with no "```", never longer than the text |
| GeminiService.StripFencesShrinks | backend/services/geminiService.js:36-39 | the code is trimmed and never longer than the answer text |
| GeminiService.StripFences | backend/services/geminiService.js:36-39 | the two global replaces and the trim, in source order; `StripFencesShrinks`, `StripFencesLeavesNoFence` and `FencedBlock` state what they do |
| GeminiService.NoFenceLeft | backend/services/geminiService.js:37 | after a scan that deletes every "```" it finds, no three backticks in a row remain |
| GeminiService.SecondPassChangesNothing | backend/services/geminiService.js:37-38 | the second `replace` returns the first's output unchanged |
| GeminiService.StripFencesLeavesNoFence | backend/services/geminiService.js:36-39 | the code contains no "```" |
| GeminiService.StripFencesWithoutBackticks | backend/services/geminiService.js:36-39 | text with no backtick is only trimmed |
| GeminiService.TagKept | backend/services/geminiService.js:37 | what the first replace leaves of a tag is the tag with a prefix removed; the prefix is "html", "js" or nothing, and it is nothing exactly when the tag starts with neither |
| GeminiService.FencedBlock | backend/services/geminiService.js:36-39 | a fenced block becomes its trimmed body after what is left of the tag: "html" or "js" at the head of the tag is deleted and the rest is kept |
| GeminiService.JsonTagLeavesOn | backend/services/geminiService.js:37 | a "```json" block keeps "on" in front of its body |
| GeminiService.JavascriptTagKept | backend/services/geminiService.js:37 | a "```javascript" block keeps the whole tag |
| GeminiService.KnownTagRemoved | backend/services/geminiService.js:37 | a "```html" or "```js" block becomes its trimmed body |

## Left out

- Express routing, CORS, the JSON body parser, the server start and the
  `console` logging are I/O around the core. The request body appears as its
  `prompt` field.
- The Google Generative AI SDK and the axios call are foreign network
  clients. The model's answers are a parameter: a function from the call
  number to a resolved reply, or a rejection with an error.
- The prompt templates and the generation and safety settings only shape
  what the model is asked. They do not change the handler's control flow.
- `setTimeout` sleeping is left out. The delays are recorded instead.
- `JSON.parse`, the reviver, `parseFloat`, `isNaN` and the decimal text of
  `Math.PI / parseInt(n)` are library and floating-point behaviour. They are
  parameters of `Recovery.JsonRuntime`. JSON numbers are `real`, with no NaN
  or infinity.
- `JSON.stringify` of the description only feeds the stage-2 prompt, so it
  is left out.
- The error's `response.promptFeedback.blockReason` is an optional string on
  the error value. A block reason that is not a string is not modelled.
- `err.message` on a thrown value that is not an `Error` is not modelled.
  Every error here has a string message.
- The Gemini service's `res.data?.candidates?.[0]?.content?.parts?.[0]?.text`
  is modelled as an optional string. A `text` that is present but not a
  string is not modelled.
- The `GEMINI_API_KEY` check at module load is configuration, not part of
  the fence stripper.
- backend/routes and the frontend are not part of this model.
- Handler.EachStageRetriesOnItsOwn: states the 200 outcome under the
  condition that the stage-1 description was recovered. The property is an
  implication in its `ensures`, not a precondition.
- Recovery.PiQuotientAt, Recovery.BarePiAt: `\s` and `\b` are modelled on
  the characters this model counts as whitespace and word characters
  (`Js.IsWhitespace`, `Js.IsWordChar`). Unicode case folding and other
  regular-expression flags do not occur in the code.
