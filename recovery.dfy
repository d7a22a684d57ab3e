/** The recovery of the stage-1 scene description from the cleaned model
    reply: the chain of regular-expression rewrites that builds `parseText`,
    the two `JSON.parse` attempts and the final object check. `JSON.parse`
    itself, with and without its reviver, and the decimal text of
    `Math.PI / divisor` are library behaviour the model does not open up:
    they are parameters. */
module Recovery {
  import opened Js
  import opened Fences
  import opened Quoting

  /** The literal that stands for a bare `Math.PI`. */
  const PiLiteral: string := "3.14159265359"

  /** The message of the error thrown when no object could be recovered. */
  const ParseFailureMessage: string :=
    "The AI response could not be parsed as valid JSON. Please try a different prompt."

  const ParseFailure: JsError := JsError(ParseFailureMessage, None)

  /** The library calls the recovery leans on. */
  datatype JsonRuntime = JsonRuntime(
    /** `JSON.parse(text)`; `None` when it throws. */
    parse: string -> Option<JsonValue>,
    /** `JSON.parse(text, reviver)` with the reviver that turns numeric
        strings into numbers and strips `"` from the other strings; `None`
        when it throws. */
    parseRevived: string -> Option<JsonValue>,
    /** `(Math.PI / parseInt(digits)).toString()`. */
    piOver: string -> string)

  // ---------------------------------------------------------------------
  // Anchored fence removal

  /** The global replacement of `^```(tag)?\s*` by nothing: a "```" at index
      0, the optional tag right after it, and all whitespace after that. The greedy `\s*` always
      succeeds, so the tag is taken whenever it is there. */
  function DropLeadingFence(s: string, tag: string): (r: string)
    ensures !StartsWith(s, Fence) ==> r == s
    ensures StartsWith(s, Fence) ==> |r| < |s| && r == s[|s| - |r|..]
  {
    if StartsWith(s, Fence) then
      var u := s[|Fence|..];
      var v := if StartsWith(u, tag) then u[|tag|..] else u;
      v[LeadingWhitespace(v)..]
    else s
  }

  /** Text made of "```", the tag, a run of whitespace and a body that does
      not start with whitespace loses exactly the fence, the tag and the
      whitespace; when the tag is not there, exactly the fence and the
      whitespace go. */
  lemma DropLeadingFenceRemoves(tag: string, ws: string, body: string)
    requires forall k :: 0 <= k < |ws| ==> IsWhitespace(ws[k])
    requires body != [] ==> !IsWhitespace(body[0])
    ensures DropLeadingFence(Fence + (tag + (ws + body)), tag) == body
    ensures !StartsWith(ws + body, tag) ==> DropLeadingFence(Fence + (ws + body), tag) == body
  {
    var v := ws + body;
    WhitespaceRunDropped(ws, body);
    var s := Fence + (tag + v);
    assert s[..|Fence|] == Fence && s[|Fence|..] == tag + v;
    assert (tag + v)[..|tag|] == tag && (tag + v)[|tag|..] == v;
    var n := Fence + v;
    assert n[..|Fence|] == Fence && n[|Fence|..] == v;
  }

  /** `\s*` takes exactly a run of whitespace followed by a character that
      is not whitespace. */
  lemma WhitespaceRunDropped(ws: string, body: string)
    requires forall k :: 0 <= k < |ws| ==> IsWhitespace(ws[k])
    requires body != [] ==> !IsWhitespace(body[0])
    ensures (ws + body)[LeadingWhitespace(ws + body)..] == body
  {
    assert forall k :: 0 <= k < |ws| ==> InClass(ws[k], Whitespace);
    SpanOfRun(ws, body, Whitespace);
    assert (ws + body)[|ws|..] == body;
  }

  // ---------------------------------------------------------------------
  // The symbolic values of pi

  /** `Math\.PI\s*\/\s*(\d+)` at the start of `t`, replaced by the decimal
      text of pi over the divisor. Greedy `\s*` before "/" and before the
      digits never has to give anything back, since neither "/" nor a digit
      is whitespace; `(\d+)` takes every digit that follows. */
  function PiQuotientAt(rt: JsonRuntime, t: string): (r: Option<Match>)
    ensures r.Some? ==> 0 < r.value.length <= |t|
    ensures r.Some? ==> StartsWith(t, "Math.PI")
  {
    if !StartsWith(t, "Math.PI") then None
    else
      var slash := 7 + LeadingWhitespace(t[7..]);
      if slash < |t| && t[slash] == '/' then
        var from := slash + 1 + LeadingWhitespace(t[slash + 1..]);
        var digits := Span(t[from..], Digit);
        if digits > 0 then Some(Match(from + digits, rt.piOver(t[from..from + digits])))
        else None
      else None
  }

  /** A run of digits after "Math.PI", optional whitespace, "/" and optional
      whitespace is one match, up to the last digit, and it becomes the
      decimal text of pi over those digits. */
  lemma PiQuotientMatches(rt: JsonRuntime, w1: string, w2: string, digits: string, rest: string)
    requires forall k :: 0 <= k < |w1| ==> IsWhitespace(w1[k])
    requires forall k :: 0 <= k < |w2| ==> IsWhitespace(w2[k])
    requires digits != [] && forall k :: 0 <= k < |digits| ==> IsDigit(digits[k])
    requires rest != [] ==> !IsDigit(rest[0])
    ensures PiQuotientAt(rt, "Math.PI" + (w1 + ("/" + (w2 + (digits + rest)))))
      == Some(Match(8 + |w1| + |w2| + |digits|, rt.piOver(digits)))
  {
    var t := "Math.PI" + (w1 + ("/" + (w2 + (digits + rest))));
    QuotientLayout(t, w1, w2, digits, rest);
    PiQuotientAtIndices(rt, t, 7 + |w1|, 8 + |w1| + |w2|, digits);
  }

  /** The positions `PiQuotientAt` finds in a quotient's text. */
  lemma QuotientLayout(t: string, w1: string, w2: string, digits: string, rest: string)
    requires forall k :: 0 <= k < |w1| ==> IsWhitespace(w1[k])
    requires forall k :: 0 <= k < |w2| ==> IsWhitespace(w2[k])
    requires digits != [] && forall k :: 0 <= k < |digits| ==> IsDigit(digits[k])
    requires rest != [] ==> !IsDigit(rest[0])
    requires t == "Math.PI" + (w1 + ("/" + (w2 + (digits + rest))))
    ensures StartsWith(t, "Math.PI")
    ensures 7 + LeadingWhitespace(t[7..]) == 7 + |w1| < |t| && t[7 + |w1|] == '/'
    ensures 8 + |w1| + LeadingWhitespace(t[8 + |w1|..]) == 8 + |w1| + |w2| <= |t|
    ensures Span(t[8 + |w1| + |w2|..], Digit) == |digits|
    ensures t[8 + |w1| + |w2|..8 + |w1| + |w2| + |digits|] == digits
  {
    var d := digits + rest;
    var u := w1 + ("/" + (w2 + d));
    assert StartsWith(t, "Math.PI") && t[7..] == u && t[7 + |w1|] == u[|w1|]
      && t[8 + |w1|..] == w2 + d && t[8 + |w1| + |w2|..] == d by {
      QuotientSlices(w1, w2, d);
    }
    assert LeadingWhitespace(u) == |w1| && u[|w1|] == '/' && LeadingWhitespace(w2 + d) == |w2| by {
      QuotientParts(w1, w2, d);
    }
    assert Span(d, Digit) == |digits| by {
      DigitRun(digits, rest);
    }
    DigitsOfQuotient(t, 8 + |w1| + |w2|, digits, rest);
  }

  /** The digits where the text from `from` on is the digits and the rest. */
  lemma DigitsOfQuotient(t: string, from: nat, digits: string, rest: string)
    requires from <= |t| && t[from..] == digits + rest
    ensures t[from..from + |digits|] == digits
  {
    assert t[from..from + |digits|] == t[from..][..|digits|];
  }

  /** Where the pieces of a quotient sit in its text. */
  lemma QuotientSlices(w1: string, w2: string, d: string)
    ensures var u := w1 + ("/" + (w2 + d));
      var t := "Math.PI" + u;
      && StartsWith(t, "Math.PI") && t[7..] == u
      && t[7 + |w1|] == u[|w1|]
      && t[8 + |w1|..] == w2 + d
      && t[8 + |w1| + |w2|..] == d
  {
    var u := w1 + ("/" + (w2 + d));
    var t := "Math.PI" + u;
    assert t[..7] == "Math.PI";
    assert t[7..] == u;
    assert u[|w1| + 1..] == w2 + d;
    assert t[8 + |w1|..] == u[|w1| + 1..];
    assert (w2 + d)[|w2|..] == d;
  }

  /** The whitespace runs around "/" are what `\s*` takes on each side. */
  lemma QuotientParts(w1: string, w2: string, d: string)
    requires forall k :: 0 <= k < |w1| ==> IsWhitespace(w1[k])
    requires forall k :: 0 <= k < |w2| ==> IsWhitespace(w2[k])
    requires d != [] ==> !IsWhitespace(d[0])
    ensures var u := w1 + ("/" + (w2 + d));
      && LeadingWhitespace(u) == |w1| && u[|w1|] == '/'
      && LeadingWhitespace(w2 + d) == |w2| && (w2 + d)[|w2|..] == d
  {
    var after := w2 + d;
    assert forall k :: 0 <= k < |w1| ==> InClass(w1[k], Whitespace);
    SpanOfRun(w1, "/" + after, Whitespace);
    assert forall k :: 0 <= k < |w2| ==> InClass(w2[k], Whitespace);
    SpanOfRun(w2, d, Whitespace);
  }

  /** A digit run followed by a non-digit is what `(\d+)` takes. */
  lemma DigitRun(digits: string, rest: string)
    requires forall k :: 0 <= k < |digits| ==> IsDigit(digits[k])
    requires rest != [] ==> !IsDigit(rest[0])
    ensures Span(digits + rest, Digit) == |digits|
  {
    assert forall k :: 0 <= k < |digits| ==> InClass(digits[k], Digit);
    SpanOfRun(digits, rest, Digit);
  }

  /** `PiQuotientAt` once the positions of "/" and of the digits are known. */
  lemma PiQuotientAtIndices(rt: JsonRuntime, t: string, slash: nat, from: nat, digits: string)
    requires StartsWith(t, "Math.PI")
    requires 7 + LeadingWhitespace(t[7..]) == slash < |t| && t[slash] == '/'
    requires slash + 1 + LeadingWhitespace(t[slash + 1..]) == from <= |t|
    requires 0 < |digits| == Span(t[from..], Digit)
    requires t[from..from + |digits|] == digits
    ensures PiQuotientAt(rt, t) == Some(Match(from + |digits|, rt.piOver(digits)))
  {
  }

  /** The `Math.PI / n` step replaces such a quotient by the decimal text
      of pi over `n` and goes on with the rest of the text. */
  lemma PiQuotientReplaced(rt: JsonRuntime, w1: string, w2: string, digits: string, rest: string)
    requires forall k :: 0 <= k < |w1| ==> IsWhitespace(w1[k])
    requires forall k :: 0 <= k < |w2| ==> IsWhitespace(w2[k])
    requires digits != [] && forall k :: 0 <= k < |digits| ==> IsDigit(digits[k])
    requires rest != [] ==> !IsDigit(rest[0])
    ensures ReplaceAll("Math.PI" + (w1 + ("/" + (w2 + (digits + rest)))), t => PiQuotientAt(rt, t))
      == rt.piOver(digits) + ReplaceAll(rest, t => PiQuotientAt(rt, t))
  {
    var t := "Math.PI" + (w1 + ("/" + (w2 + (digits + rest))));
    var mt := Match(8 + |w1| + |w2| + |digits|, rt.piOver(digits));
    PiQuotientMatches(rt, w1, w2, digits, rest);
    QuotientRest(w1, w2, digits, rest);
    PiQuotientStep(rt, t, mt, rest);
  }

  /** Where a quotient matches, the step writes its replacement and goes on
      after it. */
  lemma PiQuotientStep(rt: JsonRuntime, t: string, mt: Match, rest: string)
    requires PiQuotientAt(rt, t) == Some(mt) && t[mt.length..] == rest
    ensures ReplaceAll(t, u => PiQuotientAt(rt, u)) == mt.replacement + ReplaceAll(rest, u => PiQuotientAt(rt, u))
  {
    ReplaceAllAtMatch(t, u => PiQuotientAt(rt, u), mt);
  }

  /** What follows a quotient's digits in its text. */
  lemma QuotientRest(w1: string, w2: string, digits: string, rest: string)
    ensures ("Math.PI" + (w1 + ("/" + (w2 + (digits + rest)))))[8 + |w1| + |w2| + |digits|..] == rest
  {
    var d := digits + rest;
    QuotientSlices(w1, w2, d);
    assert d[|digits|..] == rest;
  }

  /** `Math.PI` with no "/" anywhere after it is no quotient: the step
      leaves it for the bare-pi step that follows. */
  lemma PiWithoutSlashKept(rt: JsonRuntime, rest: string)
    requires forall k :: 0 <= k < |rest| ==> rest[k] != '/'
    ensures PiQuotientAt(rt, "Math.PI" + rest).None?
    ensures ReplaceAll("Math.PI" + rest, t => PiQuotientAt(rt, t))
      == "Math.PI" + ReplaceAll(rest, t => PiQuotientAt(rt, t))
  {
    var t := "Math.PI" + rest;
    assert t[7..] == rest;
    var n := LeadingWhitespace(rest);
    assert 7 + n < |t| ==> t[7 + n] == rest[n];
    QuotientlessPiCopied(rt, rest);
  }

  /** `Math.PI` followed by whitespace and then anything but "/" is no
      quotient: `\s*` takes the whitespace and "/" must come next. */
  lemma PiWithoutQuotientKept(rt: JsonRuntime, w1: string, tail: string)
    requires forall k :: 0 <= k < |w1| ==> IsWhitespace(w1[k])
    requires tail != [] ==> !IsWhitespace(tail[0]) && tail[0] != '/'
    ensures PiQuotientAt(rt, "Math.PI" + (w1 + tail)).None?
    ensures ReplaceAll("Math.PI" + (w1 + tail), t => PiQuotientAt(rt, t))
      == "Math.PI" + ReplaceAll(w1 + tail, t => PiQuotientAt(rt, t))
  {
    var u := w1 + tail;
    var t := "Math.PI" + u;
    assert forall k :: 0 <= k < |w1| ==> InClass(w1[k], Whitespace);
    SpanOfRun(w1, tail, Whitespace);
    PiPrefix(u);
    assert 7 + |w1| < |t| ==> t[7 + |w1|] == tail[0];
    PiQuotientAtNoSlash(rt, t, 7 + |w1|);
    QuotientlessPiCopied(rt, u);
  }

  /** "Math.PI" and what follows it. */
  lemma PiPrefix(u: string)
    ensures StartsWith("Math.PI" + u, "Math.PI") && ("Math.PI" + u)[7..] == u
  {
    assert ("Math.PI" + u)[..7] == "Math.PI";
  }

  /** `PiQuotientAt` once the whitespace after "Math.PI" is skipped and no
      "/" stands there. */
  lemma PiQuotientAtNoSlash(rt: JsonRuntime, t: string, slash: nat)
    requires StartsWith(t, "Math.PI")
    requires 7 + LeadingWhitespace(t[7..]) == slash
    requires slash < |t| ==> t[slash] != '/'
    ensures PiQuotientAt(rt, t).None?
  {
  }

  /** A "/" after `Math.PI` that is not followed by a digit once the
      whitespace is skipped is no quotient either: `(\d+)` needs a digit. */
  lemma SlashWithoutDigitsKept(rt: JsonRuntime, w1: string, w2: string, tail: string)
    requires forall k :: 0 <= k < |w1| ==> IsWhitespace(w1[k])
    requires forall k :: 0 <= k < |w2| ==> IsWhitespace(w2[k])
    requires tail != [] ==> !IsWhitespace(tail[0]) && !IsDigit(tail[0])
    ensures PiQuotientAt(rt, "Math.PI" + (w1 + ("/" + (w2 + tail)))).None?
    ensures ReplaceAll("Math.PI" + (w1 + ("/" + (w2 + tail))), t => PiQuotientAt(rt, t))
      == "Math.PI" + ReplaceAll(w1 + ("/" + (w2 + tail)), t => PiQuotientAt(rt, t))
  {
    var t := "Math.PI" + (w1 + ("/" + (w2 + tail)));
    QuotientParts(w1, w2, tail);
    QuotientSlices(w1, w2, tail);
    assert Span(tail, Digit) == 0;
    PiQuotientAtNoDigits(rt, t, 7 + |w1|, 8 + |w1| + |w2|);
    QuotientlessPiCopied(rt, w1 + ("/" + (w2 + tail)));
  }

  /** `PiQuotientAt` once "/" is found and no digit follows the whitespace
      after it. */
  lemma PiQuotientAtNoDigits(rt: JsonRuntime, t: string, slash: nat, from: nat)
    requires StartsWith(t, "Math.PI")
    requires 7 + LeadingWhitespace(t[7..]) == slash < |t| && t[slash] == '/'
    requires slash + 1 + LeadingWhitespace(t[slash + 1..]) == from <= |t|
    requires Span(t[from..], Digit) == 0
    ensures PiQuotientAt(rt, t).None?
  {
  }

  /** A `Math.PI` that starts no quotient is copied by the `Math.PI / n`
      step, which goes on scanning after it. */
  lemma QuotientlessPiCopied(rt: JsonRuntime, rest: string)
    requires PiQuotientAt(rt, "Math.PI" + rest).None?
    ensures ReplaceAll("Math.PI" + rest, t => PiQuotientAt(rt, t))
      == "Math.PI" + ReplaceAll(rest, t => PiQuotientAt(rt, t))
  {
    var u := "Math.PI";
    forall i | 0 <= i < |u|
      ensures PiQuotientAt(rt, (u + rest)[i..]).None?
    {
      if i > 0 {
        var t := (u + rest)[i..];
        assert t[0] == u[i] != 'M';
        assert !StartsWith(t, "Math.PI") by { assert |t| >= 7 ==> t[..7][0] == t[0]; }
      }
    }
    ReplaceAllCopies(u, rest, t => PiQuotientAt(rt, t));
  }

  /** `-?Math\.PI\b` at the start of `t`, replaced by the literal with the
      sign kept. `\b` after the word character "I" asks that no word
      character follows. When "-Math.PI" is not followed by a boundary the
      engine retries without the sign, which fails at "-"; the scan then
      moves on one character. */
  function BarePiAt(t: string): (r: Option<Match>)
    ensures r.Some? ==> 0 < r.value.length <= |t|
    ensures r.Some? ==> StartsWith(t, "Math.PI") || StartsWith(t, "-Math.PI")
  {
    if StartsWith(t, "-Math.PI") && (|t| == 8 || !IsWordChar(t[8])) then Some(Match(8, "-" + PiLiteral))
    else if StartsWith(t, "Math.PI") && (|t| == 7 || !IsWordChar(t[7])) then Some(Match(7, PiLiteral))
    else None
  }

  // ---------------------------------------------------------------------
  // Character filter

  /** The characters `[^\x20-\x7E\r\n]` lets through: printable ASCII,
      carriage return and line feed. */
  predicate IsKept(c: char) {
    (' ' <= c <= '~') || c == '\r' || c == '\n'
  }

  /** `[^\x20-\x7E\r\n]` at the start of `t`, replaced by nothing. */
  function NonPrintableAt(t: string): (r: Option<Match>)
    ensures r.Some? ==> 0 < r.value.length <= |t|
  {
    if t != [] && !IsKept(t[0]) then Some(Match(1, "")) else None
  }

  // ---------------------------------------------------------------------
  // The chain

  /** Both steps of the symbolic-pi substitution, in their order. */
  function SubstitutePi(s: string, rt: JsonRuntime): string {
    ReplaceAll(ReplaceAll(s, t => PiQuotientAt(rt, t)), BarePiAt)
  }

  function StripNonPrintable(s: string): string {
    ReplaceAll(s, NonPrintableAt)
  }

  /** `parseText` as first built from the cleaned reply. */
  function FirstPassText(cleaned: string, rt: JsonRuntime): string {
    var t := DropLeadingFence(cleaned, "json");
    var t := DropClosingFence(t);
    var t := DropLeadingFence(t, "");
    var t := SubstitutePi(t, rt);
    var t := StripNonPrintable(t);
    var t := QuoteValues(t, true);
    Trim(t)
  }

  /** `parseText` as rebuilt after the first parse failed. */
  function SecondPassText(parseText: string): string {
    QuoteValues(ReplaceAll(parseText, SingleQuoteAt), false)
  }

  /** The check `!sceneDescription || typeof sceneDescription !== 'object'`
      lets through exactly the arrays and the objects. */
  predicate PassesObjectCheck(v: JsonValue) {
    Truthy(v) && TypeofObject(v)
  }

  /** The stage-1 `try` block: parse the first-pass text; only when that
      throws, parse the second-pass text with the reviver; then the object
      check. Every failure inside becomes the one parse-failure error. */
  function ParseSceneDescription(cleaned: string, rt: JsonRuntime): (r: Result<JsonValue>)
    ensures r.Ok? ==> PassesObjectCheck(r.value)
    ensures r.Err? ==> r.error == ParseFailure
  {
    ParseFrom(FirstPassText(cleaned, rt), rt)
  }

  /** The `try` block from the first `JSON.parse` on, for the first-pass
      text `parseText`. */
  function ParseFrom(parseText: string, rt: JsonRuntime): (r: Result<JsonValue>)
    ensures r.Ok? ==> PassesObjectCheck(r.value)
    ensures r.Err? ==> r.error == ParseFailure
  {
    var parsed := match rt.parse(parseText)
      case Some(v) => Some(v)
      case None => rt.parseRevived(SecondPassText(parseText));
    if parsed.Some? && PassesObjectCheck(parsed.value) then Ok(parsed.value)
    else Err(ParseFailure)
  }

  /** The object check accepts exactly the objects and the arrays: `null`,
      and every string, number and boolean, is rejected. */
  lemma ObjectCheckAcceptsObjectsAndArrays(v: JsonValue)
    ensures PassesObjectCheck(v) <==> v.JObject? || v.JArray?
  {
  }

  /** When the first parse returns a value, that value alone decides: it is
      kept if it passes the object check, and otherwise the stage fails
      without trying the second pass. */
  lemma FirstParseDecides(parseText: string, rt: JsonRuntime, v: JsonValue)
    requires rt.parse(parseText) == Some(v)
    ensures ParseFrom(parseText, rt)
      == if v.JObject? || v.JArray? then Ok(v) else Err(ParseFailure)
  {
  }

  /** When the first parse throws, the reviver parse of the second-pass
      text decides, under the same object check. */
  lemma SecondParseDecides(parseText: string, rt: JsonRuntime)
    requires rt.parse(parseText).None?
    ensures var revived := rt.parseRevived(SecondPassText(parseText));
      ParseFrom(parseText, rt)
        == if revived.Some? && (revived.value.JObject? || revived.value.JArray?) then Ok(revived.value)
           else Err(ParseFailure)
  {
  }

  /** The parse-failure message mentions JSON, which the handler's error
      mapping looks for. */
  lemma ParseFailureMentionsJson()
    ensures Includes(ParseFailureMessage, "JSON")
  {
    var s := ParseFailureMessage;
    assert s[45] == 'J' && s[46] == 'S' && s[47] == 'O' && s[48] == 'N';
    assert s[45..49] == "JSON";
    assert OccursAt(s, "JSON", 45);
    IncludesAt(s, "JSON");
  }

  // ---------------------------------------------------------------------
  // Properties of the steps

  /** The filter keeps only printable ASCII, carriage returns and line
      feeds. */
  lemma {:induction false} StripNonPrintableKeepsOnlyPrintable(s: string)
    ensures forall k :: 0 <= k < |StripNonPrintable(s)| ==> IsKept(StripNonPrintable(s)[k])
    decreases |s|
  {
    if s != [] {
      assert StripNonPrintable(s) == (if IsKept(s[0]) then [s[0]] else []) + StripNonPrintable(s[1..]);
      StripNonPrintableKeepsOnlyPrintable(s[1..]);
    }
  }

  /** The filter works character by character: filtering a concatenation is
      concatenating the filtered parts, so the output is the input's kept
      characters in their order. */
  lemma {:induction false} StripNonPrintableSplits(a: string, b: string)
    ensures StripNonPrintable(a + b) == StripNonPrintable(a) + StripNonPrintable(b)
    decreases |a|
  {
    if a != [] {
      assert (a + b)[0] == a[0];
      assert (a + b)[1..] == a[1..] + b;
      var head := if IsKept(a[0]) then [a[0]] else [];
      assert StripNonPrintable(a + b) == head + StripNonPrintable(a[1..] + b);
      assert StripNonPrintable(a) == head + StripNonPrintable(a[1..]);
      StripNonPrintableSplits(a[1..], b);
    } else {
      assert a + b == b;
    }
  }

  /** On one character the filter keeps it exactly when it is printable ASCII,
      a carriage return or a line feed. */
  lemma StripNonPrintableChar(c: char)
    ensures StripNonPrintable([c]) == if IsKept(c) then [c] else []
  {
    assert [c][1..] == [];
    assert StripNonPrintable([c]) == (if IsKept(c) then [c] else []) + StripNonPrintable([]);
  }

  /** Text made only of kept characters passes the filter unchanged. */
  lemma StripNonPrintableKeepsPrintableText(s: string)
    requires forall k :: 0 <= k < |s| ==> IsKept(s[k])
    ensures StripNonPrintable(s) == s
  {
    forall i | 0 <= i < |s|
      ensures NonPrintableAt(s[i..]).None?
    {
      assert s[i..][0] == s[i];
    }
    ReplaceAllNoMatch(s, NonPrintableAt);
  }

  /** Text that never mentions `Math.PI` is left alone by both
      substitutions. */
  lemma PiFreeTextUnchanged(s: string, rt: JsonRuntime)
    requires !Includes(s, "Math.PI")
    ensures SubstitutePi(s, rt) == s
  {
    PiFreeNoQuotient(s, rt);
    PiFreeNoBarePi(s);
  }

  lemma PiFreeNoQuotient(s: string, rt: JsonRuntime)
    requires !Includes(s, "Math.PI")
    ensures ReplaceAll(s, t => PiQuotientAt(rt, t)) == s
  {
    forall i | 0 <= i < |s|
      ensures PiQuotientAt(rt, s[i..]).None?
    {
      IncludesFromSuffix(s, i, "Math.PI");
    }
    ReplaceAllNoMatch(s, t => PiQuotientAt(rt, t));
  }

  lemma PiFreeNoBarePi(s: string)
    requires !Includes(s, "Math.PI")
    ensures ReplaceAll(s, BarePiAt) == s
  {
    forall i | 0 <= i < |s|
      ensures BarePiAt(s[i..]).None?
    {
      IncludesFromSuffix(s, i, "Math.PI");
      IncludesFromSuffix(s, i + 1, "Math.PI");
      StartsWithTail(s[i..], '-', "Math.PI");
      assert s[i..][1..] == s[i + 1..];
    }
    ReplaceAllNoMatch(s, BarePiAt);
  }

  /** A `Math.PI` that no word character follows becomes the literal, and a
      `-` in front of it stays in front of the literal. */
  lemma BarePiReplaced(rest: string)
    requires rest == [] || !IsWordChar(rest[0])
    ensures ReplaceAll("Math.PI" + rest, BarePiAt) == PiLiteral + ReplaceAll(rest, BarePiAt)
    ensures ReplaceAll("-Math.PI" + rest, BarePiAt) == "-" + PiLiteral + ReplaceAll(rest, BarePiAt)
  {
    var s := "Math.PI" + rest;
    assert s[..7] == "Math.PI" && s[7..] == rest;
    assert s[0] != "-Math.PI"[0];
    assert BarePiAt(s) == Some(Match(7, PiLiteral));
    var n := "-Math.PI" + rest;
    assert n[..8] == "-Math.PI" && n[8..] == rest;
    assert BarePiAt(n) == Some(Match(8, "-" + PiLiteral));
  }

  /** `Math.PI` glued to a following word character (`Math.PIx`, `Math.PI2`)
      is not a symbolic pi: it is copied, sign and all. */
  lemma GluedPiKept(rest: string)
    requires rest != [] && IsWordChar(rest[0])
    ensures ReplaceAll("Math.PI" + rest, BarePiAt) == "Math.PI" + ReplaceAll(rest, BarePiAt)
    ensures ReplaceAll("-Math.PI" + rest, BarePiAt) == "-Math.PI" + ReplaceAll(rest, BarePiAt)
  {
    GluedPiCopied("Math.PI", rest);
    GluedPiCopied("-Math.PI", rest);
  }

  /** No bare pi starts inside `u + rest` before `rest`, for `u` a glued
      `Math.PI` with or without its sign. */
  lemma GluedPiCopied(u: string, rest: string)
    requires u == "Math.PI" || u == "-Math.PI"
    requires rest != [] && IsWordChar(rest[0])
    ensures ReplaceAll(u + rest, BarePiAt) == u + ReplaceAll(rest, BarePiAt)
  {
    forall i | 0 <= i < |u|
      ensures BarePiAt((u + rest)[i..]).None?
    {
      var t := (u + rest)[i..];
      assert t[0] == u[i];
      if u[i] == '-' {
        assert t[1] == 'M' && t[8] == rest[0];
        GluedAt(t, 8);
      } else if u[i] == 'M' {
        assert t[7] == rest[0];
        GluedAt(t, 7);
      } else {
        NeitherSignNorM(t);
      }
    }
    ReplaceAllCopies(u, rest, BarePiAt);
  }

  /** A `Math.PI` at the start of `t` glued to the word character at `n`
      is not a bare pi. */
  lemma GluedAt(t: string, n: nat)
    requires n == 7 || n == 8
    requires n < |t| && IsWordChar(t[n])
    requires n == 8 ==> t[0] == '-' && t[1] == 'M'
    requires n == 7 ==> t[0] == 'M'
    ensures BarePiAt(t).None?
  {
    if n == 8 {
      assert !StartsWith(t, "Math.PI") by { assert t[..7][0] == t[0] && t[0] != 'M'; }
    } else {
      assert !StartsWith(t, "-Math.PI") by { assert t[..8][0] == t[0]; }
    }
  }

  /** Text that starts with neither `-` nor `M` holds no bare pi at its
      start. */
  lemma NeitherSignNorM(t: string)
    requires t != [] && t[0] != '-' && t[0] != 'M'
    ensures BarePiAt(t).None?
  {
    if |t| >= 7 {
      assert t[..7][0] == t[0];
    }
    if |t| >= 8 {
      assert t[..8][0] == t[0];
    }
  }

  /** On text with no fence at either end, no `Math.PI` and only kept
      characters, the first pass does nothing but the quoting heuristic
      and the final trim. */
  lemma FirstPassOnlyQuotes(s: string, rt: JsonRuntime)
    requires !StartsWith(s, Fence) && !EndsWith(s, Fence)
    requires !Includes(s, "Math.PI")
    requires forall k :: 0 <= k < |s| ==> IsKept(s[k])
    ensures FirstPassText(s, rt) == Trim(QuoteValues(s, true))
  {
    PiFreeTextUnchanged(s, rt);
    StripNonPrintableKeepsPrintableText(s);
  }

  /** The first pass leaves alone text that is already plain JSON of the
      expected kind: no fence at either end, no `Math.PI`, only kept
      characters, every colon beside a quote, no surrounding whitespace. A
      colon inside a string value (`"at 12:30, noon"`) breaks the last
      condition, and the heuristic then rewrites the text. */
  lemma FirstPassLeavesPlainJsonAlone(s: string, rt: JsonRuntime)
    requires !StartsWith(s, Fence) && !EndsWith(s, Fence)
    requires !Includes(s, "Math.PI")
    requires forall k :: 0 <= k < |s| ==> IsKept(s[k])
    requires ColonsBesideQuotes(s)
    requires IsTrimmed(s)
    ensures FirstPassText(s, rt) == s
  {
    FirstPassOnlyQuotes(s, rt);
    QuotedColonsUntouched(s, true);
  }

  /** A reply that fences text as "```json" on its own line, with the
      closing fence on the next line, is cleaned down to that text when it
      has no surrounding whitespace. */
  lemma CleanResponseOfJsonBlock(json: string)
    requires json != [] && IsTrimmed(json)
    ensures CleanResponse("```json\n" + json + "\n```") == json
  {
    var body := json + "\n";
    JsonBlockShape("```json\n", "\n```", json);
    CleanResponseUnwraps("json", body);
    TrimDropsTrailingWhitespace(json, "\n");
  }

  lemma JsonBlockShape(open: string, close: string, json: string)
    requires open == "```json\n" && close == "\n```"
    ensures open + json + close == Fence + "json" + "\n" + (json + "\n") + Fence
  {
    assert open == Fence + "json" + "\n";
    assert close == "\n" + Fence;
  }

  /** A reply that fences such plain JSON as "```json" hands `JSON.parse`
      exactly the JSON between the fences. */
  lemma FencedPlainJsonReachesParser(json: string, reply: string, rt: JsonRuntime)
    requires json != []
    requires !StartsWith(json, Fence) && !EndsWith(json, Fence)
    requires !Includes(json, "Math.PI")
    requires forall k :: 0 <= k < |json| ==> IsKept(json[k])
    requires ColonsBesideQuotes(json)
    requires IsTrimmed(json)
    requires reply == "```json\n" + json + "\n```"
    ensures FirstPassText(CleanResponse(reply), rt) == json
  {
    CleanResponseOfJsonBlock(json);
    FirstPassLeavesPlainJsonAlone(json, rt);
  }
}
