/** What the recovery chain does to three replies the stage-1 model is known
    to give: fenced JSON, a description with unquoted keys and values, and
    text that is not JSON at all. */
module RecoveryExamples {
  import opened Js
  import opened Fences
  import opened Quoting
  import opened Recovery

  const ColorJson: string := "{\"color\": \"#ff0000\", \"size\": 3}"

  // Facts about the literal, one per lemma to keep each proof small.

  lemma ColorJsonUnfenced()
    ensures !StartsWith(ColorJson, Fence) && !EndsWith(ColorJson, Fence)
  {
    assert !StartsWith(ColorJson, Fence) by { assert ColorJson[0] != Fence[0]; }
    assert !EndsWith(ColorJson, Fence) by { assert ColorJson[|ColorJson| - 1] != Fence[2]; }
  }

  lemma ColorJsonPrintable()
    ensures forall k :: 0 <= k < |ColorJson| ==> IsKept(ColorJson[k])
  {
  }

  lemma ColorJsonColons()
    ensures ColonsBesideQuotes(ColorJson)
  {
  }

  lemma ColorJsonTrimmed()
    ensures IsTrimmed(ColorJson) && ColorJson != []
  {
  }

  /** Fenced JSON: after `cleanResponse` the first pass hands `JSON.parse`
      exactly the JSON between the fences. */
  lemma FencedJsonReachesParser(reply: string, rt: JsonRuntime)
    requires reply == "```json\n" + ColorJson + "\n```"
    ensures FirstPassText(CleanResponse(reply), rt) == ColorJson
  {
    ColorJsonUnfenced();
    ColorJsonPrintable();
    ColorJsonColons();
    ColorJsonTrimmed();
    NotIncludedWithoutFirstChar(ColorJson, "Math.PI");
    FencedPlainJsonReachesParser(ColorJson, reply, rt);
  }

  // ---------------------------------------------------------------------
  // A description with unquoted keys and values

  const ConeText: string := "{type: ConeGeometry, args: [1,2,8]}"

  /** What the quoting heuristic makes of `ConeText`: the values are quoted,
      the keys are not, and the value class, which admits `[`, takes `[1` as
      the value of `args`. */
  const ConeQuoted: string := "{type:\"ConeGeometry\", args:\"[1\",2,8]}"

  /** `args: [1,2,8]}` becomes `args:"[1",2,8]}`. */
  lemma ConeArgs(key: string, ws: string, first: string, tail: string)
    requires key == "args" && ws == " " && first == "1" && tail == ",2,8]}"
    ensures QuoteValues(key + (":" + (ws + (("[" + first) + tail))), true)
      == QuotedPair(key, "[" + first) + tail
  {
    ArrayValueSplit(key + (":" + (ws + (("[" + first) + tail))), key, ws, first, tail, true);
  }


  /** `{type: ConeGeometry, args: [1,2,8]}` becomes
      `{type:"ConeGeometry", args:"[1",2,8]}`: both values are quoted, `args`
      with only its first element, and neither key is. */
  lemma ConeQuoting(k1: string, v1: string, k2: string, ws: string, first: string, tail: string)
    requires k1 == "type" && v1 == "ConeGeometry" && k2 == "args"
    requires ws == " " && first == "1" && tail == ",2,8]}"
    ensures var d := k2 + (":" + (ws + (("[" + first) + tail)));
      var a := k1 + (":" + (ws + (v1 + ([','] + ([' '] + d)))));
      QuoteValues(['{'] + a, true)
        == ['{'] + (QuotedPair(k1, v1) + ([','] + ([' '] + (QuotedPair(k2, "[" + first) + tail))))
  {
    var d := k2 + (":" + (ws + (("[" + first) + tail)));
    var b := [','] + ([' '] + d);
    var a := k1 + (":" + (ws + (v1 + b)));
    QuoteValuesSkips('{', a, true);
    ConeHead(a, b, k1, v1, ws);
    ConeTail(b, d, k2, ws, first, tail);
  }

  lemma ConeHead(a: string, b: string, k1: string, v1: string, ws: string)
    requires k1 == "type" && v1 == "ConeGeometry" && ws == " "
    requires b != [] && b[0] == ','
    requires a == k1 + (":" + (ws + (v1 + b)))
    ensures QuoteValues(a, true) == QuotedPair(k1, v1) + QuoteValues(b, true)
  {
    ConeWords(k1, v1, ws);
    QuoteValuesPair(a, k1, ws, v1, b, true);
  }

  lemma ConeTail(b: string, d: string, k2: string, ws: string, first: string, tail: string)
    requires k2 == "args" && ws == " " && first == "1" && tail == ",2,8]}"
    requires d == k2 + (":" + (ws + (("[" + first) + tail)))
    requires b == [','] + ([' '] + d)
    ensures QuoteValues(b, true) == [','] + ([' '] + (QuotedPair(k2, "[" + first) + tail))
  {
    QuoteValuesSkips(',', [' '] + d, true);
    QuoteValuesSkips(' ', d, true);
    ConeArgs(k2, ws, first, tail);
  }

  /** The character classes of the pieces of `ConeText`. */
  lemma ConeWords(k1: string, v1: string, ws: string)
    requires k1 == "type" && v1 == "ConeGeometry" && ws == " "
    ensures k1 != [] && forall k :: 0 <= k < |k1| ==> IsWordChar(k1[k])
    ensures forall k :: 0 <= k < |ws| ==> IsWhitespace(ws[k])
    ensures v1 != [] && !IsWhitespace(v1[0])
    ensures forall k :: 0 <= k < |v1| ==> IsValueChar(v1[k])
  {
  }

  /** The pieces of `ConeText`. */
  lemma ConeTextPieces(k1: string, v1: string, k2: string, ws: string, first: string, tail: string)
    requires k1 == "type" && v1 == "ConeGeometry" && k2 == "args"
    requires ws == " " && first == "1" && tail == ",2,8]}"
    ensures ConeText
      == ['{'] + (k1 + (":" + (ws + (v1 + ([','] + ([' '] + (k2 + (":" + (ws + (("[" + first) + tail))))))))))
  {
  }

  /** The pieces of `ConeQuoted`. */
  lemma ConeQuotedPieces(k1: string, v1: string, k2: string, first: string, tail: string)
    requires k1 == "type" && v1 == "ConeGeometry" && k2 == "args"
    requires first == "1" && tail == ",2,8]}"
    ensures ConeQuoted
      == ['{'] + (QuotedPair(k1, v1) + ([','] + ([' '] + (QuotedPair(k2, "[" + first) + tail))))
  {
    var p := QuotedPair(k1, v1);
    var q := QuotedPair(k2, "[" + first) + tail;
    ConeQuotedPairs(k1, v1, k2, first, tail);
    ConeQuotedSplit(p, q);
  }

  lemma ConeQuotedPairs(k1: string, v1: string, k2: string, first: string, tail: string)
    requires k1 == "type" && v1 == "ConeGeometry" && k2 == "args"
    requires first == "1" && tail == ",2,8]}"
    ensures QuotedPair(k1, v1) == "type:\"ConeGeometry\""
    ensures QuotedPair(k2, "[" + first) + tail == "args:\"[1\",2,8]}"
  {
  }

  lemma ConeQuotedSplit(p: string, q: string)
    requires p == "type:\"ConeGeometry\"" && q == "args:\"[1\",2,8]}"
    ensures ConeQuoted == ['{'] + (p + ([','] + ([' '] + q)))
  {
  }

  /** The facts about `ConeText` the first pass looks at. */
  lemma ConeTextUnfenced(s: string)
    requires s == ConeText
    ensures !StartsWith(s, Fence) && !EndsWith(s, Fence)
  {
    assert !StartsWith(s, Fence) by { assert s[0] != Fence[0]; }
    assert !EndsWith(s, Fence) by { assert s[|s| - 1] != Fence[2]; }
  }

  lemma ConeTextPrintable(s: string)
    requires s == ConeText
    ensures forall k :: 0 <= k < |s| ==> IsKept(s[k])
    ensures 'M' !in s
  {
  }

  /** The facts about `ConeQuoted` the second pass looks at. */
  lemma ConeQuotedPlain(s: string)
    requires s == ConeQuoted
    ensures IsTrimmed(s) && '\'' !in s && ColonsBesideQuotes(s)
  {
    ConeQuotedColons(s);
    ConeQuotedQuotes(s);
  }

  lemma ConeQuotedColons(s: string)
    requires s == ConeQuoted
    ensures ColonsBesideQuotes(s)
  {
  }

  lemma ConeQuotedQuotes(s: string)
    requires s == ConeQuoted
    ensures '\'' !in s
  {
  }

  /** The first pass hands `JSON.parse` the text with its values quoted and
      its keys still bare. */
  lemma ConeFirstPass(s: string, rt: JsonRuntime)
    requires s == ConeText
    ensures FirstPassText(s, rt) == ConeQuoted
  {
    ConeTextUnfenced(s);
    ConeTextPrintable(s);
    NotIncludedWithoutFirstChar(s, "Math.PI");
    FirstPassOnlyQuotes(s, rt);
    ConeTextPieces("type", "ConeGeometry", "args", " ", "1", ",2,8]}");
    ConeQuotedPieces("type", "ConeGeometry", "args", "1", ",2,8]}");
    ConeQuoting("type", "ConeGeometry", "args", " ", "1", ",2,8]}");
    ConeQuotedPlain(ConeQuoted);
  }

  /** When that parse throws, the second pass changes nothing: the reviver
      parse is handed the same text, whose keys are still bare. */
  lemma ConeSecondPass(s: string)
    requires s == ConeQuoted
    ensures SecondPassText(s) == s
  {
    ConeQuotedPlain(s);
    NoSingleQuotesUnchanged(s);
    QuotedColonsUntouched(s, false);
  }

  // ---------------------------------------------------------------------
  // Text that is not JSON at all

  const NotJson: string := "not json at all"

  /** The facts about `NotJson` the two passes look at. */
  lemma NotJsonPlain(s: string)
    requires s == NotJson
    ensures '`' !in s && 'M' !in s && '\'' !in s && IsTrimmed(s)
    ensures forall k :: 0 <= k < |s| ==> IsKept(s[k])
    ensures ColonsBesideQuotes(s)
  {
  }

  /** A reply that is not JSON passes `cleanResponse` and both passes
      unchanged; when neither parse accepts it, the recovery fails with its
      one parse-failure error. */
  lemma NotJsonFails(reply: string, rt: JsonRuntime)
    requires reply == NotJson
    requires rt.parse(reply).None? && rt.parseRevived(reply).None?
    ensures CleanResponse(reply) == reply
    ensures FirstPassText(reply, rt) == reply && SecondPassText(reply) == reply
    ensures ParseSceneDescription(CleanResponse(reply), rt) == Err(ParseFailure)
  {
    NotJsonPlain(reply);
    CleanResponseWithoutBackticks(reply);
    assert !StartsWith(reply, Fence) by { assert reply[0] != Fence[0]; }
    assert !EndsWith(reply, Fence) by { assert reply[|reply| - 1] != Fence[2]; }
    NotIncludedWithoutFirstChar(reply, "Math.PI");
    FirstPassLeavesPlainJsonAlone(reply, rt);
    NoSingleQuotesUnchanged(reply);
    QuotedColonsUntouched(reply, false);
  }
}
