/** The small part of the JavaScript runtime the backend leans on: JSON values
    as `JSON.parse` produces them, `Error` objects, truthiness, the whitespace
    and word classes of regular expressions, `String.prototype.trim`,
    `String.prototype.includes` and `String.prototype.replace` with a global
    regular expression. */
module Js {

  datatype Option<+T> = None | Some(value: T)

  /** An `Error` object as the backend reads it: its `message`, and the
      `response.promptFeedback.blockReason` text when the model SDK attached a
      prompt-feedback record to it. */
  datatype JsError = JsError(message: string, blockReason: Option<string>)

  /** A computation that either yields a value or throws an `Error`. */
  datatype Result<+T> = Ok(value: T) | Err(error: JsError)

  /** A value that `JSON.parse` can return. Numbers are kept as reals: no
      floating-point behaviour of the backend is modelled. */
  datatype JsonValue =
    | JNull
    | JBool(b: bool)
    | JNumber(n: real)
    | JString(s: string)
    | JArray(items: seq<JsonValue>)
    | JObject(members: seq<(string, JsonValue)>)

  /** JavaScript truthiness of a JSON value; `!v` is its negation. */
  predicate Truthy(v: JsonValue) {
    match v
    case JNull => false
    case JBool(b) => b
    case JNumber(n) => n != 0.0
    case JString(s) => s != []
    case JArray(_) => true
    case JObject(_) => true
  }

  /** `typeof v === 'object'` for a JSON value: null, arrays and objects. */
  predicate TypeofObject(v: JsonValue) {
    v.JNull? || v.JArray? || v.JObject?
  }

  // ---------------------------------------------------------------------
  // Character classes

  /** The characters of `\s` and of `String.prototype.trim`: the ECMAScript
      WhiteSpace and LineTerminator productions. */
  predicate IsWhitespace(c: char) {
    c == '\t' || c == '\n' || c == '\U{B}' || c == '\U{C}' || c == '\r' || c == ' '
    || c == '\U{A0}' || c == '\U{1680}' || ('\U{2000}' <= c <= '\U{200A}')
    || c == '\U{2028}' || c == '\U{2029}' || c == '\U{202F}' || c == '\U{205F}'
    || c == '\U{3000}' || c == '\U{FEFF}'
  }

  /** The characters of `\w`: ASCII letters, digits and underscore. */
  predicate IsWordChar(c: char) {
    ('a' <= c <= 'z') || ('A' <= c <= 'Z') || ('0' <= c <= '9') || c == '_'
  }

  /** The characters of `\d`. */
  predicate IsDigit(c: char) {
    '0' <= c <= '9'
  }

  /** The characters of `[^,"}\]]`, the value class of the backend's quoting
      heuristic. */
  predicate IsValueChar(c: char) {
    c != ',' && c != '"' && c != '}' && c != ']'
  }

  /** The character classes the backend's regular expressions repeat. */
  datatype CharClass = Whitespace | Word | Digit | ValueChar

  predicate InClass(c: char, cls: CharClass) {
    match cls
    case Whitespace => IsWhitespace(c)
    case Word => IsWordChar(c)
    case Digit => IsDigit(c)
    case ValueChar => IsValueChar(c)
  }

  // ---------------------------------------------------------------------
  // Prefixes, suffixes and `includes`

  predicate StartsWith(s: string, p: string) {
    |p| <= |s| && s[..|p|] == p
  }

  predicate EndsWith(s: string, p: string) {
    |p| <= |s| && s[|s| - |p|..] == p
  }

  /** `s.includes(t)`, as a left-to-right search. */
  predicate Includes(s: string, t: string)
    decreases |s|
  {
    StartsWith(s, t) || (s != [] && Includes(s[1..], t))
  }

  /** `t` occurs in `s` starting at index `i`. */
  predicate OccursAt(s: string, t: string, i: int) {
    0 <= i <= |s| - |t| && s[i..i + |t|] == t
  }

  /** `Includes` holds exactly when `t` occurs in `s` at some index. */
  lemma {:induction false} IncludesAt(s: string, t: string)
    ensures Includes(s, t) <==> exists i :: OccursAt(s, t, i)
    decreases |s|
  {
    if StartsWith(s, t) {
      assert OccursAt(s, t, 0);
    } else if s == [] {
    } else {
      IncludesAt(s[1..], t);
      if exists i :: OccursAt(s, t, i) {
        var i :| OccursAt(s, t, i);
        assert i != 0;
        assert s[1..][i - 1..i - 1 + |t|] == s[i..i + |t|];
        assert OccursAt(s[1..], t, i - 1);
      }
      if Includes(s[1..], t) {
        var j :| OccursAt(s[1..], t, j);
        assert s[j + 1..j + 1 + |t|] == s[1..][j..j + |t|];
        assert OccursAt(s, t, j + 1);
      }
    }
  }

  /** Any text that holds `t` somewhere inside a slice of it holds `t`. */
  lemma IncludesOfSlice(s: string, i: nat, j: nat, t: string)
    requires i <= j <= |s|
    requires Includes(s[i..j], t)
    ensures Includes(s, t)
  {
    IncludesAt(s[i..j], t);
    var k :| OccursAt(s[i..j], t, k);
    assert s[i..j][k..] == s[i + k..j];
    assert s[i..j][k..][..|t|] == s[i + k..j][..|t|];
    assert s[i..j][k..k + |t|] == s[i..j][k..][..|t|];
    assert s[i + k..i + k + |t|] == s[i + k..j][..|t|];
    assert OccursAt(s, t, i + k);
    IncludesAt(s, t);
  }

  /** Text whose suffix from `i` starts with `t` includes `t`. */
  lemma IncludesFromSuffix(s: string, i: nat, t: string)
    requires i <= |s|
    ensures StartsWith(s[i..], t) ==> Includes(s, t)
  {
    if StartsWith(s[i..], t) {
      assert s[i..][..|t|] == s[i..i + |t|];
      assert OccursAt(s, t, i);
      IncludesAt(s, t);
    }
  }

  /** Dropping the first character of a text that starts with `[c] + p`
      leaves a text that starts with `p`. */
  lemma StartsWithTail(s: string, c: char, p: string)
    requires s != []
    ensures StartsWith(s, [c] + p) ==> StartsWith(s[1..], p)
  {
    if StartsWith(s, [c] + p) {
      assert s[1..][..|p|] == s[..|p| + 1][1..];
    }
  }

  /** Text that lacks the first character of `t` does not include `t`. */
  lemma NotIncludedWithoutFirstChar(s: string, t: string)
    requires t != [] && t[0] !in s
    ensures !Includes(s, t)
  {
    forall i | 0 <= i <= |s| - |t|
      ensures !OccursAt(s, t, i)
    {
      assert s[i] in s;
      assert s[i..i + |t|][0] == s[i];
    }
    IncludesAt(s, t);
  }

  // ---------------------------------------------------------------------
  // `String.prototype.trim`

  /** The length of the longest prefix of `s` whose characters all belong to
      `cls`: what a greedy `[cls]*` matches at the start of `s`. */
  function Span(s: string, cls: CharClass): (n: nat)
    ensures n <= |s|
    ensures forall k :: 0 <= k < n ==> InClass(s[k], cls)
    ensures n < |s| ==> !InClass(s[n], cls)
  {
    SpanFrom(s, cls, 0)
  }

  /** `Span` counted on from index `i`, where the run has got to. */
  function SpanFrom(s: string, cls: CharClass, i: nat): (n: nat)
    requires i <= |s|
    requires forall k :: 0 <= k < i ==> InClass(s[k], cls)
    ensures i <= n <= |s|
    ensures forall k :: 0 <= k < n ==> InClass(s[k], cls)
    ensures n < |s| ==> !InClass(s[n], cls)
    decreases |s| - i
  {
    if i < |s| && InClass(s[i], cls) then SpanFrom(s, cls, i + 1) else i
  }

  /** A run of class characters that ends the text or is followed by a
      character outside the class is exactly what `[cls]*` takes. */
  lemma SpanOfRun(w: string, rest: string, cls: CharClass)
    requires forall k :: 0 <= k < |w| ==> InClass(w[k], cls)
    requires rest != [] ==> !InClass(rest[0], cls)
    ensures Span(w + rest, cls) == |w|
  {
    var s := w + rest;
    var n := Span(s, cls);
    assert forall k :: 0 <= k < |w| ==> s[k] == w[k];
    assert |w| < |s| ==> s[|w|] == rest[0];
  }

  /** The number of whitespace characters at the start of `s`. */
  function LeadingWhitespace(s: string): nat {
    Span(s, Whitespace)
  }

  /** The number of whitespace characters at the end of `s`. */
  function TrailingWhitespace(s: string): (n: nat)
    ensures n <= |s|
    ensures forall k :: |s| - n <= k < |s| ==> IsWhitespace(s[k])
    ensures n < |s| ==> !IsWhitespace(s[|s| - 1 - n])
    decreases |s|
  {
    if s != [] && IsWhitespace(s[|s| - 1]) then 1 + TrailingWhitespace(s[..|s| - 1]) else 0
  }

  /** Text that neither starts nor ends with whitespace. */
  predicate IsTrimmed(s: string) {
    s == [] || (!IsWhitespace(s[0]) && !IsWhitespace(s[|s| - 1]))
  }

  /** `s.trim()`: the slice of `s` left after removing the longest whitespace
      prefix and then the longest whitespace suffix. */
  function Trim(s: string): (r: string)
    ensures IsTrimmed(r)
    ensures LeadingWhitespace(s) + |r| <= |s|
    ensures r == s[LeadingWhitespace(s)..LeadingWhitespace(s) + |r|]
    ensures forall k :: 0 <= k < LeadingWhitespace(s) ==> IsWhitespace(s[k])
    ensures forall k :: LeadingWhitespace(s) + |r| <= k < |s| ==> IsWhitespace(s[k])
    ensures IsTrimmed(s) ==> r == s
  {
    var a := LeadingWhitespace(s);
    var t := s[a..];
    var b := TrailingWhitespace(t);
    assert forall k :: a + |t| - b <= k < |s| ==> s[k] == t[k - a];
    t[..|t| - b]
  }

  /** Trimming a trimmed text with whitespace added at its end gives the
      text back. */
  lemma TrimDropsTrailingWhitespace(s: string, w: string)
    requires IsTrimmed(s) && s != []
    requires forall k :: 0 <= k < |w| ==> IsWhitespace(w[k])
    ensures Trim(s + w) == s
  {
    var t := s + w;
    var r := Trim(t);
    assert t[0] == s[0];
    assert LeadingWhitespace(t) == 0;
    assert t[|s| - 1] == s[|s| - 1];
    assert |r| >= |s|;
    assert forall k :: |s| <= k < |t| ==> IsWhitespace(t[k]);
    assert t[..|s|] == s;
  }

  // ---------------------------------------------------------------------
  // `String.prototype.replace` with a global regular expression

  /** One match of a regular expression anchored at the start of the text
      being scanned: how many characters it spans and what replaces them. */
  datatype Match = Match(length: nat, replacement: string)

  /** A regular expression (with its replacement), seen as the match it finds
      when tried at the start of a text. */
  type Matcher = string -> Option<Match>

  /** None of the regular expressions of the backend matches the empty
      string: every match consumes at least one character. */
  ghost predicate Consumes(m: Matcher) {
    forall t :: m(t).Some? ==> 0 < m(t).value.length <= |t|
  }

  /** `s.replace(re, f)` with the `g` flag: scan left to right, replace each
      match and resume right after it, copy every other character. */
  function ReplaceAll(s: string, m: Matcher): string
    requires Consumes(m)
    decreases |s|
  {
    if s == [] then []
    else match m(s)
      case Some(mt) => mt.replacement + ReplaceAll(s[mt.length..], m)
      case None => [s[0]] + ReplaceAll(s[1..], m)
  }

  /** A prefix inside which no match starts is copied unchanged. */
  lemma {:induction false} ReplaceAllCopies(u: string, t: string, m: Matcher)
    requires Consumes(m)
    requires forall i :: 0 <= i < |u| ==> m((u + t)[i..]).None?
    ensures ReplaceAll(u + t, m) == u + ReplaceAll(t, m)
    decreases |u|
  {
    if u != [] {
      assert (u + t)[0..] == u + t;
      assert (u + t)[1..] == u[1..] + t;
      forall i | 0 <= i < |u[1..]|
        ensures m((u[1..] + t)[i..]).None?
      {
        assert (u[1..] + t)[i..] == (u + t)[i + 1..];
      }
      ReplaceAllCopies(u[1..], t, m);
    }
  }

  /** A match at the start of the text is replaced, and the scan resumes
      right after it. */
  lemma ReplaceAllAtMatch(s: string, m: Matcher, mt: Match)
    requires Consumes(m)
    requires m(s) == Some(mt)
    ensures ReplaceAll(s, m) == mt.replacement + ReplaceAll(s[mt.length..], m)
  {
  }

  /** Text in which no match starts anywhere comes back unchanged. */
  lemma ReplaceAllNoMatch(s: string, m: Matcher)
    requires Consumes(m)
    requires forall i :: 0 <= i < |s| ==> m(s[i..]).None?
    ensures ReplaceAll(s, m) == s
  {
    assert s + [] == s;
    ReplaceAllCopies(s, [], m);
  }

  /** A replacement never longer than what it replaces never lengthens the
      text. */
  lemma {:induction false} ReplaceAllShrinks(s: string, m: Matcher)
    requires Consumes(m)
    requires forall t :: m(t).Some? ==> |m(t).value.replacement| <= m(t).value.length
    ensures |ReplaceAll(s, m)| <= |s|
    decreases |s|
  {
    if s != [] {
      match m(s)
      case Some(mt) => ReplaceAllShrinks(s[mt.length..], m);
      case None => ReplaceAllShrinks(s[1..], m);
    }
  }
}
