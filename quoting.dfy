/** The lossy `key: value` quoting heuristic of the recovery chain, in its
    two variants, and the quote swap that precedes the second one. */
module Quoting {
  import opened Js

  /** Characters of the lookahead `(?=[,}\]])`. */
  predicate IsCloser(c: char) {
    c == ',' || c == '}' || c == ']'
  }

  /** Where the `:` of a `(\w+)\s*:` at the start of `t` has to stand: after
      every word character there and the whitespace that follows them. A
      shorter `\w+` would leave a word character where `\s*:` must go, so
      only the longest one can match. */
  function ColonIndex(t: string): nat {
    var key := Span(t, Word);
    key + LeadingWhitespace(t[key..])
  }

  /** The replacement pattern `$1:"$2"`. */
  function QuotedPair(key: string, value: string): string {
    key + Opening + value + Closing
  }

  const Opening: string := ":\""
  const Closing: string := "\""

  /** `(\w+)\s*:\s*([^,"}\]]+)` at the start of `t`, followed by the lookahead
      `(?=[,}\]])` when `lookahead` holds, replaced by `$1:"$2"`. */
  function KeyValueAt(t: string, lookahead: bool): (r: Option<Match>)
    ensures r.Some? ==> 0 < r.value.length <= |t|
  {
    var key := Span(t, Word);
    var colon := ColonIndex(t);
    if key == 0 || colon == |t| || t[colon] != ':' then None
    else
      match ValueAt(t[..key], t[colon + 1..], lookahead)
      case None => None
      case Some(m) => Some(Match(colon + 1 + m.length, m.replacement))
  }

  /** The part of `KeyValueAt` after the colon: `\s*([^,"}\]]+)` and the
      lookahead at the start of `u`, for the key `key`; the match length
      counts from the start of `u`.

      The greedy `\s*` takes all whitespace and the value class then takes
      all it can. When it finds nothing there, `\s*` gives back its last
      whitespace character, which becomes the whole value. The lookahead
      cannot be met by giving back more: the characters of the value class
      are never closers, and a shorter value ends before one of them. */
  function ValueAt(key: string, u: string, lookahead: bool): (r: Option<Match>)
    ensures r.Some? ==> 0 < r.value.length <= |u| && u[0] != '"'
  {
    var gap := LeadingWhitespace(u);
    var run := Span(u[gap..], ValueChar);
    if run == 0 && gap == 0 then None
    else
      var from := if run > 0 then gap else gap - 1;
      var to := gap + run;
      if lookahead && !(to < |u| && IsCloser(u[to])) then None
      else Some(Match(to, QuotedPair(key, u[from..to])))
  }

  /** A key/value match needs a colon at `ColonIndex`, with no double quote
      right before it and none right after it. */
  lemma KeyValueAtColon(t: string, lookahead: bool)
    ensures KeyValueAt(t, lookahead).Some? ==>
      && 0 < ColonIndex(t) < |t| && t[ColonIndex(t)] == ':' && t[ColonIndex(t) - 1] != '"'
      && ColonIndex(t) + 1 < |t| && t[ColonIndex(t) + 1] != '"'
  {
  }

  /** `'` at the start of `t`, replaced by `"`. */
  function SingleQuoteAt(t: string): (r: Option<Match>)
    ensures r.Some? ==> 0 < r.value.length <= |t|
  {
    if t != [] && t[0] == '\'' then Some(Match(1, "\"")) else None
  }

  /** `s.replace(/(\w+)\s*:\s*([^,"}\]]+)(?=[,}\]])/g, '$1:"$2"')`, or without
      the lookahead when `lookahead` is false. */
  function QuoteValues(s: string, lookahead: bool): string {
    ReplaceAll(s, t => KeyValueAt(t, lookahead))
  }

  /** Every colon of `s` has a double quote right before or right after it. */
  predicate ColonsBesideQuotes(s: string) {
    forall i :: 0 <= i < |s| && s[i] == ':' ==>
      (0 < i && s[i - 1] == '"') || (i + 1 < |s| && s[i + 1] == '"')
  }

  /** A colon with a quote right before or right after it never closes a key
      of the heuristic: text whose every colon is like that (the colons of
      quoted keys, and of values already quoted) is left alone. */
  lemma QuotedColonsUntouched(s: string, lookahead: bool)
    requires ColonsBesideQuotes(s)
    ensures QuoteValues(s, lookahead) == s
  {
    forall i | 0 <= i < |s|
      ensures KeyValueAt(s[i..], lookahead).None?
    {
      var t := s[i..];
      KeyValueAtColon(t, lookahead);
      var c := ColonIndex(t);
      assert c < |t| ==> t[c] == s[i + c];
      assert 0 < c < |t| ==> t[c - 1] == s[i + c - 1];
      assert c + 1 < |t| ==> t[c + 1] == s[i + c + 1];
    }
    ReplaceAllNoMatch(s, t => KeyValueAt(t, lookahead));
  }

  /** Text without a single quote is left alone by the quote swap. */
  lemma NoSingleQuotesUnchanged(s: string)
    requires '\'' !in s
    ensures ReplaceAll(s, SingleQuoteAt) == s
  {
    forall i | 0 <= i < |s|
      ensures SingleQuoteAt(s[i..]).None?
    {
      assert s[i..][0] == s[i] && s[i] in s;
    }
    ReplaceAllNoMatch(s, SingleQuoteAt);
  }

  /** The quote swap turns every single quote into a double quote and
      leaves every other character where it was. */
  lemma {:induction false} SingleQuotesSwapped(s: string)
    ensures |ReplaceAll(s, SingleQuoteAt)| == |s|
    ensures forall i :: 0 <= i < |s| ==>
      ReplaceAll(s, SingleQuoteAt)[i] == (if s[i] == '\'' then '"' else s[i])
    decreases |s|
  {
    if s != [] {
      SingleQuotesSwapped(s[1..]);
      var r := ReplaceAll(s, SingleQuoteAt);
      var tail := ReplaceAll(s[1..], SingleQuoteAt);
      assert r == [if s[0] == '\'' then '"' else s[0]] + tail;
      forall i | 0 < i < |s|
        ensures r[i] == (if s[i] == '\'' then '"' else s[i])
      {
        assert r[i] == tail[i - 1] && s[1..][i - 1] == s[i];
      }
    }
  }

  /** An unquoted `key: value` pair is rewritten to `key:"value"`: the key is
      a run of word characters with the colon right after it, the value
      starts after the whitespace that follows the colon and runs up to the
      first `,`, `"`, `}` or `]`, which the first-pass variant also asks to
      be one of `,`, `}`, `]`. Keys are never quoted. */
  lemma KeyValueRewritten(t: string, key: string, ws: string, value: string, rest: string, lookahead: bool)
    requires key != [] && forall k :: 0 <= k < |key| ==> IsWordChar(key[k])
    requires forall k :: 0 <= k < |ws| ==> IsWhitespace(ws[k])
    requires value != [] && !IsWhitespace(value[0])
    requires forall k :: 0 <= k < |value| ==> IsValueChar(value[k])
    requires rest != [] ==> !IsValueChar(rest[0])
    requires lookahead ==> rest != [] && IsCloser(rest[0])
    requires t == key + (":" + (ws + (value + rest)))
    ensures KeyValueAt(t, lookahead) == Some(Match(|key| + 1 + |ws| + |value|, QuotedPair(key, value)))
  {
    var u := ws + (value + rest);
    var m := Match(|ws| + |value|, QuotedPair(key, value));
    assert ValueAt(key, u, lookahead) == Some(m) by {
      ValueRewritten(key, ws, value, rest, lookahead);
    }
    KeyBeforeColon(t, key, u);
    KeyValueAtOfParts(t, key, u, lookahead, m);
  }

  /** A key, the colon right after it, and a value match on the rest make a
      key/value match. */
  lemma KeyValueAtOfParts(t: string, key: string, u: string, lookahead: bool, m: Match)
    requires 0 < |key| < |t| && Span(t, Word) == |key| && ColonIndex(t) == |key| && t[|key|] == ':'
    requires t[..|key|] == key && t[|key| + 1..] == u
    requires ValueAt(key, u, lookahead) == Some(m)
    ensures KeyValueAt(t, lookahead) == Some(Match(|key| + 1 + m.length, m.replacement))
  {
  }

  /** A key made of word characters and followed by a colon: where it ends,
      where the colon stands and what follows it. */
  lemma KeyBeforeColon(t: string, key: string, u: string)
    requires key != [] && forall k :: 0 <= k < |key| ==> IsWordChar(key[k])
    requires t == key + (":" + u)
    ensures |key| < |t| && t[|key|] == ':' && t[..|key|] == key && t[|key| + 1..] == u
    ensures Span(t, Word) == |key| && ColonIndex(t) == |key|
  {
    SpanOfRun(key, ":" + u, Word);
    assert t[|key|..] == ":" + u;
    assert t[|key|] == ':';
    assert t[|key| + 1..] == (":" + u)[1..];
  }

  /** The value part: whitespace, then a value followed by text that starts
      outside the value class. */
  lemma ValueRewritten(key: string, ws: string, value: string, rest: string, lookahead: bool)
    requires forall k :: 0 <= k < |ws| ==> IsWhitespace(ws[k])
    requires value != [] && !IsWhitespace(value[0])
    requires forall k :: 0 <= k < |value| ==> IsValueChar(value[k])
    requires rest != [] ==> !IsValueChar(rest[0])
    requires lookahead ==> rest != [] && IsCloser(rest[0])
    ensures ValueAt(key, ws + (value + rest), lookahead)
      == Some(Match(|ws| + |value|, QuotedPair(key, value)))
  {
    var u := ws + (value + rest);
    SpanOfRun(ws, value + rest, Whitespace);
    assert u[|ws|..] == value + rest;
    SpanOfRun(value, rest, ValueChar);
    assert u[|ws|..|ws| + |value|] == value;
    assert rest != [] ==> u[|ws| + |value|] == rest[0];
  }

  /** `(\w+)\s*:` also lets whitespace stand between the key and the colon:
      `key : value` is rewritten to `key:"value"`, and that whitespace goes
      with the match. */
  lemma KeyValueRewrittenSpaced(t: string, key: string, ws0: string, ws: string, value: string, rest: string, lookahead: bool)
    requires key != [] && forall k :: 0 <= k < |key| ==> IsWordChar(key[k])
    requires forall k :: 0 <= k < |ws0| ==> IsWhitespace(ws0[k])
    requires forall k :: 0 <= k < |ws| ==> IsWhitespace(ws[k])
    requires value != [] && !IsWhitespace(value[0])
    requires forall k :: 0 <= k < |value| ==> IsValueChar(value[k])
    requires rest != [] ==> !IsValueChar(rest[0])
    requires lookahead ==> rest != [] && IsCloser(rest[0])
    requires t == key + (ws0 + (":" + (ws + (value + rest))))
    ensures KeyValueAt(t, lookahead)
      == Some(Match(|key| + |ws0| + 1 + |ws| + |value|, QuotedPair(key, value)))
  {
    var u := ws + (value + rest);
    var m := Match(|ws| + |value|, QuotedPair(key, value));
    assert ValueAt(key, u, lookahead) == Some(m) by {
      ValueRewritten(key, ws, value, rest, lookahead);
    }
    SpacedKeyPair(t, key, ws0, u, lookahead, m);
  }

  /** A key, whitespace, a colon and a value match on the rest make a
      key/value match. */
  lemma SpacedKeyPair(t: string, key: string, ws0: string, u: string, lookahead: bool, m: Match)
    requires key != [] && forall k :: 0 <= k < |key| ==> IsWordChar(key[k])
    requires forall k :: 0 <= k < |ws0| ==> IsWhitespace(ws0[k])
    requires t == key + (ws0 + (":" + u))
    requires ValueAt(key, u, lookahead) == Some(m)
    ensures KeyValueAt(t, lookahead) == Some(Match(|key| + |ws0| + 1 + m.length, m.replacement))
  {
    var v := ws0 + (":" + u);
    ColonAfterSpace(v, ws0, u);
    SpacedPair(t, key, v, |ws0|, u, lookahead, m);
  }

  /** A key, then text `v` that holds whitespace, a colon and a value match
      on the rest, make a key/value match. */
  lemma SpacedPair(t: string, key: string, v: string, gap: nat, u: string, lookahead: bool, m: Match)
    requires key != [] && forall k :: 0 <= k < |key| ==> IsWordChar(key[k])
    requires v != [] && !IsWordChar(v[0])
    requires LeadingWhitespace(v) == gap < |v| && v[gap] == ':' && v[gap + 1..] == u
    requires t == key + v
    requires ValueAt(key, u, lookahead) == Some(m)
    ensures KeyValueAt(t, lookahead) == Some(Match(|key| + gap + 1 + m.length, m.replacement))
  {
    KeyEndsAt(t, key, v);
    ColonOfKey(t, key, v, gap, u);
    KeyValueAtOfSpacedParts(t, key, gap, u, lookahead, m);
  }

  /** Where the colon after a key and its whitespace stands in the whole
      text. */
  lemma ColonOfKey(t: string, key: string, v: string, gap: nat, u: string)
    requires |key| <= |t| && Span(t, Word) == |key| && t[|key|..] == v
    requires LeadingWhitespace(v) == gap < |v| && v[gap] == ':' && v[gap + 1..] == u
    ensures ColonIndex(t) == |key| + gap && t[|key| + gap] == ':' && t[|key| + gap + 1..] == u
  {
    assert t[|key| + gap] == v[gap];
    assert t[|key| + gap + 1..] == v[gap + 1..];
  }

  /** The key of `(\w+)` ends where the text goes on with a character that
      is not a word character. */
  lemma KeyEndsAt(t: string, key: string, v: string)
    requires key != [] && forall k :: 0 <= k < |key| ==> IsWordChar(key[k])
    requires v != [] && !IsWordChar(v[0])
    requires t == key + v
    ensures Span(t, Word) == |key| && t[..|key|] == key && t[|key|..] == v
  {
    assert forall k :: 0 <= k < |key| ==> InClass(key[k], Word);
    SpanOfRun(key, v, Word);
  }

  /** Whitespace and a colon after the key: `\s*` takes the whitespace and
      the colon follows. */
  lemma ColonAfterSpace(v: string, ws0: string, u: string)
    requires forall k :: 0 <= k < |ws0| ==> IsWhitespace(ws0[k])
    requires v == ws0 + (":" + u)
    ensures v != [] && !IsWordChar(v[0])
    ensures LeadingWhitespace(v) == |ws0| && v[|ws0|] == ':' && v[|ws0| + 1..] == u
  {
    assert forall k :: 0 <= k < |ws0| ==> InClass(ws0[k], Whitespace);
    SpanOfRun(ws0, ":" + u, Whitespace);
    assert v[|ws0|..] == ":" + u;
    if ws0 != [] { assert v[0] == ws0[0]; }
  }

  /** A key, a colon `gap` characters after it and a value match on the
      rest make a key/value match. */
  lemma KeyValueAtOfSpacedParts(t: string, key: string, gap: nat, u: string, lookahead: bool, m: Match)
    requires 0 < |key| && |key| + gap < |t| && Span(t, Word) == |key| && ColonIndex(t) == |key| + gap
    requires t[|key| + gap] == ':' && t[..|key|] == key && t[|key| + gap + 1..] == u
    requires ValueAt(key, u, lookahead) == Some(m)
    ensures KeyValueAt(t, lookahead) == Some(Match(|key| + gap + 1 + m.length, m.replacement))
  {
  }

  /** `v` kept only when a `,`, `}` or `]` follows its match in `s`. */
  function ThenCloser(s: string, v: Option<Match>): Option<Match> {
    match v
    case Some(m) => if m.length < |s| && IsCloser(s[m.length]) then Some(m) else None
    case None => None
  }

  /** The match `v` made `n` characters further on. */
  function ShiftedBy(n: nat, v: Option<Match>): Option<Match> {
    match v
    case Some(m) => Some(Match(n + m.length, m.replacement))
    case None => None
  }

  /** The first-pass variant is the second-pass one with the lookahead
      added: on every text it matches exactly where the second-pass variant
      does and a `,`, `}` or `]` follows the match, with the same match. */
  lemma LookaheadNeedsCloser(t: string)
    ensures KeyValueAt(t, true) == ThenCloser(t, KeyValueAt(t, false))
  {
    if HasKeyAndColon(t) {
      var key := t[..Span(t, Word)];
      var colon := ColonIndex(t);
      var u := t[colon + 1..];
      ValueNeedsCloser(key, u);
      PairOfValue(t, true);
      PairOfValue(t, false);
      LookaheadAfterPair(t, colon, ValueAt(key, u, true), ValueAt(key, u, false));
    }
  }

  predicate HasKeyAndColon(t: string) {
    Span(t, Word) > 0 && ColonIndex(t) < |t| && t[ColonIndex(t)] == ':'
  }

  lemma LookaheadAfterPair(t: string, colon: nat, vt: Option<Match>, vf: Option<Match>)
    requires colon < |t|
    requires vt == ThenCloser(t[colon + 1..], vf)
    ensures ShiftedBy(colon + 1, vt) == ThenCloser(t, ShiftedBy(colon + 1, vf))
  {
    if vf.Some? && vf.value.length < |t[colon + 1..]| {
      assert t[colon + 1..][vf.value.length] == t[colon + 1 + vf.value.length];
    }
  }

  /** Once a key and its colon are found, the match is the value match on
      what follows the colon, counted from the start of the text. */
  lemma PairOfValue(t: string, lookahead: bool)
    requires HasKeyAndColon(t)
    ensures KeyValueAt(t, lookahead) ==
      ShiftedBy(ColonIndex(t) + 1, ValueAt(t[..Span(t, Word)], t[ColonIndex(t) + 1..], lookahead))
  {
  }

  /** `ValueAt` with the lookahead is `ValueAt` without it, kept only when
      a closer follows. */
  lemma ValueNeedsCloser(key: string, u: string)
    ensures ValueAt(key, u, true) == ThenCloser(u, ValueAt(key, u, false))
  {
  }

  /** The lookahead is what tells the variants apart: a pair whose value
      runs up to a `"` or to the end of the text is rewritten by the
      second-pass variant and refused by the first-pass one. */
  lemma LookaheadRefuses(t: string, key: string, ws: string, value: string, rest: string)
    requires key != [] && forall k :: 0 <= k < |key| ==> IsWordChar(key[k])
    requires forall k :: 0 <= k < |ws| ==> IsWhitespace(ws[k])
    requires value != [] && !IsWhitespace(value[0])
    requires forall k :: 0 <= k < |value| ==> IsValueChar(value[k])
    requires rest != [] ==> !IsValueChar(rest[0]) && !IsCloser(rest[0])
    requires t == key + (":" + (ws + (value + rest)))
    ensures KeyValueAt(t, true).None?
    ensures KeyValueAt(t, false) == Some(Match(|key| + 1 + |ws| + |value|, QuotedPair(key, value)))
  {
    var u := ws + (value + rest);
    KeyBeforeColon(t, key, u);
    ValueRefused(key, ws, value, rest);
    KeyValueRewritten(t, key, ws, value, rest, false);
  }

  /** The value part refused by the lookahead. */
  lemma ValueRefused(key: string, ws: string, value: string, rest: string)
    requires forall k :: 0 <= k < |ws| ==> IsWhitespace(ws[k])
    requires value != [] && !IsWhitespace(value[0])
    requires forall k :: 0 <= k < |value| ==> IsValueChar(value[k])
    requires rest != [] ==> !IsValueChar(rest[0]) && !IsCloser(rest[0])
    ensures ValueAt(key, ws + (value + rest), true).None?
  {
    var u := ws + (value + rest);
    SpanOfRun(ws, value + rest, Whitespace);
    assert u[|ws|..] == value + rest;
    SpanOfRun(value, rest, ValueChar);
    assert rest != [] ==> u[|ws| + |value|] == rest[0];
  }

  /** A colon followed by whitespace and then by no value character: `\s*`
      gives back its last whitespace character, which becomes the whole
      value, so `a: ,` is rewritten to `a:" ",`. */
  lemma WhitespaceValueQuoted(t: string, key: string, ws: string, rest: string, lookahead: bool)
    requires key != [] && forall k :: 0 <= k < |key| ==> IsWordChar(key[k])
    requires ws != [] && forall k :: 0 <= k < |ws| ==> IsWhitespace(ws[k])
    requires rest != [] ==> !IsValueChar(rest[0])
    requires lookahead ==> rest != [] && IsCloser(rest[0])
    requires t == key + (":" + (ws + rest))
    ensures KeyValueAt(t, lookahead) == Some(Match(|key| + 1 + |ws|, QuotedPair(key, [ws[|ws| - 1]])))
  {
    KeyBeforeColon(t, key, ws + rest);
    WhitespaceValue(key, ws, rest, lookahead);
    KeyValueAtOfParts(t, key, ws + rest, lookahead, Match(|ws|, QuotedPair(key, [ws[|ws| - 1]])));
  }

  lemma WhitespaceValue(key: string, ws: string, rest: string, lookahead: bool)
    requires ws != [] && forall k :: 0 <= k < |ws| ==> IsWhitespace(ws[k])
    requires rest != [] ==> !IsValueChar(rest[0])
    requires lookahead ==> rest != [] && IsCloser(rest[0])
    ensures ValueAt(key, ws + rest, lookahead) == Some(Match(|ws|, QuotedPair(key, [ws[|ws| - 1]])))
  {
    var u := ws + rest;
    assert rest != [] ==> !IsWhitespace(rest[0]);
    SpanOfRun(ws, rest, Whitespace);
    assert u[|ws|..] == rest;
    assert u[|ws| - 1..|ws|] == [ws[|ws| - 1]];
  }

  /** A colon followed at once by a character outside the value class, or
      by nothing, leaves no value to quote: neither variant matches. */
  lemma EmptyValueRefused(t: string, key: string, rest: string, lookahead: bool)
    requires key != [] && forall k :: 0 <= k < |key| ==> IsWordChar(key[k])
    requires rest != [] ==> !IsValueChar(rest[0])
    requires t == key + (":" + rest)
    ensures KeyValueAt(t, lookahead).None?
  {
    KeyBeforeColon(t, key, rest);
    assert rest != [] ==> !IsWhitespace(rest[0]);
    assert LeadingWhitespace(rest) == 0;
    assert Span(rest, ValueChar) == 0;
    assert rest[0..] == rest;
  }

  /** Scanning a `key: value` pair: its replacement, then the scan of the
      text after the value. */
  lemma QuoteValuesPair(t: string, key: string, ws: string, value: string, rest: string, lookahead: bool)
    requires key != [] && forall k :: 0 <= k < |key| ==> IsWordChar(key[k])
    requires forall k :: 0 <= k < |ws| ==> IsWhitespace(ws[k])
    requires value != [] && !IsWhitespace(value[0])
    requires forall k :: 0 <= k < |value| ==> IsValueChar(value[k])
    requires rest != [] ==> !IsValueChar(rest[0])
    requires lookahead ==> rest != [] && IsCloser(rest[0])
    requires t == key + (":" + (ws + (value + rest)))
    ensures QuoteValues(t, lookahead) == QuotedPair(key, value) + QuoteValues(rest, lookahead)
  {
    var mt := PairMatchesAt(t, key, ws, value, rest, lookahead);
    QuoteValuesAtMatch(t, mt, lookahead);
  }

  /** The match of a `key: value` pair and where the scan resumes. */
  lemma PairMatchesAt(t: string, key: string, ws: string, value: string, rest: string, lookahead: bool)
    returns (mt: Match)
    requires key != [] && forall k :: 0 <= k < |key| ==> IsWordChar(key[k])
    requires forall k :: 0 <= k < |ws| ==> IsWhitespace(ws[k])
    requires value != [] && !IsWhitespace(value[0])
    requires forall k :: 0 <= k < |value| ==> IsValueChar(value[k])
    requires rest != [] ==> !IsValueChar(rest[0])
    requires lookahead ==> rest != [] && IsCloser(rest[0])
    requires t == key + (":" + (ws + (value + rest)))
    ensures KeyValueAt(t, lookahead) == Some(mt)
    ensures mt.replacement == QuotedPair(key, value) && mt.length <= |t| && t[mt.length..] == rest
  {
    mt := Match(|key| + 1 + |ws| + |value|, QuotedPair(key, value));
    KeyValueRewritten(t, key, ws, value, rest, lookahead);
    SuffixOfPair(t, key, ws, value, rest);
  }

  lemma SuffixOfPair(t: string, key: string, ws: string, value: string, rest: string)
    requires t == key + (":" + (ws + (value + rest)))
    ensures t[|key| + 1 + |ws| + |value|..] == rest
  {
  }

  /** A key/value match at the start of the text is replaced, and the scan
      resumes right after it. */
  lemma QuoteValuesAtMatch(t: string, mt: Match, lookahead: bool)
    requires KeyValueAt(t, lookahead) == Some(mt)
    ensures QuoteValues(t, lookahead) == mt.replacement + QuoteValues(t[mt.length..], lookahead)
  {
    ReplaceAllAtMatch(t, t => KeyValueAt(t, lookahead), mt);
  }

  /** A character outside `\w` cannot start a key: the scan copies it. */
  lemma QuoteValuesSkips(c: char, rest: string, lookahead: bool)
    requires !IsWordChar(c)
    ensures QuoteValues([c] + rest, lookahead) == [c] + QuoteValues(rest, lookahead)
  {
    var s := [c] + rest;
    NoKeyAt(s, lookahead);
    assert s[1..] == rest;
  }

  /** No key starts at a character outside `\w`. */
  lemma NoKeyAt(t: string, lookahead: bool)
    requires t != [] && !IsWordChar(t[0])
    ensures KeyValueAt(t, lookahead).None?
  {
    assert Span(t, Word) == 0;
  }

  /** An array value keeps only its first element inside the quotes: the
      value class admits `[` but stops at the first `,`, and the remaining
      elements, holding no colon, are copied as they are. */
  lemma ArrayValueSplit(t: string, key: string, ws: string, first: string, tail: string, lookahead: bool)
    requires key != [] && forall k :: 0 <= k < |key| ==> IsWordChar(key[k])
    requires forall k :: 0 <= k < |ws| ==> IsWhitespace(ws[k])
    requires forall k :: 0 <= k < |first| ==> IsValueChar(first[k])
    requires tail != [] && tail[0] == ',' && ColonsBesideQuotes(tail)
    requires t == key + (":" + (ws + (("[" + first) + tail)))
    ensures QuoteValues(t, lookahead) == QuotedPair(key, "[" + first) + tail
  {
    var value := "[" + first;
    assert forall k :: 0 < k < |value| ==> value[k] == first[k - 1];
    QuoteValuesPair(t, key, ws, value, tail, lookahead);
    QuotedColonsUntouched(tail, lookahead);
  }
}
