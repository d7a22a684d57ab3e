/** The fence stripper of the Gemini service: the text of the first part of
    the first candidate, passed through `.replace(/```(html|js)?/g, '')`,
    then `.replace(/```/g, '')`, then `.trim()`, and returned as `{ code }`.
    The HTTP call that produces the answer is an input. */
module GeminiService {
  import opened Js
  import opened Fences

  /** `/```(html|js)?/` at the start of `t`, replaced by nothing. The
      optional group is tried as `html`, then `js`, then empty, so the tag is
      a literal prefix of what follows the fence: "```json" loses "```js",
      and "```javascript" only "```". */
  function TaggedFenceAt(t: string): (r: Option<Match>)
    ensures r.Some? <==> StartsWith(t, Fence)
    ensures r.Some? ==> r.value.replacement == [] && 3 <= r.value.length <= |t|
    ensures r.Some? && StartsWith(t, "```html") ==> r.value.length == 7
    ensures r.Some? && !StartsWith(t, "```html") && StartsWith(t, "```js") ==> r.value.length == 5
  {
    if !StartsWith(t, Fence) then None
    else if StartsWith(t, "```html") then Some(Match(7, ""))
    else if StartsWith(t, "```js") then Some(Match(5, ""))
    else Some(Match(3, ""))
  }

  /** `/```/` at the start of `t`, replaced by nothing. */
  function FenceAt(t: string): (r: Option<Match>)
    ensures r.Some? <==> StartsWith(t, Fence)
    ensures r.Some? ==> r.value == Match(3, "")
  {
    if StartsWith(t, Fence) then Some(Match(3, "")) else None
  }

  /** A matcher that matches exactly where a fence starts, and deletes what
      it matches. */
  ghost predicate DeletesFences(m: Matcher) {
    forall t :: (m(t).Some? <==> StartsWith(t, Fence))
      && (m(t).Some? ==> m(t).value.replacement == [] && 0 < m(t).value.length <= |t|)
  }

  lemma BothPassesDeleteFences()
    ensures DeletesFences(TaggedFenceAt) && DeletesFences(FenceAt)
  {
  }

  /** The text of the first part of the first candidate, without fences. */
  function StripFences(raw: string): string {
    Trim(ReplaceAll(ReplaceAll(raw, TaggedFenceAt), FenceAt))
  }

  /** The value `generateSceneWithGemini` returns: an object whose only
      field is `code`. */
  datatype SceneCode = SceneCode(code: string)

  const UndefinedReplaceMessage: string :=
    "Cannot read properties of " + "undefined (reading 'replace')"

  /** The answer's text is `undefined` when the response has no candidate,
      no content or no part: calling `replace` on it throws a `TypeError`. */
  function GenerateScene(raw: Option<string>): (r: Result<SceneCode>)
    ensures r.Err? <==> raw.None?
    ensures r.Err? ==> r.error.blockReason.None?
    ensures r.Ok? ==> IsTrimmed(r.value.code) && |r.value.code| <= |raw.value|
    ensures r.Ok? ==> !Includes(r.value.code, Fence)
  {
    match raw
    case None => Err(JsError(UndefinedReplaceMessage, None))
    case Some(text) =>
      StripFencesShrinks(text);
      StripFencesLeavesNoFence(text);
      Ok(SceneCode(StripFences(text)))
  }

  // ---------------------------------------------------------------------
  // What the chain guarantees

  /** Only deletions and a trim: the code is never longer than the text. */
  lemma StripFencesShrinks(raw: string)
    ensures IsTrimmed(StripFences(raw))
    ensures |StripFences(raw)| <= |raw|
  {
    var first := ReplaceAll(raw, TaggedFenceAt);
    ReplaceAllShrinks(raw, TaggedFenceAt);
    ReplaceAllShrinks(first, FenceAt);
  }

  /** No three backticks in a row anywhere in `r`. */
  predicate NoBacktickRun(r: string) {
    forall i :: 0 <= i < |r| - 2 ==> !(r[i] == '`' && r[i + 1] == '`' && r[i + 2] == '`')
  }

  /** Text without three backticks in a row does not include a fence. */
  lemma NoRunNoFence(r: string)
    requires NoBacktickRun(r)
    ensures !Includes(r, Fence)
  {
    forall i | 0 <= i <= |r| - 3
      ensures !OccursAt(r, Fence, i)
    {
      assert r[i..i + 3][0] == r[i] && r[i..i + 3][1] == r[i + 1] && r[i..i + 3][2] == r[i + 2];
    }
    IncludesAt(r, Fence);
  }

  /** The first pass already leaves no "```" behind: a backtick it copies
      never has a match right after it, so three backticks in its output
      are three consecutive backticks of its input, where it would have
      matched. */
  lemma {:induction false} NoFenceLeft(s: string, m: Matcher)
    requires Consumes(m) && DeletesFences(m)
    ensures NoBacktickRun(ReplaceAll(s, m))
    decreases |s|
  {
    if s != [] {
      if m(s).Some? {
        var mt := m(s).value;
        assert mt.replacement == [];
        ReplaceAllAtMatch(s, m, mt);
        assert ReplaceAll(s, m) == ReplaceAll(s[mt.length..], m);
        NoFenceLeft(s[mt.length..], m);
      } else {
        var r1 := ReplaceAll(s[1..], m);
        NoFenceLeft(s[1..], m);
        CopiedBacktick(s, m);
        var r := [s[0]] + r1;
        assert ReplaceAll(s, m) == r;
        forall i | 0 <= i < |r| - 2
          ensures !(r[i] == '`' && r[i + 1] == '`' && r[i + 2] == '`')
        {
          if i > 0 {
            assert r[i] == r1[i - 1] && r[i + 1] == r1[i] && r[i + 2] == r1[i + 1];
          }
        }
      }
    }
  }

  /** Where the scan copies the backtick that opens `s`, the output of the
      rest does not open with two backticks. */
  lemma CopiedBacktick(s: string, m: Matcher)
    requires Consumes(m) && DeletesFences(m)
    requires s != [] && m(s).None?
    ensures var r1 := ReplaceAll(s[1..], m);
      s[0] == '`' && |r1| >= 2 ==> !(r1[0] == '`' && r1[1] == '`')
  {
    var r1 := ReplaceAll(s[1..], m);
    assert !StartsWith(s, Fence);
    OutputHead(s[1..], m);
    if m(s[1..]).Some? {
      assert s[1..][..3] == Fence;
      assert s[..3] == [s[0], s[1], s[2]];
    } else if |s| >= 2 {
      assert s[1..][1..] == s[2..];
      assert r1 == [s[1]] + ReplaceAll(s[2..], m);
      OutputHead(s[2..], m);
      if |s| >= 3 {
        assert s[..3] == [s[0], s[1], s[2]];
      }
    }
  }

  /** A backtick that opens the output of the scan opens its input. */
  lemma OutputHead(t: string, m: Matcher)
    requires Consumes(m) && DeletesFences(m)
    ensures ReplaceAll(t, m) != [] && ReplaceAll(t, m)[0] == '`' ==> t != [] && t[0] == '`'
  {
    if t != [] && m(t).Some? {
      assert t[..3] == Fence;
    }
  }

  /** The second `replace` never changes anything. */
  lemma SecondPassChangesNothing(s: string)
    ensures ReplaceAll(ReplaceAll(s, TaggedFenceAt), FenceAt) == ReplaceAll(s, TaggedFenceAt)
  {
    var first := ReplaceAll(s, TaggedFenceAt);
    BothPassesDeleteFences();
    NoFenceLeft(s, TaggedFenceAt);
    NoRunNoFenceStarts(first);
    ReplaceAllNoMatch(first, FenceAt);
  }

  /** Without three backticks in a row no suffix starts with a fence. */
  lemma NoRunNoFenceStarts(r: string)
    requires NoBacktickRun(r)
    ensures forall i :: 0 <= i < |r| ==> !StartsWith(r[i..], Fence)
  {
    forall i | 0 <= i < |r|
      ensures !StartsWith(r[i..], Fence)
    {
      if i + 3 <= |r| {
        assert r[i..][..3] == [r[i], r[i + 1], r[i + 2]];
      }
    }
  }

  /** No "```" survives in the returned code. */
  lemma StripFencesLeavesNoFence(raw: string)
    ensures !Includes(StripFences(raw), Fence)
  {
    var second := ReplaceAll(ReplaceAll(raw, TaggedFenceAt), FenceAt);
    BothPassesDeleteFences();
    NoFenceLeft(ReplaceAll(raw, TaggedFenceAt), FenceAt);
    SliceKeepsNoRun(second, LeadingWhitespace(second), Trim(second));
    NoRunNoFence(Trim(second));
  }

  lemma SliceKeepsNoRun(s: string, a: nat, r: string)
    requires NoBacktickRun(s)
    requires a + |r| <= |s| && r == s[a..a + |r|]
    ensures NoBacktickRun(r)
  {
    forall i | 0 <= i < |r| - 2
      ensures !(r[i] == '`' && r[i + 1] == '`' && r[i + 2] == '`')
    {
      assert r[i] == s[a + i] && r[i + 1] == s[a + i + 1] && r[i + 2] == s[a + i + 2];
    }
  }

  /** Text without a backtick is only trimmed. */
  lemma StripFencesWithoutBackticks(raw: string)
    requires '`' !in raw
    ensures StripFences(raw) == Trim(raw)
  {
    NoBacktickNoMatch(raw, []);
    assert raw + [] == raw;
    ReplaceAllCopies(raw, [], TaggedFenceAt);
    ReplaceAllCopies(raw, [], FenceAt);
  }

  /** Where `u` has no backtick, no fence starts inside `u` in `u + t`. */
  lemma NoBacktickNoMatch(u: string, t: string)
    requires '`' !in u
    ensures forall i :: 0 <= i < |u| ==> TaggedFenceAt((u + t)[i..]).None?
    ensures forall i :: 0 <= i < |u| ==> FenceAt((u + t)[i..]).None?
  {
    forall i | 0 <= i < |u|
      ensures !StartsWith((u + t)[i..], Fence)
    {
      assert u[i] in u;
      assert (u + t)[i..][0] == u[i];
    }
  }

  // ---------------------------------------------------------------------
  // A fenced block

  /** What the first pass deletes of a tag that follows a fence: `html` or
      `js` when the tag starts with one of them, nothing otherwise. */
  function TagKept(tag: string): (r: string)
    ensures |r| <= |tag| && tag == tag[..|tag| - |r|] + r
    ensures tag[..|tag| - |r|] in {"", "html", "js"}
    ensures tag[..|tag| - |r|] == "" <==> !StartsWith(tag, "html") && !StartsWith(tag, "js")
  {
    if StartsWith(tag, "html") then tag[4..]
    else if StartsWith(tag, "js") then tag[2..]
    else tag
  }

  /** A block "```" + tag + body + "```", whose body does not go on with
      the letters of the tag and which has no other backtick, comes back as
      the trimmed body after what the first pass leaves of the tag. */
  lemma FencedBlock(tag: string, body: string)
    requires '`' !in tag + body
    requires body != [] ==> !IsWordChar(body[0])
    ensures StripFences(Fence + (tag + (body + Fence))) == Trim(TagKept(tag) + body)
  {
    var kept := TagKept(tag) + body;
    FirstPassOfBlock(tag, body);
    NoBacktickInKept(tag, body);
    NoBacktickNoMatch(kept, []);
    assert kept + [] == kept;
    ReplaceAllCopies(kept, [], FenceAt);
  }

  /** The first pass deletes the opening fence with the tag it recognises,
      and the closing fence. */
  lemma FirstPassOfBlock(tag: string, body: string)
    requires '`' !in tag + body
    requires body != [] ==> !IsWordChar(body[0])
    ensures ReplaceAll(Fence + (tag + (body + Fence)), TaggedFenceAt) == TagKept(tag) + body
  {
    var s := Fence + (tag + (body + Fence));
    var kept := TagKept(tag) + body;
    var mt := OpeningMatch(tag, body);
    ReplaceAllAtMatch(s, TaggedFenceAt, mt);
    KeptSuffix(tag, body, mt.length);
    NoBacktickInKept(tag, body);
    NoBacktickNoMatch(kept, Fence);
    ReplaceAllCopies(kept, Fence, TaggedFenceAt);
    ClosingFenceDeleted();
  }

  lemma ClosingFenceDeleted()
    ensures ReplaceAll(Fence, TaggedFenceAt) == []
  {
    assert Fence[..3] == Fence;
    ReplaceAllAtMatch(Fence, TaggedFenceAt, Match(3, ""));
  }

  lemma NoBacktickInKept(tag: string, body: string)
    requires '`' !in tag + body
    ensures '`' !in TagKept(tag) + body
  {
    forall c | c in TagKept(tag) + body ensures c != '`' {
      if c in TagKept(tag) {
        assert c in tag;
      }
      assert c in tag + body;
    }
  }

  /** "```json" is cut after "```js": the block's code starts with "on". */
  lemma JsonTagLeavesOn(tag: string, body: string)
    requires tag == "json"
    requires '`' !in body && (body != [] ==> !IsWordChar(body[0]))
    ensures StripFences(Fence + (tag + (body + Fence))) == Trim("on" + body)
  {
    assert TagKept(tag) == "on" by {
      assert tag[..4][0] != "html"[0];
      assert tag[..2] == "js" && tag[2..] == "on";
    }
    FencedBlock(tag, body);
  }

  /** "```javascript" loses only its fence: the tag stays in the code. */
  lemma JavascriptTagKept(tag: string, body: string)
    requires tag == "javascript"
    requires '`' !in body && (body != [] ==> !IsWordChar(body[0]))
    ensures StripFences(Fence + (tag + (body + Fence))) == Trim(tag + body)
  {
    assert TagKept(tag) == tag by {
      assert tag[1] == 'a';
    }
    FencedBlock(tag, body);
  }

  /** "```html" and "```js" go with their tag. */
  lemma KnownTagRemoved(tag: string, body: string)
    requires tag == "html" || tag == "js"
    requires '`' !in body && (body != [] ==> !IsWordChar(body[0]))
    ensures StripFences(Fence + (tag + (body + Fence))) == Trim(body)
  {
    if tag == "html" {
      assert tag[..4] == "html";
    } else {
      assert tag[..2] == "js" && !StartsWith(tag, "html");
    }
    assert TagKept(tag) + body == body;
    FencedBlock(tag, body);
  }

  /** The match at the opening fence of such a block. */
  lemma OpeningMatch(tag: string, body: string) returns (mt: Match)
    requires '`' !in tag + body
    requires body != [] ==> !IsWordChar(body[0])
    ensures TaggedFenceAt(Fence + (tag + (body + Fence))) == Some(mt)
    ensures mt.replacement == [] && mt.length == 3 + |tag| - |TagKept(tag)|
  {
    var tail := body + Fence;
    var s := Fence + (tag + tail);
    assert s[..3] == Fence;
    assert tail[0] == if body != [] then body[0] else '`';
    TagPrefix(tag, tail, "html");
    TagPrefix(tag, tail, "js");
    AfterFence(tag + tail, "html");
    AfterFence(tag + tail, "js");
    if StartsWith(tag, "html") {
      mt := Match(7, "");
    } else if StartsWith(tag, "js") {
      mt := Match(5, "");
    } else {
      mt := Match(3, "");
    }
  }

  /** Text after a fence starts with `name` exactly when the fenced text
      starts with the fence and `name`. */
  lemma AfterFence(rest: string, name: string)
    ensures StartsWith(Fence + rest, Fence + name) <==> StartsWith(rest, name)
  {
    var s := Fence + rest;
    if StartsWith(rest, name) {
      assert s[..3 + |name|] == Fence + rest[..|name|];
    }
    if StartsWith(s, Fence + name) {
      assert rest[..|name|] == s[..3 + |name|][3..];
    }
  }

  /** A tag followed by a character that cannot continue a word starts
      with the word `name` exactly when the tag alone does. */
  lemma TagPrefix(tag: string, tail: string, name: string)
    requires name == "html" || name == "js"
    requires tail != [] && !IsWordChar(tail[0])
    ensures StartsWith(tag + tail, name) <==> StartsWith(tag, name)
  {
    var t := tag + tail;
    if |tag| >= |name| {
      assert t[..|name|] == tag[..|name|];
    } else if |name| <= |t| {
      assert t[..|name|][|tag|] == tail[0];
      assert IsWordChar(name[|tag|]);
    }
  }

  lemma KeptSuffix(tag: string, body: string, n: nat)
    requires n == 3 + |tag| - |TagKept(tag)|
    ensures (Fence + (tag + (body + Fence)))[n..] == TagKept(tag) + body + Fence
  {
    var s := Fence + (tag + (body + Fence));
    var k := TagKept(tag);
    assert tag[|tag| - |k|..] == k;
    assert s[n..] == tag[|tag| - |k|..] + (body + Fence);
  }
}
