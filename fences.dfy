/** `cleanResponse` of the backend: the fence cleaner applied to both model
    replies, `text.replace(/^```(json|javascript)?\n|```$/g, '').trim()`. */
module Fences {
  import opened Js

  const Fence: string := "```"

  /** The length of the match of `^```(json|javascript)?\n` at the start of
      `text`, 0 when there is none. The optional tag is tried as `json`, then
      `javascript`, then empty, and each must be followed by a line feed, so
      at most one of the three prefixes applies; `^` without the `m` flag
      anchors at index 0 only. */
  function OpeningFenceLength(text: string): (n: nat)
    ensures n <= |text|
    ensures n == 0 || n == 4 || n == 8 || n == 14
  {
    if StartsWith(text, "```json\n") then 8
    else if StartsWith(text, "```javascript\n") then 14
    else if StartsWith(text, "```\n") then 4
    else 0
  }

  /** Deletes a "```" that ends the text (the alternative `` ```$ ``; `$`
      without the `m` flag anchors at the very end only). */
  function DropClosingFence(s: string): (r: string)
    ensures EndsWith(s, Fence) ==> r + Fence == s
    ensures !EndsWith(s, Fence) ==> r == s
  {
    if EndsWith(s, Fence) then s[..|s| - |Fence|] else s
  }

  /** `cleanResponse(text)`. The global scan finds the opening fence at index
      0 and then a closing fence that starts at or after its end; the text
      between them is trimmed. */
  function CleanResponse(text: string): (r: string)
    ensures IsTrimmed(r)
    ensures |r| <= |text|
  {
    Trim(DropClosingFence(text[OpeningFenceLength(text)..]))
  }

  /** Text without a backtick only loses its surrounding whitespace. */
  lemma CleanResponseWithoutBackticks(text: string)
    requires '`' !in text
    ensures CleanResponse(text) == Trim(text)
  {
    if |text| > 0 {
      assert text[0] in text && text[|text| - 1] in text;
      FirstCharDiffers(text, "```json\n");
      FirstCharDiffers(text, "```javascript\n");
      FirstCharDiffers(text, "```\n");
      assert !EndsWith(text, Fence) by {
        assert |text| >= 3 ==> text[|text| - 3..][2] == text[|text| - 1];
      }
    }
  }

  lemma FirstCharDiffers(s: string, p: string)
    requires |s| > 0 && |p| > 0 && s[0] != p[0]
    ensures !StartsWith(s, p)
  {
    if |p| <= |s| {
      assert s[..|p|][0] == s[0];
    }
  }

  /** A reply fenced as "```", "```json" or "```javascript" on its own first
      line and closed by "```" at its very end is reduced to its trimmed
      body. */
  lemma CleanResponseUnwraps(tag: string, body: string)
    requires tag == "" || tag == "json" || tag == "javascript"
    ensures CleanResponse(Fence + tag + "\n" + body + Fence) == Trim(body)
  {
    var head := Fence + tag + "\n";
    var text := Fence + tag + "\n" + body + Fence;
    assert text == head + (body + Fence);
    OpeningOfHead(head, tag, body + Fence);
    assert text[|head|..] == body + Fence;
    ClosingFenceOf(body);
  }

  /** The opening line "```" + tag + "\n" is the whole opening match. */
  lemma OpeningOfHead(head: string, tag: string, rest: string)
    requires tag == "" || tag == "json" || tag == "javascript"
    requires head == Fence + tag + "\n"
    ensures OpeningFenceLength(head + rest) == |head|
  {
    var text := head + rest;
    assert text[..|head|] == head;
    if tag == "" {
      assert text[3] == '\n';
      assert !StartsWith(text, "```json\n") && !StartsWith(text, "```javascript\n");
    } else if tag == "javascript" {
      assert text[4] == 'a';
      assert !StartsWith(text, "```json\n");
    }
  }

  /** A closing fence at the very end is all that goes. */
  lemma ClosingFenceOf(body: string)
    ensures DropClosingFence(body + Fence) == body
  {
    assert (body + Fence)[|body|..] == Fence;
    assert (body + Fence)[..|body|] == body;
  }

    /** A text that opens with none of the three recognised fences keeps its
      start: only a closing fence and the surrounding whitespace go. */
  lemma CleanResponseKeepsUnrecognisedOpening(text: string)
    requires !StartsWith(text, "```\n") && !StartsWith(text, "```json\n")
    requires !StartsWith(text, "```javascript\n")
    ensures CleanResponse(text) == Trim(DropClosingFence(text))
  {
    assert text[0..] == text;
  }

/** Any other language tag is not recognised: a "```js" reply keeps its
      opening line, and only the closing fence goes. */
  lemma CleanResponseKeepsOtherTags()
    ensures CleanResponse("```js\nrun()```") == "```js\nrun()"
  {
    var text := "```js\nrun()```";
    assert !StartsWith(text, "```json\n") by { assert text[5] != 'o'; }
    assert !StartsWith(text, "```javascript\n") by { assert text[4] != 'a'; }
    assert !StartsWith(text, "```\n") by { assert text[3] != '\n'; }
    assert text[|text| - 3..] == Fence;
    var body := "```js\nrun()";
    assert text[..|text| - 3] == body;
    assert IsTrimmed(body);
  }
}
