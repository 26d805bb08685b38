/**
 * The fence pattern parseEmbeddedChunks strips from an embedded code block
 * (ast-chunking.ts:430): `/^```\w*\n([\s\S]*?)\n```$/m`, first match, group 1.
 *
 * Under the `m` flag `^` holds at the start of the text or after a line
 * terminator and `$` at the end of the text or before one, so the opening
 * fence may sit on any line. `\w*` is greedy over ASCII word characters
 * and cannot give characters back (the `\n` after it is not a word
 * character), and the lazy group ends at the first closing fence that ends
 * a line.
 */
module Fence {
  import opened Base

  /** The line terminators of ECMAScript regular expressions. */
  predicate IsLineTerminator(c: char) {
    c == '\n' || c == '\r' || c == '\U{2028}' || c == '\U{2029}'
  }

  /** `\w` without the `u` flag. */
  predicate IsWordChar(c: char) {
    ('a' <= c <= 'z') || ('A' <= c <= 'Z') || ('0' <= c <= '9') || c == '_'
  }

  /** `^` under the `m` flag, at position i. */
  predicate LineStartAt(s: string, i: nat)
    requires i <= |s|
  {
    i == 0 || IsLineTerminator(s[i - 1])
  }

  /** `$` under the `m` flag, at position i. */
  predicate LineEndAt(s: string, i: nat)
    requires i <= |s|
  {
    i == |s| || IsLineTerminator(s[i])
  }

  /** `t` occurs in `s` at position i. */
  predicate HasAt(s: string, i: nat, t: string) {
    i + |t| <= |s| && s[i..i + |t|] == t
  }

  /** A closing fence that ends a line starts at j. */
  predicate IsClose(s: string, j: nat) {
    HasAt(s, j, "\n```") && LineEndAt(s, j + 4)
  }

  /** Where the greedy `\w*` starting at i stops. */
  function WordEnd(s: string, i: nat): (r: nat)
    requires i <= |s|
    ensures i <= r <= |s|
    ensures forall j :: i <= j < r ==> IsWordChar(s[j])
    ensures r == |s| || !IsWordChar(s[r])
    decreases |s| - i
  {
    if i < |s| && IsWordChar(s[i]) then WordEnd(s, i + 1) else i
  }

  /** Where the lazy group starting at `from` stops: the first closing fence
      at or after it. */
  function CloseFrom(s: string, from: nat): (r: Option<nat>)
    ensures r.Some? ==> from <= r.value && IsClose(s, r.value)
    ensures forall j :: from <= j && (r.None? || j < r.value) ==> !IsClose(s, j)
    decreases |s| - from
  {
    if from + 4 > |s| then None
    else if IsClose(s, from) then Some(from)
    else CloseFrom(s, from + 1)
  }

  /** Group 1 of a match that starts at position i, if the pattern matches
      there. */
  function MatchAt(s: string, i: nat): (r: Option<string>)
    requires i <= |s|
    ensures r.Some? ==> LineStartAt(s, i) && HasAt(s, i, "```") && WordEnd(s, i + 3) < |s| && s[WordEnd(s, i + 3)] == '\n'
    ensures r.Some? ==>
              var start := WordEnd(s, i + 3) + 1;
              && IsClose(s, start + |r.value|)
              && HasAt(s, start, r.value)
              && forall j :: start <= j < start + |r.value| ==> !IsClose(s, j)
  {
    if LineStartAt(s, i) && HasAt(s, i, "```") then
      var w := WordEnd(s, i + 3);
      if w < |s| && s[w] == '\n' then
        match CloseFrom(s, w + 1)
        case Some(j) => Some(s[w + 1..j])
        case None => None
      else None
    else None
  }

  /** The pattern matches wherever an opening fence at the start of a line,
      with its info string and newline, is followed by a closing fence. */
  lemma MatchAtComplete(s: string, i: nat, j: nat)
    requires i <= |s| && LineStartAt(s, i) && HasAt(s, i, "```")
    requires WordEnd(s, i + 3) < |s| && s[WordEnd(s, i + 3)] == '\n'
    requires WordEnd(s, i + 3) + 1 <= j && IsClose(s, j)
    ensures MatchAt(s, i).Some?
  {
    var from := WordEnd(s, i + 3) + 1;
    assert CloseFrom(s, from).Some?;
  }

  /** The pattern matches at no position in [from, to). */
  predicate NoMatchIn(s: string, from: nat, to: nat) {
    forall j :: from <= j < to && j <= |s| ==> MatchAt(s, j).None?
  }

  /** Where the leftmost match at or after `from` starts. */
  function MatchStart(s: string, from: nat): (r: Option<nat>)
    requires from <= |s|
    ensures r.Some? ==> from <= r.value <= |s| && MatchAt(s, r.value).Some? && NoMatchIn(s, from, r.value)
    ensures r.None? ==> NoMatchIn(s, from, |s| + 1)
    decreases |s| - from
  {
    if MatchAt(s, from).Some? then Some(from)
    else if from == |s| then None
    else MatchStart(s, from + 1)
  }

  /** The code inside the fence (group 1 of the leftmost match), or the
      content unchanged when the pattern does not match. */
  function StripFence(content: string): (r: string)
    ensures MatchStart(content, 0).None? ==> r == content
    ensures MatchStart(content, 0).Some? ==> MatchAt(content, MatchStart(content, 0).value) == Some(r)
  {
    match MatchStart(content, 0)
    case Some(i) => MatchAt(content, i).value
    case None => content
  }

  /** `content.match(pattern)` takes the leftmost match: when the pattern
      matches nowhere the content is kept, and otherwise the result is the
      group of a match before which the pattern matches nowhere. */
  lemma StripFenceLeftmost(content: string)
    ensures (forall i: nat :: i <= |content| ==> MatchAt(content, i).None?) ==> StripFence(content) == content
    ensures (exists i: nat :: i <= |content| && MatchAt(content, i).Some?) ==>
              exists i: nat :: i <= |content| && MatchAt(content, i) == Some(StripFence(content)) && NoMatchIn(content, 0, i)
  {
    match MatchStart(content, 0)
    case Some(i) =>
      assert MatchAt(content, i) == Some(StripFence(content)) && NoMatchIn(content, 0, i);
    case None =>
      assert NoMatchIn(content, 0, |content| + 1);
  }

  /** No closing fence starts inside a body that contains none, even one
      reaching into the fence that follows it. */
  lemma NoCloseInBody(head: string, body: string)
    requires forall j :: !HasAt(body, j, "\n```")
    ensures forall j :: |head| <= j < |head| + |body| ==> !IsClose(head + body + "\n```", j)
  {
    var s := head + body + "\n```";
    var j0 := |head| + |body|;
    forall j | |head| <= j < j0
      ensures !IsClose(s, j)
    {
      if j + 4 <= j0 {
        assert s[j..j + 4] == body[j - |head|..j - |head| + 4];
        assert !HasAt(body, j - |head|, "\n```");
      } else {
        assert s[j..j + 4][j0 - j] == '\n';
      }
    }
  }

  /** The info string of a fence ends at the newline after it. */
  lemma InfoEnd(info: string, rest: string)
    requires forall j :: 0 <= j < |info| ==> IsWordChar(info[j])
    ensures WordEnd("```" + info + "\n" + rest, 3) == 3 + |info|
  {
    var s := "```" + info + "\n" + rest;
    assert s[3 + |info|] == '\n';
    assert forall j :: 3 <= j < 3 + |info| ==> s[j] == info[j - 3];
  }

  /** The lazy group stops at the first closing fence. */
  lemma CloseFromFirst(s: string, from: nat, j0: nat)
    requires from <= j0 && IsClose(s, j0)
    requires forall j :: from <= j < j0 ==> !IsClose(s, j)
    ensures CloseFrom(s, from) == Some(j0)
  {
  }

  /** A fenced block whose body contains no closing fence gives back its
      body, whatever the info string. */
  lemma FenceRoundTrip(info: string, body: string)
    requires forall j :: 0 <= j < |info| ==> IsWordChar(info[j])
    requires forall j :: !HasAt(body, j, "\n```")
    ensures StripFence("```" + info + "\n" + body + "\n```") == body
  {
    var head := "```" + info + "\n";
    var s := head + body + "\n```";
    assert s == "```" + info + "\n" + (body + "\n```");
    var w := 3 + |info|;
    var j0 := |head| + |body|;
    InfoEnd(info, body + "\n```");
    NoCloseInBody(head, body);
    assert s[..3] == "```";
    assert s[w] == '\n';
    assert s[j0..j0 + 4] == "\n```";
    CloseFromFirst(s, w + 1, j0);
    assert s[w + 1..j0] == body;
    assert MatchAt(s, 0) == Some(body);
  }

  /** Content without three backticks in a row is left as it is. */
  lemma NoFenceUnchanged(content: string)
    requires forall i :: !HasAt(content, i, "```")
    ensures StripFence(content) == content
  {
    assert MatchStart(content, 0).None?;
  }

  /** The stripped code is a part of the content, shorter by at least the
      two fences. */
  lemma StripFenceShrinks(content: string)
    requires MatchStart(content, 0).Some?
    ensures |StripFence(content)| + 8 <= |content|
    ensures exists a, b :: 0 <= a <= b <= |content| && StripFence(content) == content[a..b]
  {
    var i := MatchStart(content, 0).value;
    var r := MatchAt(content, i).value;
    var start := WordEnd(content, i + 3) + 1;
    assert HasAt(content, start, r) && IsClose(content, start + |r|);
    assert r == content[start..start + |r|];
  }
}
