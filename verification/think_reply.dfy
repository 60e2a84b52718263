/** The reply text of the mention handler (index.ts): the model is asked to
    think inside `<think>...</think>` first, and the bot replies with what
    follows the closing tag, found by `/<think>[\s\S]*?<\/think>([\s\S]*)/i`.
    Without a match, or with nothing after the tag, it replies with the whole
    content of a fallback response, and with ":skull:" when that is null. */
module ThinkReply {
  import opened Results

  const OpenTag := "<think>"
  const CloseTag := "</think>"
  const NoReply := ":skull:"

  /** Case folding of a regular expression with the `i` flag and without
      `u`: only ASCII letters fold onto ASCII letters. */
  function AsciiLower(c: char): char {
    if 'A' <= c <= 'Z' then (c as int + 32) as char else c
  }

  /** `tag` (written in lower case) occurs at `p`, in any letter case. */
  predicate TagAt(s: string, p: nat, tag: string) {
    p + |tag| <= |s| && forall j :: 0 <= j < |tag| ==> AsciiLower(s[p + j]) == tag[j]
  }

  /** The first occurrence of `tag` at or after `from`. */
  function FindTag(s: string, tag: string, from: nat): (r: Option<nat>)
    ensures r.Some? ==> from <= r.value && TagAt(s, r.value, tag)
                        && forall q :: from <= q < r.value ==> !TagAt(s, q, tag)
    ensures r.None? ==> forall q :: from <= q ==> !TagAt(s, q, tag)
    decreases |s| - from
  {
    if from + |tag| > |s| then None
    else if TagAt(s, from, tag) then Some(from)
    else FindTag(s, tag, from + 1)
  }

  /** Some opening tag is followed, after its end, by a closing tag. */
  ghost predicate HasThinkBlock(s: string) {
    exists p: nat, q: nat :: TagAt(s, p, OpenTag) && TagAt(s, q, CloseTag) && p + |OpenTag| <= q
  }

  /** The match the regular expression finds: the first opening tag, then
      the first closing tag after it (the lazy `[\s\S]*?`). */
  ghost predicate IsLeftmostBlock(s: string, p: nat, q: nat) {
    && TagAt(s, p, OpenTag) && (forall j :: 0 <= j < p ==> !TagAt(s, j, OpenTag))
    && p + |OpenTag| <= q && TagAt(s, q, CloseTag)
    && (forall j :: p + |OpenTag| <= j < q ==> !TagAt(s, j, CloseTag))
  }

  /** Capture group 1: everything after the closing tag of the match. */
  function ThinkAnswer(s: string): (r: Option<string>)
    ensures r.None? <==> !HasThinkBlock(s)
    ensures r.Some? ==> exists p: nat, q: nat :: IsLeftmostBlock(s, p, q) && r.value == s[q + |CloseTag|..]
  {
    match FindTag(s, OpenTag, 0)
    case None => None
    case Some(p) =>
      match FindTag(s, CloseTag, p + |OpenTag|)
      case None =>
        assert !HasThinkBlock(s) by {
          forall p': nat, q': nat | TagAt(s, p', OpenTag) && p' + |OpenTag| <= q'
            ensures !TagAt(s, q', CloseTag)
          {
            assert p <= p';
          }
        }
        None
      case Some(q) =>
        assert IsLeftmostBlock(s, p, q);
        Some(s[q + |CloseTag|..])
  }

  /** `(primary?.match(...)?.[1] || fallback) ?? ":skull:"`, where `None`
      stands for a content that is null or a response that is missing. */
  function Reply(primary: Option<string>, fallback: Option<string>): (r: string)
    ensures primary.Some? && ThinkAnswer(primary.value).Some? && ThinkAnswer(primary.value).value != "" ==>
              r == ThinkAnswer(primary.value).value
    ensures (primary.None? || ThinkAnswer(primary.value).None? || ThinkAnswer(primary.value).value == "") ==>
              r == (if fallback.Some? then fallback.value else NoReply)
  {
    var answer := if primary.Some? then ThinkAnswer(primary.value) else None;
    if answer.Some? && answer.value != "" then answer.value
    else if fallback.Some? then fallback.value
    else NoReply
  }

  /** The captured answer is the tail of the content. */
  lemma AnswerIsSuffix(s: string)
    ensures ThinkAnswer(s).Some? ==>
              var a := ThinkAnswer(s).value;
              |a| <= |s| && a == s[|s| - |a|..]
  {
  }

  /** The reply when the model called no tool: its one response serves as
      both the searched text and the fallback. The reply is what follows the
      think block when that is non-empty, else the whole content, and
      ":skull:" when the content is null; in every case a tail of the
      content. */
  function DirectReply(content: Option<string>): (r: string)
    ensures content.None? ==> r == NoReply
    ensures content.Some? && ThinkAnswer(content.value).Some? && ThinkAnswer(content.value).value != "" ==> r == ThinkAnswer(content.value).value
    ensures content.Some? && (ThinkAnswer(content.value).None? || ThinkAnswer(content.value).value == "") ==> r == content.value
    ensures content.Some? ==> |r| <= |content.value| && r == content.value[|content.value| - |r|..]
  {
    if content.Some? then AnswerIsSuffix(content.value); Reply(content, content)
    else Reply(content, content)
  }

  /** The reply after tool calls: the second response is searched, but the
      fallback is the FIRST response's content. */
  function ToolReply(first: Option<string>, second: Option<string>): (r: string)
    ensures second.Some? && ThinkAnswer(second.value).Some? && ThinkAnswer(second.value).value != "" ==> r == ThinkAnswer(second.value).value
    ensures second.Some? && ThinkAnswer(second.value) == Some("") ==> r == (if first.Some? then first.value else NoReply)
    ensures (second.None? || !HasThinkBlock(second.value)) ==>
              r == (if first.Some? then first.value else NoReply)
  {
    Reply(second, first)
  }

  /** A response written as the model is told to, an opening tag, thoughts,
      a closing tag and an answer, yields exactly the answer, whatever the
      letter case of the tags, provided the thoughts hold no `<`. */
  lemma AnswerAfterThoughts(open: string, thoughts: string, close: string, answer: string, fallback: Option<string>)
    requires |open| == |OpenTag| && forall j :: 0 <= j < |open| ==> AsciiLower(open[j]) == OpenTag[j]
    requires |close| == |CloseTag| && forall j :: 0 <= j < |close| ==> AsciiLower(close[j]) == CloseTag[j]
    requires forall j :: 0 <= j < |thoughts| ==> thoughts[j] != '<'
    requires answer != ""
    ensures Reply(Some(open + thoughts + close + answer), fallback) == answer
  {
    var s := open + thoughts + close + answer;
    var q := |open| + |thoughts|;
    assert TagAt(s, 0, OpenTag) by {
      assert forall j :: 0 <= j < |open| ==> s[j] == open[j];
    }
    assert TagAt(s, q, CloseTag) by {
      assert forall j :: 0 <= j < |close| ==> s[q + j] == close[j];
    }
    forall j | |OpenTag| <= j < q
      ensures !TagAt(s, j, CloseTag)
    {
      assert s[j + 0] == thoughts[j - |open|];
      assert AsciiLower(s[j + 0]) != CloseTag[0];
    }
    assert IsLeftmostBlock(s, 0, q);
    var a := ThinkAnswer(s);
    var p': nat, q': nat :| IsLeftmostBlock(s, p', q') && a.value == s[q' + |CloseTag|..];
    assert p' == 0;
    assert q' == q;
    assert s[q + |CloseTag|..] == answer;
  }
}
