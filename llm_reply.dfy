/** What the server does with the replies of its two uses of one
    language-model endpoint: the grading judge (`check_vuln_with_llm`) and the code rewriter
    (`obfuscate_code_with_llm`). The HTTP calls themselves are outside the
    model: a reply is `Some(content)` when the service answered with a chat
    completion, `None` when the request, the HTTP status or the JSON failed. */
module LlmReply {
  import opened Text

  datatype Option<T> = None | Some(value: T)

  /** The command-line settings `--url` and `--api-key`; `None` until set. */
  datatype LlmConfig = LlmConfig(url: Option<string>, apiKey: Option<string>)

  /** `LLM_URL and API_KEY` are both truthy: set and not empty. */
  predicate Configured(cfg: LlmConfig) {
    cfg.url.Some? && cfg.url.value != "" && cfg.apiKey.Some? && cfg.apiKey.value != ""
  }

  const ThinkEnd: string := "</think>"
  const Fence: string := "```"

  /** Both adapters strip the reply and drop a reasoning section: everything
      up to and including the first `</think>`, and strip again. */
  function AfterReasoning(content: string): (r: string)
    ensures IsStripped(r)
  {
    var t := Strip(content);
    if Contains(t, ThinkEnd) then Strip(AfterFirst(t, ThinkEnd)) else t
  }

  /** The judge's answer after `.lower()`: a match iff it contains "yes". */
  predicate ParseVerdict(content: string) {
    Contains(Lower(AfterReasoning(content)), "yes")
  }

  /** Reference reading of a verdict, on the raw reply: the part after the
      first `</think>` (the whole reply when there is none)... */
  function Answer(content: string): string {
    if Contains(content, ThinkEnd) then AfterFirst(content, ThinkEnd) else content
  }

  /** ...affirms at index `i` when "yes" stands there in any letter case. */
  predicate AffirmsAt(s: string, i: int) {
    0 <= i && i + 3 <= |s|
    && LowerChar(s[i]) == 'y' && LowerChar(s[i + 1]) == 'e' && LowerChar(s[i + 2]) == 's'
  }

  lemma LowerContainsYes(x: string)
    ensures Contains(Lower(x), "yes") <==> exists i :: AffirmsAt(x, i)
  {
    var lx := Lower(x);
    if Contains(lx, "yes") {
      var k := IndexOf(lx, "yes");
      YesAt(x, k);
    }
    if i :| AffirmsAt(x, i) {
      YesAt(x, i);
    }
  }

  lemma YesAt(x: string, i: int)
    ensures OccursAt(Lower(x), "yes", i) <==> AffirmsAt(x, i)
  {
    var lx := Lower(x);
    if 0 <= i && i + 3 <= |x| {
      var w := lx[i..i + 3];
      assert w[0] == lx[i] && w[1] == lx[i + 1] && w[2] == lx[i + 2];
      assert w == "yes" <==> w[0] == 'y' && w[1] == 'e' && w[2] == 's';
    }
  }

  /** "yes" in any case is made of letters, so padding cannot take part in it. */
  lemma AffirmsPadded(p: string, t: string, q: string)
    requires AllSpace(p) && AllSpace(q)
    ensures (exists i :: AffirmsAt(p + t + q, i)) <==> (exists i :: AffirmsAt(t, i))
  {
    var s := p + t + q;
    if i :| AffirmsAt(s, i) {
      assert !IsSpace(s[i]) && !IsSpace(s[i + 2]);
      assert |p| <= i && i + 3 <= |p| + |t|;
      assert AffirmsAt(t, i - |p|);
    }
    if i :| AffirmsAt(t, i) {
      assert AffirmsAt(s, i + |p|);
    }
  }

  /** The verdict rule in one sentence: the reply is a match exactly when the
      text after its first `</think>` (or all of it, when there is none)
      contains "yes" in some letter case. Stripping never changes the answer. */
  lemma {:induction false} VerdictSpec(content: string)
    ensures ParseVerdict(content) <==> exists i :: AffirmsAt(Answer(content), i)
  {
    var p, q := StripSplit(content);
    var t := Strip(content);
    var reasoned := AfterReasoning(content);
    LowerContainsYes(reasoned);
    assert ParseVerdict(content) == Contains(Lower(reasoned), "yes");
    ThinkEndPadded(p, t, q);
    if Contains(t, ThinkEnd) {
      assert Answer(content) == AfterFirst(t, ThinkEnd) + q;
      assert reasoned == Strip(AfterFirst(t, ThinkEnd));
      AnswerAfterThink(t, q);
    } else {
      assert Answer(content) == content && reasoned == t;
      AffirmsPadded(p, t, q);
    }
  }

  lemma ThinkEndPadded(p: string, t: string, q: string)
    requires AllSpace(p) && AllSpace(q)
    ensures Contains(p + t + q, ThinkEnd) <==> Contains(t, ThinkEnd)
    ensures Contains(t, ThinkEnd) ==> AfterFirst(p + t + q, ThinkEnd) == AfterFirst(t, ThinkEnd) + q
  {
    assert NoSpace(ThinkEnd);
    AfterFirstPadded(p, t, q, ThinkEnd);
  }

  lemma AnswerAfterThink(t: string, q: string)
    requires Contains(t, ThinkEnd) && AllSpace(q)
    ensures var a := AfterFirst(t, ThinkEnd);
      (exists i :: AffirmsAt(Strip(a), i)) <==> (exists i :: AffirmsAt(a + q, i))
  {
    var a := AfterFirst(t, ThinkEnd);
    var p2, q2 := StripSplit(a);
    assert a + q == p2 + Strip(a) + (q2 + q);
    assert AllSpace(q2 + q);
    AffirmsPadded(p2, Strip(a), q2 + q);
  }

  /** Dropping the reasoning section, stated on the raw reply: the result is
      the stripped text after the first `</think>`, or the whole stripped
      reply when there is none. Stripping first changes nothing. */
  lemma AfterReasoningSpec(content: string)
    ensures AfterReasoning(content) == Strip(Answer(content))
  {
    var p, q := StripSplit(content);
    var t := Strip(content);
    ThinkEndPadded(p, t, q);
    if Contains(t, ThinkEnd) {
      StripPaddedRight(AfterFirst(t, ThinkEnd), q);
    } else {
      StripUnique(content, p, t, q);
    }
  }

  /** `check_vuln_with_llm` after the request: an unconfigured service or a
      failed request is a non-match; otherwise the reply is parsed. */
  predicate CheckVuln(cfg: LlmConfig, reply: Option<string>) {
    Configured(cfg) && reply.Some? && ParseVerdict(reply.value)
  }

  /** A submission is a match exactly when the service is configured, the
      request succeeded, and the answer part of the reply says "yes" in some
      letter case. */
  lemma CheckVulnSpec(cfg: LlmConfig, reply: Option<string>)
    ensures CheckVuln(cfg, reply) <==>
      Configured(cfg) && reply.Some? && exists i :: AffirmsAt(Answer(reply.value), i)
  {
    if reply.Some? {
      VerdictSpec(reply.value);
    }
  }

  /** The closing fence holds no newline, so the first newline of a fenced
      text comes before it. */
  lemma NewlineBeforeFence(t: string)
    requires EndsWith(t, Fence)
    ensures IndexOf(t, "\n") < |t| - 3
  {
    var nl := IndexOf(t, "\n");
    if nl >= 0 {
      assert t[nl] == '\n' by { assert t[nl..nl + 1] == "\n"; }
      var f := t[|t| - 3..];
      assert f == Fence;
      assert forall j | |t| - 3 <= j < |t| :: t[j] == f[j - (|t| - 3)];
    }
  }

  /** Index where a fenced block's body begins: after the first newline, or
      at 0 when there is no newline (`find` gives -1). The body never starts
      past the closing fence, so Python's slice `[start:-3]` is never empty
      by crossing over. */
  function FenceBodyStart(t: string): (k: nat)
    requires StartsWith(t, Fence) && EndsWith(t, Fence)
    ensures k <= |t| - 3
  {
    NewlineBeforeFence(t);
    IndexOf(t, "\n") + 1
  }

  /** The rewriter's reply after post-processing: the reasoning section is
      dropped and a Markdown fence around the code is removed. The result is
      always stripped and is a contiguous piece of the reply. */
  function CleanCode(content: string): (r: string)
    ensures IsStripped(r)
  {
    var t := AfterReasoning(content);
    if StartsWith(t, Fence) && EndsWith(t, Fence) then Strip(t[FenceBodyStart(t)..|t| - 3])
    else t
  }

  /** Post-processing only ever cuts the reply: what is left is a contiguous
      piece of it. */
  lemma CleanCodeIsInfix(content: string)
    ensures IsInfix(CleanCode(content), content)
  {
    var t := AfterReasoning(content);
    AfterReasoningInfix(content);
    if StartsWith(t, Fence) && EndsWith(t, Fence) {
      FenceBodyInfix(t);
      InfixTrans(CleanCode(content), t, content);
    } else {
      assert CleanCode(content) == t;
    }
  }

  lemma FenceBodyInfix(t: string)
    requires StartsWith(t, Fence) && EndsWith(t, Fence)
    ensures IsInfix(Strip(t[FenceBodyStart(t)..|t| - 3]), t)
  {
    SliceStripInfix(t, FenceBodyStart(t), |t| - 3);
  }

  lemma AfterReasoningInfix(content: string)
    ensures IsInfix(AfterReasoning(content), content)
  {
    var s := Strip(content);
    StripInfix(content);
    if Contains(s, ThinkEnd) {
      var a := AfterFirst(s, ThinkEnd);
      assert AfterReasoning(content) == Strip(a);
      StripInfix(a);
      assert IsInfix(a, s) by { assert OccursAt(s, a, |s| - |a|); }
      InfixTrans(Strip(a), a, s);
      InfixTrans(Strip(a), s, content);
    } else {
      assert AfterReasoning(content) == s;
    }
  }

  lemma SliceStripInfix(t: string, i: nat, j: nat)
    requires i <= j <= |t|
    ensures IsInfix(Strip(t[i..j]), t)
  {
    assert OccursAt(t, t[i..j], i);
    StripInfix(t[i..j]);
    InfixTrans(Strip(t[i..j]), t[i..j], t);
  }

  /** `obfuscate_code_with_llm` after the request: the original code when the
      service is not configured or the request failed, else the cleaned reply. */
  function Obfuscate(cfg: LlmConfig, code: string, reply: Option<string>): (r: string)
    ensures !Configured(cfg) || reply.None? ==> r == code
    ensures Configured(cfg) && reply.Some? ==> r == CleanCode(reply.value)
    ensures Configured(cfg) && reply.Some? ==> IsStripped(r) && IsInfix(r, reply.value)
  {
    if !Configured(cfg) then code
    else match reply
      case None => code
      case Some(content) => CleanCodeIsInfix(content); CleanCode(content)
  }

  /** A Markdown fence whose opening line carries an info string `lang`,
      with the closing fence right after `body`. */
  function Block(lang: string, body: string): string {
    Fence + lang + "\n" + body + Fence
  }

  /** Code in a Markdown fence, on lines of its own. */
  function Fenced(lang: string, code: string): string {
    Block(lang, code + "\n")
  }

  /** Any fenced block comes back as its body, stripped: the first line (the
      opening fence and its info string) and the closing fence are cut,
      whether or not a newline stands before the closing fence. */
  lemma {:induction false} CleanCodeUnfencesBlock(lang: string, body: string)
    requires forall i | 0 <= i < |lang| :: lang[i] != '\n'
    requires !Contains(Block(lang, body), ThinkEnd)
    ensures CleanCode(Block(lang, body)) == Strip(body)
  {
    var w := Block(lang, body);
    BlockShape(lang, body);
    StripStripped(w);
    assert AfterReasoning(w) == w;
    UnfenceBlock(lang, body);
  }

  /** A fenced reply on a single line has no newline to end its first line,
      so `find` gives -1, the cut starts at 0 and the opening fence is kept:
      only the closing fence and trailing whitespace are removed. */
  lemma {:induction false} CleanCodeOneLine(x: string)
    requires forall i | 0 <= i < |x| :: x[i] != '\n'
    requires !Contains(Fence + x + Fence, ThinkEnd)
    ensures CleanCode(Fence + x + Fence) == Fence + TrimEnd(x)
  {
    var w := Fence + x + Fence;
    assert IsStripped(w) && StartsWith(w, Fence) && EndsWith(w, Fence) by {
      assert w[..3] == Fence && w[|w| - 3..] == Fence;
    }
    StripStripped(w);
    assert AfterReasoning(w) == w;
    forall i | 0 <= i ensures !OccursAt(w, "\n", i) {
      if i + 1 <= |w| {
        assert w[i..i + 1][0] == w[i];
        if 3 <= i < 3 + |x| {
          assert w[i] == x[i - 3];
        }
      }
    }
    assert FenceBodyStart(w) == 0;
    assert w[0..|w| - 3] == Fence + x;
    var r := TrimEnd(x);
    TrimEndSplit(x);
    var q := x[|r|..];
    assert Fence + x == [] + (Fence + r) + q;
    assert IsStripped(Fence + r) by {
      if r != [] {
        assert (Fence + r)[|Fence + r| - 1] == r[|r| - 1];
      }
    }
    StripUnique(Fence + x, [], Fence + r, q);
  }

  /** Code wrapped in a Markdown fence and sent back by the rewriter comes
      out as the code itself. */
  lemma {:induction false} CleanCodeUnfences(lang: string, code: string)
    requires IsStripped(code)
    requires forall i | 0 <= i < |lang| :: lang[i] != '\n'
    requires !Contains(Fenced(lang, code), ThinkEnd)
    ensures CleanCode(Fenced(lang, code)) == code
  {
    var w := Fenced(lang, code);
    FencedShape(lang, code);
    StripStripped(w);
    assert AfterReasoning(w) == w;
    UnfenceBody(lang, code);
  }

  /** A reply that reasons first and then sends fenced code comes out as the
      code alone: the reasoning up to the first `</think>` and the fence are
      both dropped. */
  lemma {:induction false} CleanCodeDropsReasoning(reasoning: string, lang: string, code: string)
    requires IsStripped(code)
    requires forall i | 0 <= i < |lang| :: lang[i] != '\n'
    requires !Contains(reasoning, ThinkEnd)
    ensures CleanCode(reasoning + ThinkEnd + Fenced(lang, code)) == code
  {
    var w := Fenced(lang, code);
    var s := reasoning + ThinkEnd + w;
    FencedShape(lang, code);
    ReasoningEndsAtFirstThinkEnd(reasoning, w);
    AfterReasoningSpec(s);
    StripStripped(w);
    assert AfterReasoning(s) == w;
    UnfenceBody(lang, code);
  }

  /** With no `</think>` inside the reasoning, the first one of the reply is
      the one that closes it. */
  lemma ReasoningEndsAtFirstThinkEnd(reasoning: string, rest: string)
    requires !Contains(reasoning, ThinkEnd)
    ensures var s := reasoning + ThinkEnd + rest;
      Contains(s, ThinkEnd) && AfterFirst(s, ThinkEnd) == rest
  {
    var s := reasoning + ThinkEnd + rest;
    var n := |reasoning|;
    assert s[n..n + |ThinkEnd|] == ThinkEnd;
    assert OccursAt(s, ThinkEnd, n);
    forall i | 0 <= i < n ensures !OccursAt(s, ThinkEnd, i) {
      if i + |ThinkEnd| <= n {
        assert s[i..i + |ThinkEnd|] == reasoning[i..i + |ThinkEnd|];
        assert !OccursAt(reasoning, ThinkEnd, i);
      } else {
        // `</think>` has no other '<' than its first character, so it
        // cannot overlap the occurrence at `n`.
        var d := n - i;
        assert s[n] == '<' && ThinkEnd[d] != '<';
        if i + |ThinkEnd| <= |s| {
          assert s[i..i + |ThinkEnd|][d] == s[n];
        }
      }
    }
    FirstOccurrence(s, ThinkEnd, n);
    assert s[n + |ThinkEnd|..] == rest;
  }

  lemma FirstOccurrence(s: string, w: string, k: int)
    requires OccursAt(s, w, k)
    requires forall j | 0 <= j < k :: !OccursAt(s, w, j)
    ensures IndexOf(s, w) == k
  {
  }

  /** The fence slice of `Fenced(lang, code)` gives back the code. */
  lemma UnfenceBody(lang: string, code: string)
    requires IsStripped(code)
    requires forall i | 0 <= i < |lang| :: lang[i] != '\n'
    ensures var w := Fenced(lang, code);
      StartsWith(w, Fence) && EndsWith(w, Fence) && Strip(w[FenceBodyStart(w)..|w| - 3]) == code
  {
    UnfenceBlock(lang, code + "\n");
    StripNewlineAfter(code);
  }

  /** The fence slice of `Block(lang, body)` is the body. */
  lemma UnfenceBlock(lang: string, body: string)
    requires forall i | 0 <= i < |lang| :: lang[i] != '\n'
    ensures var w := Block(lang, body);
      StartsWith(w, Fence) && EndsWith(w, Fence) && Strip(w[FenceBodyStart(w)..|w| - 3]) == Strip(body)
  {
    var w := Block(lang, body);
    BlockShape(lang, body);
    FirstNewline(w, |lang| + 3);
    assert FenceBodyStart(w) == |lang| + 4;
  }

  lemma FencedShape(lang: string, code: string)
    requires forall i | 0 <= i < |lang| :: lang[i] != '\n'
    ensures var w := Fenced(lang, code);
      && IsStripped(w) && StartsWith(w, Fence) && EndsWith(w, Fence)
  {
    BlockShape(lang, code + "\n");
  }

  lemma BlockShape(lang: string, body: string)
    requires forall i | 0 <= i < |lang| :: lang[i] != '\n'
    ensures var w := Block(lang, body);
      && IsStripped(w) && StartsWith(w, Fence) && EndsWith(w, Fence)
      && OccursAt(w, "\n", |lang| + 3)
      && (forall j | 0 <= j < |lang| + 3 :: w[j] != '\n')
      && w[|lang| + 4..|w| - 3] == body
  {
    var w := Block(lang, body);
    var pre := Fence + lang;
    assert w == pre + "\n" + body + Fence;
    assert forall j | 0 <= j < |pre| :: w[j] == pre[j];
    assert w[|pre|..|pre| + 1] == "\n";
  }

  lemma FirstNewline(w: string, k: int)
    requires OccursAt(w, "\n", k)
    requires forall j | 0 <= j < k :: w[j] != '\n'
    ensures IndexOf(w, "\n") == k
  {
    var nl := IndexOf(w, "\n");
    assert nl >= 0 && w[nl..nl + 1] == "\n";
    assert w[nl] == w[nl..nl + 1][0] == '\n';
    assert nl <= k;
  }

  lemma StripNewlineAfter(code: string)
    requires IsStripped(code)
    ensures Strip(code + "\n") == code
  {
    if code == [] {
      assert TrimStart("\n") == TrimStart([]) == [];
    } else {
      assert TrimStart(code + "\n") == code + "\n";
      assert (code + "\n")[..|code|] == code;
      assert TrimEnd(code + "\n") == TrimEnd(code) == code;
    }
  }

  /** Text that is already clean — stripped, with no reasoning section and no
      fence — passes through the rewriter's post-processing unchanged. */
  lemma {:induction false} CleanCodeKeepsCleanText(s: string)
    requires IsStripped(s) && !Contains(s, ThinkEnd)
    requires !(StartsWith(s, Fence) && EndsWith(s, Fence))
    ensures CleanCode(s) == s
  {
    StripStripped(s);
  }
}
