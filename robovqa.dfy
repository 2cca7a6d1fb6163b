/**
 * The reward scorer for video question answering (verl/utils/reward_score/robovqa.py):
 * a correctness reward that compares the answers found between `<answer>` tags,
 * a format reward that checks the whole response against the think/answer layout,
 * and their weighted sum.
 */
module RoboVqa {
  import opened Wrappers
  import opened PyStr

  const AnswerOpen: string := "<answer>"
  const AnswerClose: string := "</answer>"
  const ThinkOpen: string := "<think>"
  const ThinkClose: string := "</think>"
  /** What must follow the reasoning: the closing think tag, one blank line, the opening answer tag. */
  const Separator: string := "</think>\n\n<answer>"

  /** Each tag has a single `<`, at its start, so no two occurrences of a tag overlap. */
  lemma TagsOpenOnce()
    ensures OpensOnce(AnswerOpen) && OpensOnce(AnswerClose)
    ensures OpensOnce(ThinkOpen) && OpensOnce(ThinkClose)
    ensures Separator == ThinkClose + "\n\n" + AnswerOpen
  {
  }

  // ---------------------------------------------------------------------------
  // Answer extraction: re.search(r"<answer>(.*?)</answer>", text, re.DOTALL)
  // ---------------------------------------------------------------------------

  /** The pattern matches `s` with its opening tag at `i` and its closing tag at `j`. */
  ghost predicate AnswerMatch(s: string, i: nat, j: nat) {
    OccursAt(s, AnswerOpen, i) && i + |AnswerOpen| <= j && OccursAt(s, AnswerClose, j)
  }

  ghost predicate HasAnswerMatch(s: string) {
    exists i: nat, j: nat :: AnswerMatch(s, i, j)
  }

  /**
   * The match `re.search` reports: the leftmost starting point, and from there the
   * shortest body, since `.*?` is lazy.
   */
  ghost predicate FirstAnswerMatch(s: string, i: nat, j: nat) {
    AnswerMatch(s, i, j)
    && (forall i': nat, j': nat :: i' < i ==> !AnswerMatch(s, i', j'))
    && (forall j': nat :: j' < j ==> !AnswerMatch(s, i, j'))
  }

  /** There is at most one reported match. */
  lemma FirstAnswerMatchUnique(s: string, i1: nat, j1: nat, i2: nat, j2: nat)
    requires FirstAnswerMatch(s, i1, j1) && FirstAnswerMatch(s, i2, j2)
    ensures i1 == i2 && j1 == j2
  {
  }

  /**
   * The positions of the opening and closing tag of the reported match, if any:
   * the first `<answer>`, then the first `</answer>` after it.
   */
  function AnswerSpan(s: string): (r: Option<(nat, nat)>)
    ensures r.Some? ==> FirstAnswerMatch(s, r.value.0, r.value.1)
    ensures r.None? ==> !HasAnswerMatch(s)
  {
    match FindFrom(s, AnswerOpen, 0)
    case None => None
    case Some(i) =>
      match FindFrom(s, AnswerClose, i + |AnswerOpen|)
      case None => None
      case Some(j) => Some((i, j))
  }

  /** `x` is the answer read from `s`: the stripped body of the reported match, or the whole text stripped. */
  ghost predicate ExtractsTo(s: string, x: string) {
    if HasAnswerMatch(s) then
      exists i: nat, j: nat :: FirstAnswerMatch(s, i, j) && x == Strip(s[i + |AnswerOpen|..j])
    else
      x == Strip(s)
  }

  /** The answer text that `single_choice_reward_fn` compares, before lower-casing. */
  function Extract(s: string): (r: string)
    ensures ExtractsTo(s, r)
  {
    match AnswerSpan(s)
    case Some((i, j)) => Strip(s[i + |AnswerOpen|..j])
    case None => Strip(s)
  }

  /** Whatever answer is read from `s` is the stripped body of the reported match. */
  lemma ExtractsToAt(s: string, i: nat, j: nat, x: string)
    requires FirstAnswerMatch(s, i, j) && ExtractsTo(s, x)
    ensures x == Strip(s[i + |AnswerOpen|..j])
  {
    var i1: nat, j1: nat :| FirstAnswerMatch(s, i1, j1) && x == Strip(s[i1 + |AnswerOpen|..j1]);
    FirstAnswerMatchUnique(s, i1, j1, i, j);
  }

  /** Only one answer can be read from a text. */
  lemma ExtractsToUnique(s: string, x: string, y: string)
    requires ExtractsTo(s, x) && ExtractsTo(s, y)
    ensures x == y
  {
    match AnswerSpan(s)
    case Some((i, j)) =>
      ExtractsToAt(s, i, j, x);
      ExtractsToAt(s, i, j, y);
    case None =>
  }

  /** The pattern matches at `i` and `j` when these are the first tags with no tag of their kind before them. */
  lemma AnswerSpanAt(s: string, i: nat, j: nat)
    requires OccursAt(s, AnswerOpen, i) && !Contains(s[0..i], AnswerOpen)
    requires i + |AnswerOpen| <= j && OccursAt(s, AnswerClose, j) && !Contains(s[i + |AnswerOpen|..j], AnswerClose)
    ensures AnswerSpan(s) == Some((i, j))
  {
    TagsOpenOnce();
    FindAfterGap(s, AnswerOpen, 0, i);
    FindAfterGap(s, AnswerClose, i + |AnswerOpen|, j);
  }

  /** Where the pieces of a tagged answer sit. */
  lemma TaggedPieces(pre: string, a: string, post: string)
    ensures var s := pre + AnswerOpen + a + AnswerClose + post;
      var b := |pre| + |AnswerOpen|;
      var j := b + |a|;
      && j + |AnswerClose| <= |s|
      && s[0..|pre|] == pre && s[|pre|..b] == AnswerOpen
      && s[b..j] == a && s[j..j + |AnswerClose|] == AnswerClose
  {
  }

  /**
   * A text made of a part without `<answer>`, a tagged answer without `</answer>`, and
   * anything after: the answer read is the stripped tagged answer.
   */
  lemma ExtractTagged(pre: string, a: string, post: string)
    requires !Contains(pre, AnswerOpen) && !Contains(a, AnswerClose)
    ensures Extract(pre + AnswerOpen + a + AnswerClose + post) == Strip(a)
  {
    var s := pre + AnswerOpen + a + AnswerClose + post;
    var b := |pre| + |AnswerOpen|;
    var j := b + |a|;
    TaggedPieces(pre, a, post);
    AnswerSpanAt(s, |pre|, j);
    ExtractAtSpan(s, |pre|, j);
    assert s[b..j] == a;
  }

  // ---------------------------------------------------------------------------
  // Correctness reward: single_choice_reward_fn
  // ---------------------------------------------------------------------------

  /** 1.0 when the two answers read agree up to letter case, 0.0 otherwise. */
  function SingleChoiceReward(toBeEvaluated: string, reference: string): (reward: real)
    ensures reward == 0.0 || reward == 1.0
  {
    if Lower(Extract(toBeEvaluated)) == Lower(Extract(reference)) then 1.0 else 0.0
  }

  /** The reward is decided by the answers the pattern reads from each side, compared without case. */
  lemma SingleChoiceRewardSpec(toBeEvaluated: string, reference: string, student: string, truth: string)
    requires ExtractsTo(toBeEvaluated, student) && ExtractsTo(reference, truth)
    ensures SingleChoiceReward(toBeEvaluated, reference) == 1.0 <==> Lower(student) == Lower(truth)
    ensures SingleChoiceReward(toBeEvaluated, reference) == 0.0 <==> Lower(student) != Lower(truth)
  {
    ExtractsToUnique(toBeEvaluated, student, Extract(toBeEvaluated));
    ExtractsToUnique(reference, truth, Extract(reference));
  }

  /** Swapping prediction and reference does not change the reward. */
  lemma SingleChoiceRewardSymmetric(p: string, g: string)
    ensures SingleChoiceReward(p, g) == SingleChoiceReward(g, p)
  {
  }

  /** Both texts have the answer tags at exactly the same positions. */
  ghost predicate SameTagPositions(x: string, y: string) {
    SameOccurrences(x, y, AnswerOpen) && SameOccurrences(x, y, AnswerClose)
  }

  /** The answer read when the pattern matches with its tags at `i` and `j`. */
  lemma ExtractAtSpan(s: string, i: nat, j: nat)
    requires AnswerSpan(s) == Some((i, j))
    ensures i + |AnswerOpen| <= j <= |s|
    ensures Extract(s) == Strip(s[i + |AnswerOpen|..j])
  {
  }

  /** The reported match depends only on where the tags are. */
  lemma AnswerSpanFollowsTags(x: string, y: string)
    requires SameTagPositions(x, y)
    ensures AnswerSpan(x) == AnswerSpan(y)
  {
    FindFromAgree(x, y, AnswerOpen, 0);
    var open := FindFrom(x, AnswerOpen, 0);
    if open.Some? {
      FindFromAgree(x, y, AnswerClose, open.value + |AnswerOpen|);
    }
  }

  /** Texts that differ only in letter case, with the tags in the same places, read answers equal up to case. */
  lemma ExtractIgnoresCase(x: string, y: string)
    requires Lower(x) == Lower(y) && SameTagPositions(x, y)
    ensures Lower(Extract(x)) == Lower(Extract(y))
  {
    AnswerSpanFollowsTags(x, y);
    var span := AnswerSpan(x);
    if span.Some? {
      var (i, j) := span.value;
      ExtractAtSpan(x, i, j);
      ExtractAtSpan(y, i, j);
      StripSliceIgnoresCase(x, y, i + |AnswerOpen|, j);
    } else {
      StripIgnoresCase(x, y);
    }
  }

  /**
   * Changing the letter case of either side leaves the reward unchanged, as long as the
   * change does not touch the (case-sensitive) tags.
   */
  lemma SingleChoiceRewardIgnoresCase(p: string, p': string, g: string, g': string)
    requires Lower(p) == Lower(p') && SameTagPositions(p, p')
    requires Lower(g) == Lower(g') && SameTagPositions(g, g')
    ensures SingleChoiceReward(p, g) == SingleChoiceReward(p', g')
  {
    ExtractIgnoresCase(p, p');
    ExtractIgnoresCase(g, g');
    LowerIdempotent(Extract(p));
  }

  /** Without a match the whole text, stripped, is the answer. */
  lemma ExtractWithoutMatch(s: string)
    requires !HasAnswerMatch(s)
    ensures Extract(s) == Strip(s)
  {
  }

  /** An answer in tags, and nothing else, reads as the stripped answer. */
  lemma ExtractOnlyTagged(a: string)
    requires !Contains(a, AnswerClose)
    ensures Extract(AnswerOpen + a + AnswerClose) == Strip(a)
  {
    var empty: string := [];
    assert !Contains(empty, AnswerOpen) by {
      assert forall k: nat :: !OccursAt(empty, AnswerOpen, k);
    }
    assert empty + AnswerOpen + a + AnswerClose + empty == AnswerOpen + a + AnswerClose;
    ExtractTagged(empty, a, empty);
  }

  /** A bare answer scores 1.0 against the same answer in tags, up to case and surrounding whitespace. */
  lemma BareMatchesTagged(p: string, a: string)
    requires !HasAnswerMatch(p) && !Contains(a, AnswerClose)
    requires Lower(Strip(p)) == Lower(Strip(a))
    ensures SingleChoiceReward(p, AnswerOpen + a + AnswerClose) == 1.0
  {
    ExtractWithoutMatch(p);
    ExtractOnlyTagged(a);
  }

  // ---------------------------------------------------------------------------
  // Format reward: format_reward_fn, the anchored pattern
  //   ^<think>([^<]*(?:<(?!/?think>)[^<]*)*)</think>\n\n<answer>([\s\S]*?)</answer>$
  // ---------------------------------------------------------------------------

  /** The text the pattern accepts with reasoning `t`, answer `a`, and optionally one final newline for `$`. */
  function Layout(t: string, a: string, trailingNewline: bool): string {
    ThinkOpen + t + Separator + a + AnswerClose + (if trailingNewline then "\n" else "")
  }

  /** The reasoning holds neither an opening nor a closing think tag. */
  ghost predicate NoThinkTag(t: string) {
    !Contains(t, ThinkOpen) && !Contains(t, ThinkClose)
  }

  /** The whole text is a think block, one blank line, an answer block, and at most one final newline. */
  ghost predicate WellFormatted(s: string) {
    exists t: string, a: string, nl: bool :: NoThinkTag(t) && s == Layout(t, a, nl)
  }

  /**
   * Group 1 of the pattern followed by the text `rest`: every `<` of `t` is followed,
   * in the whole text, by neither `think>` nor `/think>` (the lookahead `(?!/?think>)`).
   */
  ghost predicate ThinkGroup(t: string, rest: string) {
    forall p :: 0 <= p < |t| && t[p] == '<' ==>
      !OccursAt(t + rest, "think>", p + 1) && !OccursAt(t + rest, "/think>", p + 1)
  }

  /** Behind a `<` of the reasoning, `name` follows exactly when the tag `<name` occurs there. */
  lemma TagBehindLt(t: string, rest: string, p: nat, name: string)
    requires rest != [] && rest[0] == '<' && '<' !in name
    requires p < |t| && t[p] == '<'
    ensures OccursAt(t + rest, name, p + 1) <==> OccursAt(t, ['<'] + name, p)
  {
    var s := t + rest;
    var n := |name|;
    if p + 1 + n <= |t| {
      assert s[p + 1..p + 1 + n] == t[p + 1..p + 1 + n];
      assert t[p..p + 1 + n] == [t[p]] + t[p + 1..p + 1 + n];
      assert (['<'] + name)[1..] == name;
      assert t[p..p + 1 + n][1..] == t[p + 1..p + 1 + n];
    } else {
      NoOccurrenceOverLt(s, name, p + 1, |t|);
    }
  }

  /** The lookahead at one `<` of the reasoning, when the text after the reasoning starts with `<`. */
  lemma LookaheadAt(t: string, rest: string, p: nat)
    requires rest != [] && rest[0] == '<' && p < |t| && t[p] == '<'
    ensures OccursAt(t + rest, "think>", p + 1) <==> OccursAt(t, ThinkOpen, p)
    ensures OccursAt(t + rest, "/think>", p + 1) <==> OccursAt(t, ThinkClose, p)
  {
    assert ThinkOpen == ['<'] + "think>" && ThinkClose == ['<'] + "/think>";
    TagBehindLt(t, rest, p, "think>");
    TagBehindLt(t, rest, p, "/think>");
  }

  /** Group 1 of the pattern accepts exactly the reasoning texts without a think tag. */
  lemma ThinkGroupIffNoThinkTag(t: string, rest: string)
    requires rest != [] && rest[0] == '<'
    ensures ThinkGroup(t, rest) <==> NoThinkTag(t)
  {
    forall p: nat | p < |t| && t[p] == '<' {
      LookaheadAt(t, rest, p);
    }
    forall k: nat | OccursAt(t, ThinkOpen, k)
      ensures t[k] == '<'
    {
      assert t[k..k + 7][0] == t[k];
    }
    forall k: nat | OccursAt(t, ThinkClose, k)
      ensures t[k] == '<'
    {
      assert t[k..k + 8][0] == t[k];
    }
  }

  /**
   * The anchored pattern as written: group 1 with its lookahead, read in front of the rest
   * of the text, then the separator, any answer, `</answer>` and `$`.
   */
  ghost predicate PatternMatches(s: string) {
    exists t: string, a: string, nl: bool ::
      s == Layout(t, a, nl) && ThinkGroup(t, Separator + a + AnswerClose + (if nl then "\n" else ""))
  }

  /** The pattern as written accepts exactly the well-formatted texts. */
  lemma PatternMatchesIffWellFormatted(s: string)
    ensures PatternMatches(s) <==> WellFormatted(s)
  {
    TagsOpenOnce();
    if PatternMatches(s) {
      var t: string, a: string, nl: bool :|
        s == Layout(t, a, nl) && ThinkGroup(t, Separator + a + AnswerClose + (if nl then "\n" else ""));
      ThinkGroupIffNoThinkTag(t, Separator + a + AnswerClose + (if nl then "\n" else ""));
    }
    if WellFormatted(s) {
      var t: string, a: string, nl: bool :| NoThinkTag(t) && s == Layout(t, a, nl);
      ThinkGroupIffNoThinkTag(t, Separator + a + AnswerClose + (if nl then "\n" else ""));
    }
  }

  /** The text ends, from index `b` on, with an answer body, `</answer>` and at most one `\n` (the pattern's `$`). */
  predicate EndsWithAnswerClose(s: string, b: nat) {
    (b + |AnswerClose| <= |s| && OccursAt(s, AnswerClose, |s| - |AnswerClose|))
    || (b + |AnswerClose| + 1 <= |s| && s[|s| - 1] == '\n' && OccursAt(s, AnswerClose, |s| - |AnswerClose| - 1))
  }

  /**
   * The anchored match, decided by a scan: the text opens with `<think>`; the first
   * `</think>` after it closes a reasoning part without `<think>`; the separator follows;
   * and the text ends with `</answer>` and at most one newline.
   */
  predicate FormatMatches(s: string)
    ensures FormatMatches(s) ==> OccursAt(s, ThinkOpen, 0) && |ThinkOpen| + |Separator| + |AnswerClose| <= |s|
  {
    OccursAt(s, ThinkOpen, 0)
    && match FindFrom(s, ThinkClose, |ThinkOpen|)
       case None => false
       case Some(e) =>
         FindFrom(s[|ThinkOpen|..e], ThinkOpen, 0).None?
         && OccursAt(s, Separator, e)
         && EndsWithAnswerClose(s, e + |Separator|)
  }

  /** 1.0 when the whole text has the think/answer layout, 0.0 otherwise. */
  function FormatReward(toBeEvaluated: string): (reward: real)
    ensures reward == 0.0 || reward == 1.0
  {
    if FormatMatches(toBeEvaluated) then 1.0 else 0.0
  }

  /** Where the pieces of a layout sit. */
  lemma LayoutPieces(t: string, a: string, nl: bool)
    ensures var s := Layout(t, a, nl);
      var e := |ThinkOpen| + |t|;
      var b := e + |Separator|;
      var m := b + |a|;
      && |s| == m + |AnswerClose| + (if nl then 1 else 0)
      && s[..|ThinkOpen|] == ThinkOpen && s[|ThinkOpen|..e] == t
      && s[e..b] == Separator && s[b..m] == a && s[m..m + |AnswerClose|] == AnswerClose
      && (nl ==> s[|s| - 1] == '\n')
  {
  }

  /** After `<think>` and a reasoning without think tags, the first `</think>` is the one right after the reasoning. */
  lemma ReasoningEnds(s: string, t: string)
    requires NoThinkTag(t)
    requires |ThinkOpen| + |t| <= |s| && s[|ThinkOpen|..|ThinkOpen| + |t|] == t
    requires OccursAt(s, ThinkClose, |ThinkOpen| + |t|)
    ensures FindFrom(s, ThinkClose, |ThinkOpen|) == Some(|ThinkOpen| + |t|)
  {
    TagsOpenOnce();
    FindAfterGap(s, ThinkClose, |ThinkOpen|, |ThinkOpen| + |t|);
  }

  /** A well-formatted text passes the scan. */
  lemma LayoutMatches(t: string, a: string, nl: bool)
    requires NoThinkTag(t)
    ensures FormatMatches(Layout(t, a, nl))
  {
    var s := Layout(t, a, nl);
    var e := |ThinkOpen| + |t|;
    LayoutPieces(t, a, nl);
    TagsOpenOnce();
    assert s[e..e + |ThinkClose|] == ThinkClose by {
      assert s[e..e + |ThinkClose|] == s[e..e + |Separator|][..|ThinkClose|];
    }
    ReasoningEnds(s, t);
    assert FindFrom(t, ThinkOpen, 0).None?;
  }

  /** The reasoning the scan delimits holds no think tag. */
  lemma ScannedReasoning(s: string, e: nat)
    requires OccursAt(s, ThinkOpen, 0) && FindFrom(s, ThinkClose, |ThinkOpen|) == Some(e)
    requires FindFrom(s[|ThinkOpen|..e], ThinkOpen, 0).None?
    ensures NoThinkTag(s[|ThinkOpen|..e])
  {
    var t := s[|ThinkOpen|..e];
    forall k: nat
      ensures !OccursAt(t, ThinkClose, k)
    {
      OccursInSlice(s, |ThinkOpen|, e, ThinkClose, k);
    }
  }

  /** The scan's end condition splits the rest of the text into an answer, `</answer>` and the final newline. */
  lemma ScannedEnding(s: string, b: nat) returns (a: string, nl: bool)
    requires b <= |s| && EndsWithAnswerClose(s, b)
    ensures s[b..] == a + AnswerClose + (if nl then "\n" else "")
  {
    nl := !(b + |AnswerClose| <= |s| && OccursAt(s, AnswerClose, |s| - |AnswerClose|));
    var m := |s| - |AnswerClose| - (if nl then 1 else 0);
    a := s[b..m];
    assert s[b..] == a + s[m..m + |AnswerClose|] + s[m + |AnswerClose|..];
    if nl {
      assert s[m + |AnswerClose|..] == [s[|s| - 1]];
    }
  }

  /** A text that passes the scan is a layout: the scan finds its reasoning and its answer. */
  lemma MatchesLayout(s: string) returns (t: string, a: string, nl: bool)
    requires FormatMatches(s)
    ensures NoThinkTag(t) && s == Layout(t, a, nl)
  {
    var e := FindFrom(s, ThinkClose, |ThinkOpen|).value;
    var b := e + |Separator|;
    t := s[|ThinkOpen|..e];
    ScannedReasoning(s, e);
    a, nl := ScannedEnding(s, b);
    var head := ThinkOpen + t + Separator;
    var tail: string := if nl then "\n" else "";
    assert s[..b] == head by {
      assert s[..b] == s[..|ThinkOpen|] + t + s[e..b];
    }
    assert s == head + (a + AnswerClose + tail) by {
      assert s == s[..b] + s[b..];
    }
    AppendAssoc(head, a + AnswerClose, tail);
    AppendAssoc(head, a, AnswerClose);
  }

  /** `format_reward_fn` gives 1.0 exactly for well-formatted texts, and 0.0 for all others. */
  lemma FormatRewardSpec(s: string)
    ensures FormatReward(s) == 1.0 <==> WellFormatted(s)
    ensures FormatReward(s) == 0.0 <==> !WellFormatted(s)
  {
    if FormatMatches(s) {
      var t, a, nl := MatchesLayout(s);
    }
    if WellFormatted(s) {
      var t: string, a: string, nl: bool :| NoThinkTag(t) && s == Layout(t, a, nl);
      LayoutMatches(t, a, nl);
    }
  }

  /** A text that does not open with `<think>` scores 0.0. */
  lemma FormatRejectsMissingThinkOpen(s: string)
    requires !OccursAt(s, ThinkOpen, 0)
    ensures !WellFormatted(s) && FormatReward(s) == 0.0
  {
    FormatRewardSpec(s);
  }

  /** Any text before `<think>` that does not itself start with `<` makes the format fail. */
  lemma FormatRejectsLeadingText(pre: string, rest: string)
    requires pre != [] && pre[0] != '<'
    ensures !WellFormatted(pre + rest) && FormatReward(pre + rest) == 0.0
  {
    var s := pre + rest;
    if |ThinkOpen| <= |s| {
      assert s[..|ThinkOpen|][0] == pre[0];
    }
    FormatRejectsMissingThinkOpen(s);
  }

  /**
   * Leading text that begins with `<think>` can open a layout of its own: the empty think
   * block and separator put before any layout give a well-formatted text, whose answer
   * block is the whole layout behind them.
   */
  lemma LayoutBehindOpening(t: string, a: string)
    ensures WellFormatted(ThinkOpen + Separator + Layout(t, a, false))
    ensures FormatReward(ThinkOpen + Separator + Layout(t, a, false)) == 1.0
  {
    var empty: string := [];
    var body := ThinkOpen + t + Separator + a;
    var s := ThinkOpen + Separator + Layout(t, a, false);
    assert NoThinkTag(empty) by {
      assert forall k: nat :: !OccursAt(empty, ThinkOpen, k) && !OccursAt(empty, ThinkClose, k);
    }
    assert Layout(t, a, false) == body + AnswerClose;
    AppendAssoc(ThinkOpen + Separator, body, AnswerClose);
    assert Layout(empty, body, false) == ThinkOpen + Separator + body + AnswerClose;
    assert s == Layout(empty, body, false);
    FormatRewardSpec(s);
  }

  /** A text with no `<think>` anywhere, such as a bare answer, scores 0.0. */
  lemma FormatRejectsUntagged(s: string)
    requires !Contains(s, ThinkOpen)
    ensures !WellFormatted(s) && FormatReward(s) == 0.0
  {
    FormatRejectsMissingThinkOpen(s);
  }

  /** A single newline between `</think>` and `<answer>` makes the format fail, whatever follows. */
  lemma FormatRejectsSingleNewline(t: string, a: string, tail: string)
    requires NoThinkTag(t)
    ensures var s := ThinkOpen + t + ThinkClose + "\n" + AnswerOpen + a + AnswerClose + tail;
      !WellFormatted(s) && FormatReward(s) == 0.0
  {
    var s := ThinkOpen + t + ThinkClose + "\n" + AnswerOpen + a + AnswerClose + tail;
    var e := |ThinkOpen| + |t|;
    assert s[|ThinkOpen|..e] == t;
    assert s[e..e + |ThinkClose|] == ThinkClose;
    ReasoningEnds(s, t);
    assert s[e + |ThinkClose| + 1] == '<';
    NotAtMismatch(s, Separator, e, |ThinkClose| + 1);
    FormatRewardSpec(s);
  }

  /** `$` tolerates one final newline, not two. */
  lemma FormatRejectsSecondTrailingNewline(t: string, a: string)
    ensures var s := Layout(t, a, true) + "\n";
      !WellFormatted(s) && FormatReward(s) == 0.0
  {
    var s := Layout(t, a, true) + "\n";
    var n := |s|;
    assert s[n - 1] == '\n' && s[n - 2] == '\n';
    NotAtMismatch(s, AnswerClose, n - |AnswerClose|, |AnswerClose| - 1);
    NotAtMismatch(s, AnswerClose, n - |AnswerClose| - 1, |AnswerClose| - 1);
    FormatRewardSpec(s);
  }

  // ---------------------------------------------------------------------------
  // Which answer is read from a well-formatted response
  // ---------------------------------------------------------------------------

  /** `<think>` followed by a text without `<answer>` has no `<answer>`. */
  lemma NoAnswerOpenAfterThinkOpen(y: string)
    requires !Contains(y, AnswerOpen)
    ensures !Contains(ThinkOpen + y, AnswerOpen)
  {
    var s := ThinkOpen + y;
    assert s[|ThinkOpen|..|s|] == y;
    forall k: nat
      ensures !OccursAt(s, AnswerOpen, k)
    {
      if |ThinkOpen| <= k {
        OccursInSlice(s, |ThinkOpen|, |s|, AnswerOpen, k - |ThinkOpen|);
      } else if k == 0 {
        NotAtMismatch(s, AnswerOpen, k, 1);
      } else {
        NotAtMismatch(s, AnswerOpen, k, 0);
      }
    }
  }

  /** The text between the reasoning and the answer has no `<answer>` of its own. */
  lemma NoAnswerOpenInSeparator()
    ensures !Contains(ThinkClose + "\n\n", AnswerOpen)
  {
    var w := ThinkClose + "\n\n";
    forall k: nat
      ensures !OccursAt(w, AnswerOpen, k)
    {
      if k == 0 {
        NotAtMismatch(w, AnswerOpen, k, 1);
      } else if k < 3 {
        NotAtMismatch(w, AnswerOpen, k, 0);
      }
    }
  }

  /** In a well-formatted response whose reasoning never writes `<answer>`, the answer read is the answer block. */
  lemma ExtractFromLayout(t: string, a: string, nl: bool)
    requires NoThinkTag(t) && !Contains(t, AnswerOpen) && !Contains(a, AnswerClose)
    ensures Extract(Layout(t, a, nl)) == Strip(a)
  {
    var w := ThinkClose + "\n\n";
    TagsOpenOnce();
    NoAnswerOpenInSeparator();
    NoOccurrenceInConcat(t, w, AnswerOpen);
    NoAnswerOpenAfterThinkOpen(t + w);
    var pre := ThinkOpen + (t + w);
    var tail: string := if nl then "\n" else "";
    assert Layout(t, a, nl) == pre + AnswerOpen + a + AnswerClose + tail;
    ExtractTagged(pre, a, tail);
  }

  /**
   * The search is not confined to the answer block: an answer tagged inside the reasoning
   * comes first and is the one read.
   */
  lemma ExtractFindsTagInReasoning(a1: string, r: string, a: string, nl: bool)
    requires !Contains(a1, AnswerClose)
    ensures Extract(Layout(AnswerOpen + a1 + AnswerClose + r, a, nl)) == Strip(a1)
  {
    var tail: string := if nl then "\n" else "";
    var y := AnswerOpen + a1 + AnswerClose;
    var z := Separator + a + AnswerClose + tail;
    var post := r + z;
    assert Layout(y + r, a, nl) == ThinkOpen + (y + r) + z;
    AppendAssoc(ThinkOpen, y, r);
    AppendAssoc(ThinkOpen + y, r, z);
    AppendAssoc(ThinkOpen, AnswerOpen + a1, AnswerClose);
    AppendAssoc(ThinkOpen, AnswerOpen, a1);
    ExtractTagged(ThinkOpen, a1, post);
  }

  // ---------------------------------------------------------------------------
  // Combined score: compute_score
  // ---------------------------------------------------------------------------

  /**
   * Line 83: the format reward weighted by `formatScore` plus the correctness reward
   * weighted by the rest. For 0/1 rewards it is a sum of the weights earned, and it
   * stays within [0, 1] when the weight does.
   */
  function Combine(formatReward: real, correctnessReward: real, formatScore: real): (score: real)
    ensures (formatReward == 0.0 || formatReward == 1.0) && (correctnessReward == 0.0 || correctnessReward == 1.0) ==>
      && score == (if formatReward == 1.0 then formatScore else 0.0)
                + (if correctnessReward == 1.0 then 1.0 - formatScore else 0.0)
      && (0.0 <= formatScore <= 1.0 ==> 0.0 <= score <= 1.0)
  {
    formatReward * formatScore + correctnessReward * (1.0 - formatScore)
  }

  /** `compute_score`, with its default arguments; `useBoxed` is kept for the interface and has no effect. */
  function ComputeScore(predict: string, groundTruth: string, useBoxed: bool := true, formatScore: real := 0.1): (score: real)
    ensures 0.0 <= formatScore <= 1.0 ==> 0.0 <= score <= 1.0
  {
    Combine(FormatReward(predict), SingleChoiceReward(predict, groundTruth), formatScore)
  }

  /**
   * The score in the terms of the two checks: `formatScore` for a well-formatted response,
   * plus `1 - formatScore` when the answers read agree up to case.
   */
  lemma ComputeScoreSpec(predict: string, groundTruth: string, useBoxed: bool, formatScore: real,
                         student: string, truth: string)
    requires ExtractsTo(predict, student) && ExtractsTo(groundTruth, truth)
    ensures ComputeScore(predict, groundTruth, useBoxed, formatScore)
         == (if WellFormatted(predict) then formatScore else 0.0)
          + (if Lower(student) == Lower(truth) then 1.0 - formatScore else 0.0)
  {
    FormatRewardSpec(predict);
    SingleChoiceRewardSpec(predict, groundTruth, student, truth);
  }

  /** Called with the defaults, the format check weighs 0.1 and the answer check 0.9. */
  lemma ComputeScoreDefaults(predict: string, groundTruth: string)
    ensures ComputeScore(predict, groundTruth) == FormatReward(predict) * 0.1 + SingleChoiceReward(predict, groundTruth) * 0.9
  {
  }

  /** The legacy flag changes nothing. */
  lemma ComputeScoreIgnoresUseBoxed(predict: string, groundTruth: string, formatScore: real)
    ensures ComputeScore(predict, groundTruth, true, formatScore) == ComputeScore(predict, groundTruth, false, formatScore)
  {
  }

  /** With weight 0 the score is the correctness reward; with weight 1 it is the format reward. */
  lemma ComputeScoreExtremes(predict: string, groundTruth: string, useBoxed: bool)
    ensures ComputeScore(predict, groundTruth, useBoxed, 0.0) == SingleChoiceReward(predict, groundTruth)
    ensures ComputeScore(predict, groundTruth, useBoxed, 1.0) == FormatReward(predict)
  {
  }

  /** A well-formatted response scores 1 when correct and exactly the format weight when wrong. */
  lemma ComputeScoreWellFormatted(predict: string, groundTruth: string, useBoxed: bool, formatScore: real)
    requires WellFormatted(predict)
    ensures SingleChoiceReward(predict, groundTruth) == 1.0 ==> ComputeScore(predict, groundTruth, useBoxed, formatScore) == 1.0
    ensures SingleChoiceReward(predict, groundTruth) == 0.0 ==> ComputeScore(predict, groundTruth, useBoxed, formatScore) == formatScore
  {
    FormatRewardSpec(predict);
  }
}
