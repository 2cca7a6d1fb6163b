/**
 * Worked cases of the reward scorer, each derived from the general lemmas.
 * The one-character answers and reasoning are described by their character
 * (`OneChar(u, 'A')` is the string "A"), and the replies are built from the
 * tag constants, so each case reads as the text it names in its comment.
 * They are not stated on string literals: given a literal, the verifier
 * evaluates the scorer's recursive search and strip on the literal text, and
 * those proofs exceed the resource limit on some solver seeds.
 */
module RoboVqaExamples {
  import opened PyStr
  import opened RoboVqa

  /** `s` is the one-character string holding `c`. */
  predicate OneChar(s: string, c: char) {
    |s| == 1 && s[0] == c
  }

  /** A text that lacks one character of a tag does not contain the tag. */
  lemma NoTagWithout(t: string, tag: string, m: nat)
    requires m < |tag| && tag[m] !in t
    ensures !Contains(t, tag)
  {
    forall k: nat | k + |tag| <= |t|
      ensures !OccursAt(t, tag, k)
    {
      assert t[k..k + |tag|][m] == t[k + m];
    }
  }

  /** A text with no whitespace at either end strips to itself. */
  lemma StripUnpadded(s: string)
    requires s != [] && !IsSpace(s[0]) && !IsSpace(s[|s| - 1])
    ensures Strip(s) == s
  {
    assert StripWitness(s, s, 0);
    StripUnique(s, Strip(s), s);
  }

  /** " A " strips to "A". */
  lemma StripPadded(u: string)
    requires OneChar(u, 'A')
    ensures Strip([' '] + u + [' ']) == u
  {
    var p := [' '] + u + [' '];
    assert p[1..2] == u;
    assert StripWitness(p, u, 1);
    StripUnique(p, Strip(p), u);
  }

  /** Two tagged answers agree when their stripped contents agree up to case. */
  lemma TaggedPairReward(u: string, a: string)
    requires !Contains(u, AnswerClose) && !Contains(a, AnswerClose)
    ensures SingleChoiceReward(AnswerOpen + u + AnswerClose, AnswerOpen + a + AnswerClose) == 1.0
           <==> Lower(Strip(u)) == Lower(Strip(a))
  {
    ExtractOnlyTagged(u);
    ExtractOnlyTagged(a);
  }

  /** "<answer>A</answer>" against "<answer>a</answer>" scores 1.0. */
  lemma TaggedAnswersIgnoreCase(u: string, a: string)
    requires OneChar(u, 'A') && OneChar(a, 'a')
    ensures SingleChoiceReward(AnswerOpen + u + AnswerClose, AnswerOpen + a + AnswerClose) == 1.0
  {
    NoTagWithout(u, AnswerClose, 0);
    NoTagWithout(a, AnswerClose, 0);
    StripUnpadded(u);
    StripUnpadded(a);
    assert Lower(u) == Lower(a);
    TaggedPairReward(u, a);
  }

  /** Any answer without `<`, such as "Paris", scores 1.0 against itself in answer tags. */
  lemma BareWordMatchesTagged(w: string)
    requires '<' !in w
    ensures SingleChoiceReward(w, AnswerOpen + w + AnswerClose) == 1.0
  {
    NoTagWithout(w, AnswerOpen, 0);
    NoTagWithout(w, AnswerClose, 0);
    BareMatchesTagged(w, w);
  }

  /** " A " against "<answer>a</answer>" scores 1.0: padding and case do not matter. */
  lemma PaddedBareMatchesTagged(u: string, a: string)
    requires OneChar(u, 'A') && OneChar(a, 'a')
    ensures SingleChoiceReward([' '] + u + [' '], AnswerOpen + a + AnswerClose) == 1.0
  {
    var p := [' '] + u + [' '];
    NoTagWithout(a, AnswerClose, 0);
    NoTagWithout(p, AnswerOpen, 0);
    StripPadded(u);
    StripUnpadded(a);
    assert Lower(u) == Lower(a);
    BareMatchesTagged(p, a);
  }

  /** An untagged answer is compared whole with a tagged one. */
  lemma UntaggedVsTagged(p: string, a: string)
    requires !HasAnswerMatch(p) && !Contains(a, AnswerClose)
    ensures SingleChoiceReward(p, AnswerOpen + a + AnswerClose) == 1.0
           <==> Lower(Strip(p)) == Lower(Strip(a))
  {
    ExtractWithoutMatch(p);
    ExtractOnlyTagged(a);
  }

  /**
   * "<ANSWER>A</ANSWER>" against "<answer>a</answer>" scores 0.0: tag names are
   * matched with case, so the upper-case tags are compared as plain text.
   */
  lemma UpperCaseTagsAreText(u: string, a: string)
    requires OneChar(u, 'A') && OneChar(a, 'a')
    ensures SingleChoiceReward("<ANSWER>" + u + "</ANSWER>", AnswerOpen + a + AnswerClose) == 0.0
  {
    var p := "<ANSWER>" + u + "</ANSWER>";
    assert p[1] == 'A';
    NoTagWithout(p, AnswerOpen, 1);
    NoTagWithout(a, AnswerClose, 0);
    StripUnpadded(p);
    StripUnpadded(a);
    assert |Lower(p)| != |Lower(a)|;
    UntaggedVsTagged(p, a);
  }

  /** "<think>x</think>\n\n<answer>A</answer>" passes the format check. */
  lemma FormatAccepted(t: string, a: string)
    requires OneChar(t, 'x') && OneChar(a, 'A')
    ensures FormatReward(ThinkOpen + t + ThinkClose + "\n\n" + AnswerOpen + a + AnswerClose) == 1.0
  {
    NoTagWithout(t, ThinkOpen, 0);
    NoTagWithout(t, ThinkClose, 0);
    TagsOpenOnce();
    assert ThinkOpen + t + ThinkClose + "\n\n" + AnswerOpen + a + AnswerClose == Layout(t, a, false);
    LayoutMatches(t, a, false);
  }

  /** "<think>x</think>\n<answer>A</answer>", with one newline, fails the format check. */
  lemma FormatMissingBlankLine(t: string, a: string)
    requires OneChar(t, 'x') && OneChar(a, 'A')
    ensures FormatReward(ThinkOpen + t + ThinkClose + "\n" + AnswerOpen + a + AnswerClose) == 0.0
  {
    NoTagWithout(t, ThinkOpen, 0);
    NoTagWithout(t, ThinkClose, 0);
    FormatRejectsSingleNewline(t, a, []);
    assert ThinkOpen + t + ThinkClose + "\n" + AnswerOpen + a + AnswerClose + []
        == ThinkOpen + t + ThinkClose + "\n" + AnswerOpen + a + AnswerClose;
  }

  /** The bare answer "A" fails the format check. */
  lemma FormatBareAnswer(a: string)
    requires OneChar(a, 'A')
    ensures FormatReward(a) == 0.0
  {
    FormatRejectsLeadingText(a, []);
    assert a + [] == a;
  }

  /** "<think>x</think>\n\n<answer>B</answer>" against "<answer>B</answer>" with weight 0.1 scores 1.0. */
  lemma ScoreCorrectAndFormatted(t: string, a: string)
    requires OneChar(t, 'x') && OneChar(a, 'B')
    ensures ComputeScore(Layout(t, a, false), AnswerOpen + a + AnswerClose, true, 0.1) == 1.0
  {
    NoTagWithout(t, ThinkOpen, 0);
    NoTagWithout(t, ThinkClose, 0);
    NoTagWithout(t, AnswerOpen, 0);
    NoTagWithout(a, AnswerClose, 0);
    LayoutMatches(t, a, false);
    ExtractFromLayout(t, a, false);
    ExtractOnlyTagged(a);
  }

  /** A well formatted reply whose answer disagrees earns the format weight alone. */
  lemma FormattedButWrong(t: string, a: string, b: string, useBoxed: bool, formatScore: real)
    requires NoThinkTag(t) && !Contains(t, AnswerOpen)
    requires !Contains(a, AnswerClose) && !Contains(b, AnswerClose)
    requires Lower(Strip(a)) != Lower(Strip(b))
    ensures ComputeScore(Layout(t, a, false), AnswerOpen + b + AnswerClose, useBoxed, formatScore) == formatScore
  {
    LayoutMatches(t, a, false);
    ExtractFromLayout(t, a, false);
    ExtractOnlyTagged(b);
  }

  /** Single-letter answers that differ in letter, not only in case, disagree. */
  lemma DistinctLetters(a: string, b: string)
    requires |a| == 1 && |b| == 1 && !IsSpace(a[0]) && !IsSpace(b[0])
    requires LowerChar(a[0]) != LowerChar(b[0])
    ensures Lower(Strip(a)) != Lower(Strip(b))
  {
    StripUnpadded(a);
    StripUnpadded(b);
    assert Lower(a)[0] != Lower(b)[0];
  }

  /** "<think>x</think>\n\n<answer>C</answer>" against "<answer>B</answer>" with weight 0.1 scores 0.1. */
  lemma ScoreWrongButFormatted(t: string, a: string, b: string)
    requires OneChar(t, 'x') && OneChar(a, 'C') && OneChar(b, 'B')
    ensures ComputeScore(Layout(t, a, false), AnswerOpen + b + AnswerClose, true, 0.1) == 0.1
  {
    NoTagWithout(t, ThinkOpen, 0);
    NoTagWithout(t, ThinkClose, 0);
    NoTagWithout(t, AnswerOpen, 0);
    NoTagWithout(a, AnswerClose, 0);
    NoTagWithout(b, AnswerClose, 0);
    DistinctLetters(a, b);
    FormattedButWrong(t, a, b, true, 0.1);
  }
}
