# RoboVQA reward scorer — a Dafny model

This project models the reward function that verl uses for video question answering
(`verl/utils/reward_score/robovqa.py`). A model response is scored by two checks.

- **Correctness** (`single_choice_reward_fn`). The answer is read from each side: the text
  between the first `<answer>` and the next `</answer>` (the lazy pattern
  `<answer>(.*?)</answer>` under `re.DOTALL`), or the whole text when no such pair exists.
  Both answers are stripped of whitespace and lower-cased. The reward is 1.0 when they are
  equal and 0.0 otherwise.
- **Format** (`format_reward_fn`). The whole response must match
  `^<think>T</think>\n\n<answer>A</answer>$`. The reasoning `T` must not contain `<think>` or
  `</think>`; the lookahead `(?!/?think>)` enforces this. `A` may be anything, and `$` also
  accepts one final newline. The reward is 1.0 on a match and 0.0 otherwise.
- **Combination** (`compute_score`): `format * formatScore + correct * (1 - formatScore)`,
  with the defaults `use_boxed = True` and `format_score = 0.1`.

The project has four files.

- `wrappers.dfy`: `Option`.
- `pystr.dfy` (module `PyStr`) holds the string operations the scorer relies on:
  - `FindFrom`, a first-occurrence search. The scorer itself only calls `re.search`; `FindFrom`
    is the primitive on which the model's scans of both patterns are built;
  - `strip()` with the full `str.isspace` character set (`Strip`, specified by the
    declarative `IsStripOf`);
  - `lower()` on ASCII letters (`Lower`).
- `robovqa.dfy` (module `RoboVqa`) models the scorer. Each regular expression is given twice:
  - as a declarative predicate saying what the pattern matches: `FirstAnswerMatch` for
    `re.search` (leftmost start, shortest body), and `WellFormatted` for the anchored pattern;
  - as an executable scan: `AnswerSpan`/`Extract` and `FormatMatches`/`FormatReward`.

  Lemmas prove the two agree. `ThinkGroup` transcribes the pattern's first group with its
  lookahead, and `ThinkGroupIffNoThinkTag` proves it means "no think tag in the reasoning".
  `PatternMatches` writes the whole anchored pattern with that group, and
  `PatternMatchesIffWellFormatted` closes the chain from the pattern to `FormatReward`.
- `robovqa_examples.dfy` (module `RoboVqaExamples`) derives concrete scores from the general
  lemmas.

Two properties hold only in a restricted form, and the model proves exactly that form.

- **Case-insensitivity covers the answers, not the tags.** The tags are matched with case.
  Re-casing a response is guaranteed to leave the reward unchanged when the tags stay in
  place (`SingleChoiceRewardIgnoresCase`). When re-casing moves or removes a tag, the
  reward can change:
  `"<ANSWER>A</ANSWER>"` against `"<answer>a</answer>"` scores 0.0 (`UpperCaseTagsAreText`),
  while `"<answer>A</answer>"`, which differs from it only in the case of its tags, scores 1.0
  (`TaggedAnswersIgnoreCase`).
- **Leading text is not always fatal.** The anchored pattern rejects every text that does
  not begin with `<think>`, so a prefix whose first character is not `<` always makes the
  format fail (`FormatRejectsLeadingText`). A prefix beginning `<think>` may or may not: the
  prefix `<think></think>\n\n<answer>` in front of any layout gives a well-formatted text
  (`LayoutBehindOpening`), while `<think>garbage` in front of one does not.

## Model

| member | source | states |
|---|---|---|
| PyStr.FindFrom | verl/utils/reward_score/robovqa.py:25-29 | the result is the first index at or after `i` where the tag occurs, and `None` exactly when it occurs nowhere from `i` on |
| PyStr.FindFromAgree | verl/utils/reward_score/robovqa.py:25-29 | the search depends only on where the tag occurs: texts with the same occurrences give the same result |
| PyStr.FindAfterGap | verl/utils/reward_score/robovqa.py:25-29 | a tag that occurs at `e`, with no occurrence in `s[i..e]`, is the one the search from `i` returns |
| PyStr.Strip | verl/utils/reward_score/robovqa.py:26-31 | `strip()` gives a contiguous piece of the text with only whitespace around it and no whitespace at either end |
| PyStr.StripUnique | verl/utils/reward_score/robovqa.py:26-31 | that description of `strip()` admits exactly one result |
| PyStr.IsSpaceAscii | verl/utils/reward_score/robovqa.py:26-31 | on ASCII, the whitespace that `strip()` removes is exactly TAB, LF, VT, FF, CR, the four separators FS..US, and SPACE |
| PyStr.LowerChar | verl/utils/reward_score/robovqa.py:35 | each capital A-Z folds to its own small letter of the alphabet, every other character is kept, and the result is never a capital |
| PyStr.Lower | verl/utils/reward_score/robovqa.py:35 | `lower()` keeps the length and folds every character independently |
| PyStr.LowerIdempotent | verl/utils/reward_score/robovqa.py:35 | lower-casing twice is lower-casing once |
| PyStr.LowerStrip | verl/utils/reward_score/robovqa.py:26-35 | stripping and lower-casing commute |
| PyStr.StripIgnoresCase | verl/utils/reward_score/robovqa.py:26-35 | texts equal up to case strip to texts equal up to case |
| RoboVqa.FirstAnswerMatchUnique | verl/utils/reward_score/robovqa.py:25 | the match `re.search` reports (leftmost start, then the shortest body) is unique |
| RoboVqa.AnswerSpan | verl/utils/reward_score/robovqa.py:25-29 | the scan finds exactly the match the lazy pattern reports, and finds nothing exactly when the pattern has no match |
| RoboVqa.Extract | verl/utils/reward_score/robovqa.py:25-32 | the answer read is the stripped body (group 1) of the reported match, or the whole text stripped when there is no match |
| RoboVqa.ExtractsToUnique | verl/utils/reward_score/robovqa.py:25-32 | only one answer can be read from a text |
| RoboVqa.AnswerSpanAt | verl/utils/reward_score/robovqa.py:25-29 | the match is at the first `<answer>` and the first `</answer>` after it |
| RoboVqa.ExtractTagged | verl/utils/reward_score/robovqa.py:25-32 | in `pre <answer>a</answer> post`, with no `<answer>` in `pre` and no `</answer>` in `a`, the answer read is `a` stripped, whatever `post` holds |
| RoboVqa.ExtractWithoutMatch | verl/utils/reward_score/robovqa.py:26-32 | without a tagged pair the whole text, stripped, is the answer |
| RoboVqa.ExtractOnlyTagged | verl/utils/reward_score/robovqa.py:25-32 | `<answer>a</answer>` reads as `a` stripped |
| RoboVqa.SingleChoiceReward | verl/utils/reward_score/robovqa.py:20-40 | the reward is always 0.0 or 1.0 |
| RoboVqa.SingleChoiceRewardSpec | verl/utils/reward_score/robovqa.py:20-40 | the reward is 1.0 exactly when the answers read from both sides are equal up to case, and 0.0 exactly when they differ |
| RoboVqa.SingleChoiceRewardSymmetric | verl/utils/reward_score/robovqa.py:25-35 | swapping prediction and reference leaves the reward unchanged |
| RoboVqa.AnswerSpanFollowsTags | verl/utils/reward_score/robovqa.py:25-29 | the reported match depends only on where the tags are |
| RoboVqa.ExtractAtSpan | verl/utils/reward_score/robovqa.py:26-32 | when the match is at `i` and `j`, the answer read is the stripped text between the tags |
| RoboVqa.ExtractIgnoresCase | verl/utils/reward_score/robovqa.py:25-35 | texts equal up to case, with tags at the same places, read answers equal up to case |
| RoboVqa.SingleChoiceRewardIgnoresCase | verl/utils/reward_score/robovqa.py:25-35 | re-casing either side, without moving its tags, leaves the reward unchanged |
| RoboVqa.BareMatchesTagged | verl/utils/reward_score/robovqa.py:25-35 | an untagged answer scores 1.0 against a tagged answer equal to it up to case and surrounding whitespace |
| RoboVqa.TagsOpenOnce | verl/utils/reward_score/robovqa.py:25-44 | every tag starts with its only `<`, and the separator is `</think>`, a blank line and `<answer>` |
| RoboVqa.ThinkGroupIffNoThinkTag | verl/utils/reward_score/robovqa.py:44 | the pattern's first group with its lookahead accepts a reasoning text exactly when it holds no `<think>` or `</think>` |
| RoboVqa.PatternMatchesIffWellFormatted | verl/utils/reward_score/robovqa.py:44 | the pattern as written, group 1 and its lookahead included, accepts exactly the well-formatted texts |
| RoboVqa.FormatMatches | verl/utils/reward_score/robovqa.py:44-47 | a text the scan accepts opens with `<think>` and is at least as long as the empty layout; its exact characterisation is `FormatRewardSpec` |
| RoboVqa.FormatReward | verl/utils/reward_score/robovqa.py:42-53 | the format reward is always 0.0 or 1.0 |
| RoboVqa.LayoutMatches | verl/utils/reward_score/robovqa.py:44-50 | every think/answer layout whose reasoning has no think tag passes the scan |
| RoboVqa.MatchesLayout | verl/utils/reward_score/robovqa.py:44-50 | every text that passes the scan is such a layout: the scan yields its reasoning, answer and optional final newline |
| RoboVqa.FormatRewardSpec | verl/utils/reward_score/robovqa.py:44-50 | the format reward is 1.0 exactly for well-formatted texts and 0.0 exactly for all others |
| RoboVqa.FormatRejectsMissingThinkOpen | verl/utils/reward_score/robovqa.py:44-48 | a text that does not begin with `<think>` scores 0.0 |
| RoboVqa.FormatRejectsLeadingText | verl/utils/reward_score/robovqa.py:44-48 | any prefix not starting with `<` before the rest makes the format fail |
| RoboVqa.LayoutBehindOpening | verl/utils/reward_score/robovqa.py:44-50 | the prefix `<think></think>\n\n<answer>` in front of any layout gives a well-formatted text scoring 1.0 |
| RoboVqa.FormatRejectsUntagged | verl/utils/reward_score/robovqa.py:44-48 | a text with no `<think>` anywhere scores 0.0 |
| RoboVqa.FormatRejectsSingleNewline | verl/utils/reward_score/robovqa.py:44-48 | one newline instead of a blank line between `</think>` and `<answer>` makes the format fail, whatever follows |
| RoboVqa.FormatRejectsSecondTrailingNewline | verl/utils/reward_score/robovqa.py:44-48 | `$` accepts one final newline but not two |
| RoboVqa.ExtractFromLayout | verl/utils/reward_score/robovqa.py:25-44 | in a well-formatted response whose reasoning never writes `<answer>`, the answer read is the answer block, stripped |
| RoboVqa.ExtractFindsTagInReasoning | verl/utils/reward_score/robovqa.py:25-29 | an answer tagged inside the reasoning comes first and is the one read |
| RoboVqa.Combine | verl/utils/reward_score/robovqa.py:83 | for 0/1 rewards the score is the sum of the weights earned, and it lies in [0, 1] when the weight does |
| RoboVqa.ComputeScore | verl/utils/reward_score/robovqa.py:59-85 | the score lies in [0, 1] whenever the format weight does; `useBoxed` defaults to true and `formatScore` to 0.1 |
| RoboVqa.ComputeScoreDefaults | verl/utils/reward_score/robovqa.py:59 | called with the defaults, the score is 0.1 of the format reward plus 0.9 of the correctness reward |
| RoboVqa.ComputeScoreSpec | verl/utils/reward_score/robovqa.py:76-83 | the score is `formatScore` for a well-formatted response plus `1 - formatScore` when the answers read agree up to case |
| RoboVqa.ComputeScoreIgnoresUseBoxed | verl/utils/reward_score/robovqa.py:59-66 | `use_boxed` has no effect on the score |
| RoboVqa.ComputeScoreExtremes | verl/utils/reward_score/robovqa.py:83 | with weight 0 the score is the correctness reward; with weight 1 it is the format reward |
| RoboVqa.ComputeScoreWellFormatted | verl/utils/reward_score/robovqa.py:83 | a well-formatted response scores 1 when correct and exactly the weight when wrong |
| RoboVqaExamples.TaggedAnswersIgnoreCase | verl/utils/reward_score/robovqa.py:25-35 | `<answer>A</answer>` against `<answer>a</answer>` scores 1.0 |
| RoboVqaExamples.BareWordMatchesTagged | verl/utils/reward_score/robovqa.py:25-35 | any answer without `<`, such as `Paris`, scores 1.0 against itself in answer tags |
| RoboVqaExamples.PaddedBareMatchesTagged | verl/utils/reward_score/robovqa.py:25-35 | `" A "` against `<answer>a</answer>` scores 1.0 |
| RoboVqaExamples.UpperCaseTagsAreText | verl/utils/reward_score/robovqa.py:25-35 | `<ANSWER>A</ANSWER>` against `<answer>a</answer>` scores 0.0, because tags are matched with case |
| RoboVqaExamples.FormatAccepted | verl/utils/reward_score/robovqa.py:44-50 | `<think>x</think>\n\n<answer>A</answer>` scores 1.0 for format |
| RoboVqaExamples.FormatMissingBlankLine | verl/utils/reward_score/robovqa.py:44-48 | `<think>x</think>\n<answer>A</answer>` scores 0.0 for format |
| RoboVqaExamples.FormatBareAnswer | verl/utils/reward_score/robovqa.py:44-48 | the bare answer `A` scores 0.0 for format |
| RoboVqaExamples.ScoreCorrectAndFormatted | verl/utils/reward_score/robovqa.py:76-83 | a well-formatted, correct response scores 1.0 at weight 0.1 |
| RoboVqaExamples.ScoreWrongButFormatted | verl/utils/reward_score/robovqa.py:76-83 | a well-formatted, wrong response scores 0.1 at weight 0.1 |

## Left out

- The `try`/`except` blocks (robovqa.py lines 23/37 and 43/51) are not modelled. For string inputs no exception can be raised, so both handlers are unreachable.
- The `print` diagnostic in the format handler (line 52) is I/O and is not modelled.
- Inputs that are not strings are left out; the model's inputs are strings.
- IEEE-754 rounding in line 83 is left out: rewards and weights are `real`.
- The regular-expression engine is not modelled. Each pattern is given by a declarative predicate and a scan, and lemmas prove the two agree.
- The `len(match.groups()) != 2` test (line 47) is always false, since the pattern has two groups, so it is not modelled.
- `use_boxed` is kept as a parameter and is inert, as in the source.
- PyStr.Lower: folds only ASCII letters A-Z; Python's `str.lower()` also folds non-ASCII letters, which the model does not.
- RoboVqa.SingleChoiceRewardIgnoresCase: requires the re-cased text to keep its tags at the same positions, because the tags are matched with case and the unrestricted statement is false (see `RoboVqaExamples.UpperCaseTagsAreText`).
- RoboVqa.FormatRejectsLeadingText: covers prefixes whose first character is not `<`; a prefix beginning `<think>` can itself start a valid layout (`RoboVqa.LayoutBehindOpening`), so no statement covers every prefix.
- `examples/data_preprocess/cosmos_rl_robovqa.py` and `expand_parquet_data.py` (dataset loading, parquet I/O, HDFS copy) are not part of this model.
