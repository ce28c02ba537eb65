# Log scrubber: the line-scrubbing engine in Dafny

This project models the core of a small log-redaction tool. `LogScrubber`
takes an ordered list of regular expressions and one optional `replace_with`
string. It rewrites every line of a log file. Each pattern is substituted in
turn into the text the previous pattern produced. If any pattern raises
`re.error`, the line comes back exactly as it was read. The replacement is
chosen from `replace_with`:
- no value deletes the match;
- five reserved keywords ask the Faker generator for a synthetic name, email,
  address, phone number or card number;
- any other string, the empty string included, is the replacement text.

Modules:

- `Text` (text.dfy) is a concrete stand-in for `re.sub`. A rule is a literal
  needle. Every leftmost, non-overlapping occurrence is replaced by one text,
  scanning left to right. The empty needle behaves like the empty regular
  expression: the replacement goes before every character and at the end.
  `Split`/`Join` give a second description of the same rewrite, Python's
  `rep.join(s.split(needle))`. `Split` is pinned down by two lemmas: joining
  its pieces with the needle gives the text back, and no occurrence of the
  needle is left in a piece or starts inside one. So every leftmost,
  non-overlapping occurrence is replaced, not just the first.
- `Policy` (policy.dfy) holds the `Delete | Literal | Fake(Category)` policy
  and the exact string dispatch on `replace_with`.
- `Scrubber` (scrubber.dfy) holds `_scrub_line`. `FoldRules` is the fold
  over the rules. `ScrubLine` applies the revert-to-original fail-safe.
  `ScrubLineLoop` is the loop with its early return. A rule is `Bad` (raises
  `re.error`) or `Good(needle)`.
- `Driver` (driver.dfy) holds the line loop of `scrub_log` and its guards.

The Faker generator is an explicit parameter `gen: (Category, nat) -> string`.
`gen(c, k)` is the value Faker returns for category `c` on its `k`-th call.
One generator serves the whole run, so the draw counter is carried from rule
to rule and from line to line. The code asks Faker once per rule, before
calling `re.sub`. So one value replaces every match of that rule. A value is
also spent when nothing matches and when the rule then raises.

The model follows the code in four places where a tidier design would differ:
- synthetic values are drawn once per rule, not once per match;
- a broken rule reverts the whole line, instead of being skipped;
- the driver writes nothing at all when the pattern list is empty, instead of
  copying the lines unchanged;
- a generated address is inserted verbatim, even if it contains a newline.

## Model

| member | source | states |
|---|---|---|
| Text.ReplaceLength | main.py:100 | each replaced occurrence changes the length by the replacement's length minus the needle's length |
| Text.ReplaceAll | main.py:100 | a text without an occurrence of the needle comes back unchanged, whatever the replacement |
| Text.CountPositiveIffOccurs | main.py:112 | the substitution rewrites at least one span exactly when the needle occurs in the text; the empty needle occurs everywhere |
| Text.DeleteNeverGrows | main.py:100 | substituting the empty text never lengthens a text, and strictly shortens it when a non-empty needle occurs |
| Text.JoinSplit | main.py:112 | cutting a text at a needle and gluing it back with that needle gives the text back |
| Text.SplitPiecesClean | main.py:112 | no piece of the split holds the needle, and no occurrence starts inside a piece the needle follows, so every leftmost occurrence was cut out |
| Text.ReplaceIsJoinSplit | main.py:112 | substitution equals the split-then-join description: the replacement lands in every gap between needle-free pieces |
| Text.SplitCount | main.py:112 | the text splits into one piece more than the number of replaced occurrences |
| Policy.Dispatch | main.py:99-112 | no value selects deletion; exactly the five keywords select their category; every other string, the empty one included, is literal text that is not a keyword |
| Policy.SpellingOfDispatch | main.py:99-112 | every `replace_with` value is the spelling of the policy it selects |
| Policy.DispatchOfSpelling | main.py:101-112 | a policy is recovered from its spelling exactly when it is not a literal spelled like a keyword, so such a literal cannot be requested |
| Scrubber.ReplacementOfSetting | main.py:99-112 | the text handed to the substitution, read from `replace_with`: no value gives the empty text and no draw; a string outside the five keywords is itself the text, with no draw; `Keyword(c)` gives the generator's next value of category `c` and spends exactly one draw |
| Scrubber.FoldRules | main.py:96-112 | the fold completes exactly when no rule raises; under deletion its text is never longer than its input; only a fake policy advances the generator |
| Scrubber.ScrubLine | main.py:86-117 | no rules gives the line back with no draws; any rule that raises gives back the original line; deletion never lengthens the line; only a fake policy draws |
| Scrubber.FoldAppend | main.py:97-112 | folding over `a + b` is folding over `a` and then over `b` from the text and generator position reached, and a failure in `a` stops the fold |
| Scrubber.ScrubFirstRule | main.py:97-112 | with no rule raising, scrubbing with a valid first rule is scrubbing that rule's output with the remaining rules |
| Scrubber.ScrubChain | main.py:96-117 | with no rule raising, scrubbing with `a + b` is scrubbing with `a`, then scrubbing the result with `b` |
| Scrubber.DrawsPerRule | main.py:99-116 | a fake policy draws one value per rule, up to and including the first rule that raises; other policies draw none |
| Scrubber.FoldWithoutMatch | main.py:97-112 | when no valid rule's needle occurs in the text, every rule leaves it as it is |
| Scrubber.ScrubWithoutMatch | main.py:96-117 | a line that no valid rule matches comes back unchanged under deletion, literal and fake policies alike |
| Scrubber.DeleteShrinksOnMatch | main.py:100 | under deletion with non-empty needles and no failing rule, a line that some needle matches comes back strictly shorter |
| Scrubber.DeleteUnchangedIff | main.py:99-117 | under deletion with non-empty needles, the line comes back unchanged exactly when a rule raises or no rule matches it |
| Scrubber.EmptyLiteralDeletes | main.py:99-112 | the empty `replace_with` string, a literal, rewrites exactly as deletion does |
| Scrubber.FakeRuleSharesOneValue | main.py:101-110 | under a fake policy, one valid rule puts the same single generated value into every gap between the pieces of the line and advances the generator by one |
| Scrubber.ScrubLineLoop | main.py:96-117 | the loop that picks the replacement and then substitutes or returns the original line at the first error computes the same line and draws as the fold |
| Driver.ScrubLines | main.py:71-73 | one output line per input line; without a fake policy line i is the scrub of input line i alone; if a rule raises, the output equals the input |
| Driver.ScrubLog | main.py:70-73 | output line i is input line i scrubbed from the generator position that line starts at, each line starting where the previous one's draws ended |
| Driver.ThreadedOutput | main.py:71-73 | lines scrubbed one at a time from threaded generator positions make up the run's output |
| Driver.ScrubFile | main.py:53-73 | nothing is written when the input is missing, the output is not named or the pattern list is empty; otherwise as many lines are written as were read; if a rule raises they are the lines read; without a fake policy line i is input line i scrubbed under the policy `replace_with` selects |

## Left out

- Regular-expression semantics. A rule is either a literal needle or `Bad`. `Bad` covers both an invalid pattern and an invalid replacement template. Python's `re` engine is a foreign library.
- Replacement-template escapes. `re.sub` expands `\n`, `\1` and similar in the replacement. The model inserts literal and generated text verbatim.
- Faker's output formats. Generated values are opaque strings supplied by `gen`.
- Reading and writing files, `chardet` encoding detection (main.py:37-47) and `errors='ignore'` decoding are I/O. The file is given as its sequence of lines, and the output is the sequence of lines written.
- `os.path.exists` and empty paths are folded into `source: Option<...>`, where `None` means nothing could be read. An unnamed output path is a boolean.
- The in-place `os.replace` (main.py:75-80) is a filesystem operation.
- Logging calls are side effects only.
- Exceptions other than `re.error`, and the run-level catch-all (main.py:81-84), are host error plumbing.
- The command line and `main` (main.py:120-151) are left out, including the check on loaded modules at main.py:145. They probe the environment and hold no scrubbing logic. The check at main.py:145 is true whenever any loaded module's name lacks "faker" (`sys`, for one), so the command line refuses all five `fake_*` values and the fake policies are reachable only by constructing `LogScrubber` directly.
