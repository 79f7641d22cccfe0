# Wordle candidate filter and Spelling Bee finder, modelled in Dafny

This project models two solver utilities for New York Times word games.

**Wordle solver.** A `Wordle` object holds the set of candidate words. Each
turn the user enters a guess and a verdict string of `g` (green), `y`
(yellow) and `.` (grey). `filter` turns the pair into three constraints:
- a set of *missing* letters;
- a counter of *member* letters, giving minimum counts;
- a position map of locked (`"c"`) and banned (`"-c"`) letters.

It then removes every candidate that breaks a constraint. `reset` loads the
candidates from the word list. It keeps only words of the session length
made of `a`–`z`. `prompt` accepts a guess and a verdict only when they pass
its length and character checks.

**Spelling Bee finder.** `get_words` returns the dictionary words that meet
three conditions:
- they are at least `min_length` long;
- they contain the key letter `chars[0]`;
- they use only letters of `chars`.

Files:
- `lowercase.dfy`: the `a`–`z` test shared by loader and prompt.
- `wordle_constraints.dfy`: the three constraint structures as left-to-right
  folds over the guess (`Missing`, `Members` as a multiset for Python's
  `Counter`, `PosInfo` with the string values the source stores), the
  rejection rule `Rejected`, `Prune`, and their properties.
- `wordle.dfy`: class `Wordle` with the mutable `words` field
  (Python's `_words`). Its `Reset` and `Filter` methods are loops. The
  filter's two phases are the methods `EncodeGuess` and `IsIllegal`, each
  proved equal to its specification function.
- `wordle_prompt.dfy`: the guess and verdict acceptance checks of `prompt`.
- `wordle_feedback.dfy`: honest Wordle scoring, the defect in the
  missing-letter rule, and the corrected rule proved sound.
- `spelling_bee.dfy`: `get_words` as a loop, proved equal to the in-order
  filter `Kept`.

The word-list files are inputs: each is given as the sequence of its
lines, already stripped.

Two behaviours of the code that the model keeps:
- The comment at wordle.py:126 says a `.` letter is skipped when it is
  "seen elsewhere", but the test at wordle.py:125 looks only at earlier
  `pos_info` entries. `Missing` models the code; the difference is under
  Findings.
- A verdict symbol other than `.` and `y` takes the `else` branch
  (wordle.py:132-134) and acts as `g`. The model keeps this (`IsGreen`).

## Model

| member | source | states |
|---|---|---|
| `WordleSolver.EncodeGuess` | wordle.py:120-134 | The loop over `zip(word, validation)` yields exactly `Encode`: `missing` by the left-to-right rule, the counter of `g`/`y` letters, and `pos_info` with `"-c"` for `y` and `"c"` otherwise |
| `WordleSolver.IsIllegal` | wordle.py:137-159 | The test on one candidate returns true exactly when `Rejected` holds: a missing letter, a broken position entry, or too few copies of a member letter |
| `WordleSolver.Wordle.Filter` | wordle.py:119-160 | The new store is exactly the old store minus the rejected words, so it is a subset of the old store; every stored word still has the session length and lowercase letters |
| `WordleSolver.Wordle.Reset` | wordle.py:51-61 | The store becomes exactly the set of given lines that have length `word_len` and only `a`–`z`; every other line is skipped |
| `WordleSolver.Wordle.constructor` | wordle.py:42-45 | Records `word_len` and loads the store as `reset` does |
| `WordleConstraints.PosInfo` | wordle.py:129-134 | After n positions, the map's keys are exactly the indices below n with a non-`.` verdict; each value is `"-c"` for a `y` and `"c"` otherwise, where c is the guess letter there |
| `WordleConstraints.SeenInPosInfo` | wordle.py:125 | For a letter other than `-`, the substring test over `pos_info.values()` holds exactly when the letter was marked `g` or `y` at an earlier index |
| `WordleConstraints.MissingExactly` | wordle.py:124-128 | A letter is in `missing` exactly when some `.` position holds it and no smaller index marks it `g` or `y` |
| `WordleConstraints.AbsentAfterMarkIsInert` | wordle.py:124-127 | A `.` letter after a `g`/`y` of the same letter changes nothing: `missing`, the counter and `pos_info` are unchanged, and no ban is recorded at its index |
| `WordleConstraints.MembersCount` | wordle.py:121-134 | For every letter, the counter equals the number of positions where the guess marks that letter `g` or `y` |
| `WordleConstraints.EncodeWellShaped` | wordle.py:141-144 | For a lowercase guess, every `pos_info` key is inside a word of the guess's length, and every value has one of the two shapes; so `option[idx]` and `info[1]` are defined |
| `WordleConstraints.SurvivorExactly` | wordle.py:135-159 | A candidate of the guess's length survives exactly when all four hold: it has no missing letter; it differs from the guess at every `y` position; it equals the guess at every `g` position; and the counter is included in its letter multiset |
| `WordleConstraints.SurvivorHasMarkedCopies` | wordle.py:154-159 | A survivor holds each letter at least as often as the guess marked that letter `g` or `y` |
| `WordleConstraints.PruneShrinks` | wordle.py:160 | Pruning returns a subset of the words it is given, so the count never grows |
| `WordleConstraints.PruneIdempotent` | wordle.py:135-160 | Pruning a second time with the same constraints returns the same set |
| `WordlePrompt.ClassifyGuess` | wordle.py:88-101 | A guess is accepted exactly when it has length `word_len` and only `a`–`z`; a length error implies a wrong length; a letter error implies the right length and a non-lowercase character |
| `WordlePrompt.ClassifyVerdict` | wordle.py:103-116 | Given a lowercase guess, a verdict is accepted exactly when it has length `word_len` and only `g`, `y`, `.`; the branch that tests the guess against "??" never fires |
| `WordleConstraints.ZipLen` | wordle.py:123 | `zip(word, validation_string)` walks as many positions as the shorter string has: no more than either length, and equal to one of the two |
| `WordlePrompt.NonVerdictSymbols` | wordle.py:112 | `set(validation) - set("gy.")` is empty exactly when every character of the verdict is `g`, `y` or `.` |
| `SpellingBee.NoForeignLetters` | spelling_bee.py:19-20 | `len(wordset - charset) == 0` holds exactly when every letter of the word occurs in `chars` |
| `Lowercase.NonLowercase` | wordle.py:56-59 | `set(word) - set(ascii_lowercase)` is empty exactly when every character is in `a`–`z` |
| `WordleFeedback.MembersWithinTarget` | wordle.py:129-134 | Under honest feedback, the counter never asks for more copies of a letter than the target holds |
| `WordleFeedback.WrittenFilterDropsTarget` | wordle.py:124-128 | As written: guess "geese" scores "...gg" against "those"; then 'e' is both missing and a member, and "those" is rejected |
| `WordleFeedback.CorrectedMissingWithinWritten` | wordle.py:124-128 | The corrected missing set is a subset of the written one |
| `WordleFeedback.CorrectedMissingNotInTarget` | wordle.py:124-128 | Under honest feedback, no letter of the corrected missing set occurs in the target |
| `WordleFeedback.TargetKeepsPositions` | wordle.py:141-152 | Under honest feedback, the target breaks no position entry: it differs from the guess at each `y` and equals it at each `g` |
| `WordleFeedback.CorrectedFilterKeepsTarget` | wordle.py:119-159 | Under the corrected rule, the target is never rejected for any lowercase guess scored honestly against it |
| `SpellingBee.Kept` | spelling_bee.py:15-21 | Every kept word meets the three conditions, and the result is no longer than the lines |
| `SpellingBee.KeptCounts` | spelling_bee.py:15-21 | A word that meets the conditions occurs in the result exactly as often as in the lines, duplicates included; any other word does not occur |
| `SpellingBee.KeptAppend` | spelling_bee.py:15-21 | Keeping distributes over concatenation of line sequences, so the result keeps the dictionary's order |
| `SpellingBee.GetWords` | spelling_bee.py:11-22 | The loop returns exactly `Kept(lines)`: each word is at least `min_length` long, contains `chars[0]` and uses only letters of `chars` |

## Findings

| source | as written | input that shows it | evidently intended | confidence | as-written member | corrected member |
|---|---|---|---|---|---|---|
| wordle.py:125 | A `.` letter is added to `missing` unless a `pos_info` entry from an EARLIER position holds it | guess "geese", verdict "...gg" (the honest score against "those"): 'e' becomes missing, so the target "those" is removed | The comment says "seen elsewhere": a `.` letter is missing only when the guess marks it `g` or `y` at no position | high; not executed | `WordleFeedback.WrittenFilterDropsTarget` | `WordleFeedback.CorrectedFilterKeepsTarget` |

Class `Wordle` keeps the rule as written, because it models the code. The
corrected encoder is `WordleFeedback.CorrectedEncode`. It differs only in
`CorrectedMissing` and is the one proved sound against honest scoring.

## Left out

- File reading (`open`, `readlines`, `strip`, wordle.py:53-55, spelling_bee.py:14-16): the lines are given as a sequence, already stripped.
- The interactive loop, `input`/`print`, `dump_options`, `dump_help` and the `EOFError`/`KeyboardInterrupt` handling for reset and quit (wordle.py:12-40, 63-117): I/O and exception plumbing. The prompt's messages are only the reply constructors of `WordlePrompt`.
- The command-line entry points (wordle.py:163-185, spelling_bee.py:25-50): argument parsing only.
- `max_guesses` (wordle.py:44): it is stored but never read.
- Iteration order over Python sets and dicts: the model picks candidates, entries and counter letters in an arbitrary order. The result does not depend on that order.
- WordleSolver.Wordle.Filter: requires both strings to have length `word_len` and the guess to be lowercase, as `prompt` guarantees. A guess holding `-` marked `g` would make the source raise `IndexError` at `info[1]`; this is not modelled. `Encode` itself follows `zip`, so it accepts strings of unequal length.
- SpellingBee.GetWords: requires a non-empty `chars`. With an empty one the source raises `IndexError` at `chars[0]` on the first line that passes the length check; this error is not modelled.
