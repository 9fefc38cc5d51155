# Flag-Guesser quiz: a verified model of its state machine

Flag-Guesser is a browser quiz. The player ticks some flags from a fixed catalog of
`{code, country}` pairs and presses "Start Game". The quiz then shows the ticked flags one at
a time. For each flag the player types a country name and submits it. A correct answer raises
the score. A wrong one adds a miss record `{code, correct, guess}`. After a short delay the
next flag appears. When the index passes the last flag, a game-over screen shows the score and
the misses. "Play Again" returns to the selection screen.

All of this lives in the `FlagGame` React component. The model has five modules:

- `Text` (`text.dfy`): the guess normalisation, an ASCII model of `trim` and `toLowerCase`.
- `Selection` (`selection.dfy`): the list expression that `toggleFlag` gives to its setter.
- `Catalog` (`catalog.dfy`): the `allFlags` catalog and the derived `selectedFlagObjects`
  filter.
- `Scoring` (`scoring.dfy`): how one guess is judged. It also defines what a sequence of
  guesses over a round adds up to: the score `CorrectCount` and the miss list `Misses`.
- `Game` (`game.dfy`): the component as a class `FlagGame`. Its fields are the seven
  `useState` values. It has one method per handler: `ToggleFlag`, `StartGame`, `SetGuess`,
  `Submit`, `Advance` (the `setTimeout` callback) and `PlayAgain`.

Two ghost fields record what the source leaves implicit:

- `guesses` holds the guesses submitted since the game started.
- `advancePending` says that the timer set by a submit has not fired yet.

The invariant `Valid()` ties the real fields to these ghost fields. In the play stage, the
score is `CorrectCount(Round(), guesses)` and the miss list is `Misses(Round(), guesses)`. The
number of guesses is `currentIndex`, plus one while a timer is pending. In the select stage,
the miss list is empty. The selection never holds a duplicate, and it holds only catalog codes.

A handler's precondition on the stage comes from the screen that wires it up:

- the flag tiles and "Start Game" exist only in the select stage (lines 80-99);
- "Submit" and Enter exist only while a flag is shown (lines 141-163);
- "Play Again" exists only on the game-over screen (lines 106-136).

Where the code and the written design of the system disagree, the model follows the code:

- There is no shuffle. The round is the catalog filtered to the selection, in catalog order.
  `Catalog.CatalogOrderRound` shows this for a concrete selection.
- `startGame` does not clear the miss list. The list is empty at that point only because
  "Play Again" cleared it.
- "Play Again" clears the selection. It does not reset `score` or `currentIndex`;
  `startGame` resets them later.
- Nothing is persisted, and there is no "Clear Progress" / select-all operation.

## Model

| member | source | states |
|---|---|---|
| `Text.TrimStartSpec` | src/FlagGame.tsx:47 | the leading-whitespace half of `trim` drops a whitespace prefix and nothing more; what remains does not start with whitespace |
| `Text.TrimEndSpec` | src/FlagGame.tsx:47 | the trailing-whitespace half of `trim` drops a whitespace suffix and nothing more; what remains does not end with whitespace |
| `Text.TrimSpec` | src/FlagGame.tsx:47 | `trim` leaves no whitespace at either end, never lengthens, gives `""` exactly for all-whitespace input, and keeps a string without whitespace at its ends |
| `Text.TrimPadding` | src/FlagGame.tsx:47 | trimming `p + v + q` with whitespace-only `p`, `q` gives back `v` when `v` has no whitespace at its ends |
| `Text.ToLowerSpec` | src/FlagGame.tsx:47-48 | `toLowerCase` keeps the length, folds A-Z to a-z and keeps every other character, so no upper-case letter remains and whitespace stays where it was |
| `Text.ToLowerIdempotent` | src/FlagGame.tsx:47-48 | lower-casing twice equals lower-casing once |
| `Selection.Without` | src/FlagGame.tsx:41 | `prev.filter(c => c !== code)` keeps exactly the other codes, is no longer than `prev`, and is `prev` itself when `code` is absent |
| `Selection.WithoutKeepsDistinct` | src/FlagGame.tsx:41 | removing a code from a duplicate-free list leaves it duplicate-free |
| `Selection.Toggle` | src/FlagGame.tsx:39-43 | afterwards `code` is selected exactly when it was not before, and every other code keeps its membership |
| `Selection.ToggleKeepsDistinct` | src/FlagGame.tsx:39-43 | toggling never puts a duplicate into the selection |
| `Selection.ToggleTwice` | src/FlagGame.tsx:39-43 | toggling a code twice restores the selection as a set, and restores the same list when the code was absent at first |
| `Catalog.AllFlagsCodesDistinct` | src/FlagGame.tsx:4-10 | the catalog codes fr, de, bt, sz are pairwise distinct |
| `Catalog.SelectedFlagObjectsSpec` | src/FlagGame.tsx:23-25 | the round holds exactly the catalog entries whose code is selected, as a subsequence of the catalog (catalog order), and is no longer than the catalog |
| `Catalog.RoundLength` | src/FlagGame.tsx:23-25 | when the catalog codes are distinct, the round's length is the number of distinct selected codes found in the catalog |
| `Catalog.RoundMatchesSelection` | src/FlagGame.tsx:23-25 | a duplicate-free selection of catalog codes gives a round with exactly one entry per selected code |
| `Catalog.CatalogOrderRound` | src/FlagGame.tsx:4-10 | ticking Germany and then France gives the round France, Germany: catalog order, not click order |
| `Scoring.Tally` | src/FlagGame.tsx:50-60 | every submitted guess counts either in the score or as exactly one miss: score + number of misses = number of guesses, and score <= number of guesses |
| `Scoring.NoMissesIffAllCorrect` | src/FlagGame.tsx:50-60 | the miss list is empty if and only if every guess matched its flag |
| `Scoring.MissesAreWrongAnswers` | src/FlagGame.tsx:53-59 | every miss record is `{code, country, trimmed guess}` of some flag that was answered wrongly |
| `Scoring.PaddedCaseVariantMatches` | src/FlagGame.tsx:47-50 | a guess scores when, once its whitespace padding is dropped, it equals the answer up to letter case |
| `Scoring.UntrimmedAnswerNeverMatches` | src/FlagGame.tsx:48-50 | the answer is not trimmed, so an answer that starts with whitespace matches no guess |
| `Scoring.ExactAnswerMatches` | src/FlagGame.tsx:47-50 | "France" scores for France |
| `Scoring.PaddedLowerCaseMatches` | src/FlagGame.tsx:47-50 | " france " scores for France |
| `Scoring.UpperCaseMatches` | src/FlagGame.tsx:47-50 | "FRANCE" scores for France |
| `Scoring.WrongCountryMisses` | src/FlagGame.tsx:50-58 | "italy" does not score for Germany, and its trimmed form is "italy" |
| `Scoring.BlankGuessMisses` | src/FlagGame.tsx:53-59 | a blank guess for Bhutan misses, and its miss record is `{bt, Bhutan, ""}` |
| `Game.FlagGame.constructor` | src/FlagGame.tsx:13-21 | initial state: select stage, empty selection and misses, index 0, score 0, empty guess and feedback, the catalog is `allFlags` |
| `Game.FlagGame.ToggleFlag` | src/FlagGame.tsx:39-43 | the selection becomes `Toggle(old selection, code)`, the invariant holds, and no other field changes |
| `Game.FlagGame.StartGame` | src/FlagGame.tsx:27-37 | with an empty selection nothing changes. Otherwise: stage play; index, score, guess and feedback reset; selection and misses untouched (misses are `[]`); round length = selection length > 0 |
| `Game.FlagGame.SetGuess` | src/FlagGame.tsx:155 | the pending guess is the typed text verbatim |
| `Game.FlagGame.Submit` | src/FlagGame.tsx:45-61 | a matching guess raises the score by 1, keeps the misses and sets "Correct" feedback. Any other guess keeps the score, appends one `{code, country, trimmed guess}` record and names the country in the feedback. The invariant holds and the advance timer is pending |
| `Game.FlagGame.Advance` | src/FlagGame.tsx:62-66 | feedback and guess become `""`, the index rises by exactly 1, and the invariant holds |
| `Game.FlagGame.PlayAgain` | src/FlagGame.tsx:130-134 | stage select, selection and misses emptied, score and index untouched, invariant holds |
| `Game.RunningTally` | src/FlagGame.tsx:51-65 | during play, score + misses = currentIndex (+1 while a timer is pending), and score <= round length |
| `Game.FinalTally` | src/FlagGame.tsx:106-110 | at game over, no timer is pending, the index is exactly the round length, and score + misses = round length |
| `Game.PerfectGame` | src/FlagGame.tsx:106-128 | at game over the miss list is empty if and only if the score equals the round length, if and only if every guess matched |
| `Game.PlayTurn` | src/FlagGame.tsx:45-66 | type + submit + timer: one score or one miss, index +1, selection kept, and score + misses = currentIndex <= round length afterwards |
| `Game.StartFranceGermany` | src/FlagGame.tsx:23-37 | ticking Germany then France and starting gives a fresh game whose round is France, Germany |
| `Game.FranceGermanyGame` | src/FlagGame.tsx:45-66 | with a right guess for France and a wrong one for Germany, the round is fr, de, the final score is 1 and the misses are exactly `[{de, Germany, trimmed guess}]` |

## Left out

- Rendering is left out: JSX, inline styles, `/flags/<code>.png` image paths and `alt` text
  (src/FlagGame.tsx:69-102, 143-169). `src/App.tsx` only mounts the component and is not
  part of this model.
- The `alert` in `startGame` is a browser call. It is modelled only as "no state change".
- The 1500 ms delay and React's batching of state updates are left out. The deferred callback
  is the explicit `Advance` step.
- Game.FlagGame.Submit: it requires that no advance is pending. A second submit before the
  timer fires is a race between events, not sequential logic, so the model excludes it.
- Game.FlagGame.Submit: it requires `currentIndex < |Round()|`. The source would fail reading
  `currentFlag.country` past the end, but the submit controls render only while a flag is
  shown.
- `trim` and `toLowerCase` are ASCII models. Whitespace is space, tab, line feed, vertical
  tab, form feed and carriage return. Case folding covers A-Z only. Unicode whitespace and
  non-ASCII case mappings are left out.
- The catalog is a `const` field of the component, set to `allFlags` by the constructor.
  This keeps the concrete list out of the general proofs.
- The final `return null` (line 172) cannot be reached, because the stage is either select
  or play.
