# WordScramble engine in Dafny

This project models the word-validation and scoring engine of the
WordScramble game, which lives in `ContentView` in
`WordScramble/ContentView.swift`.

A round has a root word. The player types an answer into the text field
(`newWord`) and submits it. `addNewWord` lowercases the answer and trims
surrounding whitespace. A blank answer is ignored without any alert.
Otherwise four guards run in a fixed order:

1. `isOriginal`: the answer is not already in `usedWords`.
2. `isPossible`: it can be spelled from the root word's letters, with each
   letter used as often as the root holds it.
3. `isReal`: the spell checker knows it.
4. `isLongEnough`: it has more than three letters.

The first guard that fails raises an error alert (`wordError`), and nothing
else changes. An answer that passes all four goes to the front of
`usedWords`. `updateScore` then adds the answer's length plus
`usedWords.count` to the score, and the text field is cleared. `startGame`
clears the used words, the text field and the score, and sets a new root
word.

The Dafny model (module `WordScramble`, file `word_scramble.dfy`) has three
parts:

- Pure specification functions:
  - `Normalise` is lowercasing followed by trimming.
  - `Derivable` is multiset inclusion of letters.
  - `Classify` is the guard chain. It maps an answer and the state to
    `Ignored`, `Rejected(reason)` or `Accepted`.
  - `RoundScore` is the score of a list of accepted words.
  - `RoundInvariant` is what holds of the state throughout a round.
- A class `ContentView` with the Swift view's state as fields: `score`,
  `usedWords`, `rootWord`, `newWord`, `errorTitle` and `showingError`. Its
  methods `AddNewWord`, `StartGame`, `UpdateScore`, `IsPossible` and
  `WordError` update those fields in place. `AddNewWord` states its whole new
  state in terms of `Classify` of the old state and keeps `Valid()`.
  `IsPossible` runs the source's letter-deleting loop and is proved equal to
  `Derivable`.
- Lemmas about the specification functions: check order, derivability, the
  length boundary, normalisation, the score formula, and invariant
  preservation.

The code inserts the word first (line 83) and reads `usedWords.count`
afterwards (line 108), so the bonus counts the new word itself: the first
accepted word scores its length + 1, the second its length + 2, and so on.
`UpdateScore`, `RoundScore` and `SilkwormFirstWord` ("silk" scores 5) state
this.

The spell checker (`UITextChecker`) is a platform service. It is modelled as
the function value `isReal: string -> bool`, which the view receives when it
is created. The guards only ever call it.

## Model

| member | source | states |
|---|---|---|
| `WordScramble.ContentView.AddNewWord` | WordScramble/ContentView.swift:57-87 | Blank input changes nothing. A refused answer sets `errorTitle` to the first failing guard's reason and `showingError` to true, and leaves `usedWords`, `score`, `rootWord` and `newWord` as they were. An accepted answer makes `usedWords == [answer] + old(usedWords)` and raises `score` by `|answer| + |old(usedWords)| + 1`. It also clears `newWord`, leaves the alert fields alone and keeps `Valid()`. |
| `WordScramble.ContentView.StartGame` | WordScramble/ContentView.swift:89-99 | Empties `usedWords` and `newWord`, sets `score` to 0 and `rootWord` to the given word. This re-establishes the round invariant. |
| `WordScramble.ContentView.UpdateScore` | WordScramble/ContentView.swift:107-110 | Adds the word's length plus the current `usedWords` length to `score`. |
| `WordScramble.ContentView.IsPossible` | WordScramble/ContentView.swift:116-128 | The letter-deleting scan over a copy of the root returns true exactly when `Derivable(word, rootWord)` holds. The loop invariant says the remaining copy is the root's multiset minus the letters scanned so far. |
| `WordScramble.ContentView.WordError` | WordScramble/ContentView.swift:142-146 | Sets `errorTitle` to the reason and `showingError` to true, and changes no other field. |
| `WordScramble.ContentView.constructor` | WordScramble/ContentView.swift:11-19 | The initial state: score 0, no used words, empty root word and text field, no alert. This state satisfies `Valid()`. |
| `WordScramble.Classify` | WordScramble/ContentView.swift:60-81 | The verdict is `Ignored` exactly for an empty answer. Otherwise it is `Rejected` with the first element of `FailedChecks`, the list of every failing guard in the order duplicate, impossible, unknown, too short. It is `Accepted` when no guard fails. |
| `WordScramble.AcceptedAnswer` | WordScramble/ContentView.swift:62-80 | An accepted answer is not in `usedWords`, is derivable from the root, is recognised, and has length between 4 and the root's length. |
| `WordScramble.LengthBoundary` | WordScramble/ContentView.swift:138-140 | An answer that passes the other guards is refused as `TooShort` with three letters or fewer, and accepted with four. |
| `WordScramble.FirstIndex` | WordScramble/ContentView.swift:120 | Returns `None` exactly when the letter does not occur. Otherwise it returns a position holding the letter with no earlier occurrence. |
| `WordScramble.RemoveAt` | WordScramble/ContentView.swift:121 | The result is one shorter, and its multiset is the input's minus one copy of the removed letter. |
| `WordScramble.ScanStep` | WordScramble/ContentView.swift:119-124 | One scan step keeps the relation "remaining copy = root minus scanned letters" when the letter is found. When the letter is missing, the word is not derivable. |
| `WordScramble.DerivableNoLongerThanRoot` | WordScramble/ContentView.swift:116-128 | A derivable word is no longer than the root. |
| `WordScramble.DerivableIgnoresOrder` | WordScramble/ContentView.swift:116-128 | Two words with the same letter multiset are both derivable or both not, so letter order is irrelevant. |
| `WordScramble.WithinMultiplicity` | WordScramble/ContentView.swift:116-128 | With root "aabbc", "abc" and "abbc" are derivable. |
| `WordScramble.BeyondMultiplicity` | WordScramble/ContentView.swift:116-128 | With root "aabbc", "abbbc" is not derivable, because it needs three b's. |
| `WordScramble.EmptyWordDerivable` | WordScramble/ContentView.swift:116-128 | The empty word is derivable from every root. |
| `WordScramble.LowerCase` | WordScramble/ContentView.swift:58 | `lowercased()`, restricted to ASCII: maps each character on its own, so the result has the input's length. `LowerCaseFacts` says which character each one becomes. |
| `WordScramble.Trim` | WordScramble/ContentView.swift:58 | `trimmingCharacters(in: .whitespacesAndNewlines)`: drops the leading whitespace and then the trailing whitespace. `TrimKeepsInnerRun`, `TrimEmptyIffBlank` and `TrimLeavesTrimmed` state what the result is. |
| `WordScramble.Normalise` | WordScramble/ContentView.swift:58 | The answer `addNewWord` works with: the input lowercased, then trimmed. `NormaliseFacts` and `NormaliseIdempotent` state what it yields. |
| `WordScramble.LowerCaseHasNoUpper` | WordScramble/ContentView.swift:58 | No character of a lowercased string is an upper-case letter. |
| `WordScramble.TrimEndsNotWhitespace` | WordScramble/ContentView.swift:58 | A trimmed string is empty or starts and ends with a non-whitespace character. |
| `WordScramble.TrimKeepsNoUpper` | WordScramble/ContentView.swift:58 | Trimming never brings back an upper-case letter. |
| `WordScramble.LowerCaseKeepsBlank` | WordScramble/ContentView.swift:58 | The input is blank exactly when its lowercase form is, so lowercasing before trimming does not change which submissions are ignored. |
| `WordScramble.IsOriginal` | WordScramble/ContentView.swift:112-114 | `isOriginal`: holds exactly when the answer is not an element of `usedWords`. `ResubmissionIsDuplicate` and `HistoryFacts` state what follows for a round. |
| `WordScramble.IsLongEnough` | WordScramble/ContentView.swift:138-140 | `isLongEnough`: holds exactly when the answer has more than three characters. `LengthBoundary` states the boundary at 3 and 4. |
| `WordScramble.Lower` | WordScramble/ContentView.swift:58 | One character of `lowercased()`: a capital `A`-`Z` becomes the letter 32 code points on (`a`-`z`), and every other character stays as it is. |
| `WordScramble.CaseInsensitive` | WordScramble/ContentView.swift:58 | Two inputs of equal length whose characters agree after `Lower`, position by position, normalise to the same answer, for all inputs. |
| `WordScramble.LowerCaseFacts` | WordScramble/ContentView.swift:58 | Lowercasing maps the character at each position through `Lower`, leaves no upper-case letter and keeps whitespace positions. It is the identity on strings without upper-case letters. |
| `WordScramble.TrimLeadingFacts` | WordScramble/ContentView.swift:58 | Leading trim keeps the suffix that starts at the first non-whitespace character, and everything dropped is whitespace. |
| `WordScramble.TrimTrailingFacts` | WordScramble/ContentView.swift:58 | Trailing trim keeps the prefix that ends at the last non-whitespace character, and everything dropped is whitespace. |
| `WordScramble.TrimKeepsInnerRun` | WordScramble/ContentView.swift:58 | The trimmed string is a contiguous run of the input that starts after the leading whitespace and has no whitespace at either end. |
| `WordScramble.TrimEmptyIffBlank` | WordScramble/ContentView.swift:58 | Trimming gives the empty string exactly when the input is all whitespace. |
| `WordScramble.TrimLeavesTrimmed` | WordScramble/ContentView.swift:58 | A string with no whitespace at either end is unchanged by trimming. |
| `WordScramble.NormaliseFacts` | WordScramble/ContentView.swift:58-60 | A normalised answer has no upper-case letter and no surrounding whitespace. It is empty, so the submission is ignored, exactly when the input is blank. |
| `WordScramble.NormalisedIffFixedPoint` | WordScramble/ContentView.swift:58 | A string is normalised if and only if normalising it changes nothing. |
| `WordScramble.NormaliseIdempotent` | WordScramble/ContentView.swift:58 | Normalising twice equals normalising once. |
| `WordScramble.CaseAndSpaceInsensitive` | WordScramble/ContentView.swift:58 | `" Cat\n"` and `"cat"` normalise to the same answer, `"cat"`. |
| `WordScramble.RoundScore` | WordScramble/ContentView.swift:107-110 | The score of a round, where each word earns its length plus the list length after its insertion. It is at least the number of accepted words, so it is never negative. |
| `WordScramble.RoundScoreInAcceptanceOrder` | WordScramble/ContentView.swift:107-110 | After n accepted words, the score is the sum of `|w_i| + i` for i = 1..n, with words taken in acceptance order. |
| `WordScramble.RoundScoreClosedForm` | WordScramble/ContentView.swift:107-110 | The score is the total length of the accepted words plus n(n+1)/2. |
| `WordScramble.HistoryFacts` | WordScramble/ContentView.swift:62-84 | Under the round invariant the used words are pairwise distinct. Each is a normalised answer that is derivable from the root, longer than three letters and recognised. |
| `WordScramble.AcceptancePreservesInvariant` | WordScramble/ContentView.swift:82-85 | Accepting an answer keeps the round invariant, with the new list and the new score. |
| `WordScramble.ResubmissionIsDuplicate` | WordScramble/ContentView.swift:112-114 | During a round the score is non-negative. Any submission that normalises to a used word is refused as `DuplicateWord`. |
| `WordScramble.CaseVariantIsDuplicate` | WordScramble/ContentView.swift:58-65 | During a round, a used word typed again with any of its letters in another case is refused as `DuplicateWord`. |
| `WordScramble.SilkwormFirstWord` | WordScramble/ContentView.swift:82-84 | With root "silkworm", "silk" is accepted as the first word and scores 5. Submitting it again is refused as `DuplicateWord`. |
| `WordScramble.SilkwormsIsImpossible` | WordScramble/ContentView.swift:67-70 | Every letter of "silkworms" occurs in "silkworm", yet the word is refused as `ImpossibleWord` because it needs two s's. |

## Left out

- The SwiftUI views are presentation only: `body`, `ScoreBoard`, the previews, `withAnimation`, and the alert and toolbar wiring. The model also leaves out how the alert resets `showingError` when it is dismissed.
- Root-word loading is file I/O plus randomness: reading `start.txt` from the bundle, splitting it into lines, `randomElement()`, the `"silkworm"` fallback and the `fatalError`. `StartGame` takes the chosen root word as a parameter instead.
- `isReal` calls `UITextChecker`, a platform spell checker. It is the uninterpreted function value `ContentView.isReal`.
- `errorMessage` is presentation text, one sentence per reason; the `ImpossibleWord` one quotes `rootWord`, which the model keeps. The model keeps only the reason, as `errorTitle: Option<Reason>`, where `None` stands for the initial empty title.
- `Normalise`: Swift's `lowercased()` uses full Unicode case mapping, but the model lowercases only ASCII `A`-`Z`. `IsWhitespace` approximates `whitespacesAndNewlines` by Apple's documented definition: Unicode category Z* plus U+0009-U+000D and U+0085. The Z* code points come from a current Unicode table, and the platform's table may differ between versions (U+180E, for example, was in Zs before Unicode 6.3).
- Swift counts and compares `Character`s, which are grapheme clusters, and compares `String`s up to Unicode canonical equivalence. The model uses Dafny `char`s and plain sequence equality, so `count`, `contains` and `firstIndex(of:)` work per code point.
