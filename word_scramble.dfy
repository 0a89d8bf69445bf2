/** The word-validation and scoring engine of WordScramble's `ContentView`.

    A round has a root word. The player submits answers; each answer is
    normalised (lowercased, surrounding whitespace trimmed) and then run
    through a fixed chain of guards: not used already, spellable from the
    root word's letters, recognised by the spell checker, longer than three
    letters. The first guard that fails raises an error alert; an answer
    that passes all of them is put at the front of the used-word list and
    scored. */
module WordScramble {
  import opened Wrappers

  /** Why an answer is refused: one value per error title the game shows. */
  datatype Reason =
    | DuplicateWord   // "Word used already"
    | ImpossibleWord  // "Word not possible"
    | UnknownWord     // "Word not recognized"
    | TooShort        // "Word too short"

  /** What the guard chain of `addNewWord` decides for one answer. */
  datatype Verdict = Ignored | Rejected(reason: Reason) | Accepted

  // ---------------------------------------------------------------------
  // Normalisation: `lowercased().trimmingCharacters(in: .whitespacesAndNewlines)`
  // ---------------------------------------------------------------------

  /** An approximation of Foundation's `whitespacesAndNewlines`, which Apple
      documents as Unicode general category Z* together with U+0009 to
      U+000D and U+0085. The separators listed are those of categories Zs,
      Zl and Zp in a current Unicode table; the platform's own table may
      differ between versions. */
  predicate IsWhitespace(c: char) {
    var n := c as int;
    (0x09 <= n <= 0x0D) || n == 0x20 || n == 0x85 || n == 0xA0 || n == 0x1680
    || (0x2000 <= n <= 0x200A) || n == 0x2028 || n == 0x2029 || n == 0x202F
    || n == 0x205F || n == 0x3000
  }

  predicate IsUpper(c: char) {
    'A' <= c <= 'Z'
  }

  /** Lowercases one character (ASCII letters only). */
  function Lower(c: char): (r: char)
    ensures IsUpper(c) ==> r as int == c as int + 32
    ensures !IsUpper(c) ==> r == c
  {
    if IsUpper(c) then (c as int + 32) as char else c
  }

  /** `lowercased()`. */
  function LowerCase(s: string): (r: string)
    ensures |r| == |s|
  {
    if s == [] then [] else [Lower(s[0])] + LowerCase(s[1..])
  }

  /** Lowercasing maps each character through `Lower`, leaves no
      upper-case letter, neither creates nor removes whitespace, and changes
      nothing in a string that has no upper-case letter. */
  lemma {:induction false} LowerCaseFacts(s: string)
    ensures forall i :: 0 <= i < |s| ==> LowerCase(s)[i] == Lower(s[i])
    ensures forall i :: 0 <= i < |s| ==> !IsUpper(LowerCase(s)[i])
    ensures forall i :: 0 <= i < |s| ==> (IsWhitespace(LowerCase(s)[i]) <==> IsWhitespace(s[i]))
    ensures (forall i :: 0 <= i < |s| ==> !IsUpper(s[i])) ==> LowerCase(s) == s
  {
    if s != [] {
      LowerCaseFacts(s[1..]);
      assert forall i :: 1 <= i < |s| ==> LowerCase(s)[i] == LowerCase(s[1..])[i - 1];
    }
  }

  /** Drops the leading whitespace (`trimmingCharacters`, front end). */
  function TrimLeading(s: string): string {
    if s != [] && IsWhitespace(s[0]) then TrimLeading(s[1..]) else s
  }

  /** Drops the trailing whitespace (`trimmingCharacters`, back end). */
  function TrimTrailing(s: string): string {
    if s != [] && IsWhitespace(s[|s| - 1]) then TrimTrailing(s[..|s| - 1]) else s
  }

  /** Every character is whitespace. */
  predicate Blank(s: string) {
    forall i :: 0 <= i < |s| ==> IsWhitespace(s[i])
  }

  /** `TrimLeading` keeps the suffix of `s` that starts at its first
      non-whitespace character. */
  lemma {:induction false} TrimLeadingFacts(s: string)
    ensures |TrimLeading(s)| <= |s|
    ensures TrimLeading(s) == s[|s| - |TrimLeading(s)|..]
    ensures TrimLeading(s) == [] || !IsWhitespace(TrimLeading(s)[0])
    ensures forall i :: 0 <= i < |s| - |TrimLeading(s)| ==> IsWhitespace(s[i])
  {
    if s != [] && IsWhitespace(s[0]) {
      var t := s[1..];
      TrimLeadingFacts(t);
      forall i | 1 <= i < |s| - |TrimLeading(t)| ensures IsWhitespace(s[i]) {
        assert s[i] == t[i - 1];
      }
    }
  }

  /** `TrimTrailing` keeps the prefix of `s` that ends at its last
      non-whitespace character. */
  lemma {:induction false} TrimTrailingFacts(s: string)
    ensures |TrimTrailing(s)| <= |s|
    ensures TrimTrailing(s) == s[..|TrimTrailing(s)|]
    ensures TrimTrailing(s) == [] || !IsWhitespace(TrimTrailing(s)[|TrimTrailing(s)| - 1])
    ensures forall i :: |TrimTrailing(s)| <= i < |s| ==> IsWhitespace(s[i])
  {
    if s != [] && IsWhitespace(s[|s| - 1]) {
      TrimTrailingFacts(s[..|s| - 1]);
    }
  }

  /** `trimmingCharacters(in: .whitespacesAndNewlines)`. */
  function Trim(s: string): string {
    TrimTrailing(TrimLeading(s))
  }

  /** Trimming keeps a contiguous run of `s`, starting where the leading
      whitespace ends, and that run has no whitespace at either end. */
  lemma TrimKeepsInnerRun(s: string)
    ensures |Trim(s)| <= |TrimLeading(s)| <= |s|
    ensures forall i :: 0 <= i < |Trim(s)| ==> Trim(s)[i] == s[|s| - |TrimLeading(s)| + i]
    ensures Trim(s) == [] || (!IsWhitespace(Trim(s)[0]) && !IsWhitespace(Trim(s)[|Trim(s)| - 1]))
  {
    var lead := TrimLeading(s);
    TrimLeadingFacts(s);
    TrimTrailingFacts(lead);
  }

  /** Trimming yields the empty string exactly when `s` is blank. */
  lemma TrimEmptyIffBlank(s: string)
    ensures Trim(s) == [] <==> Blank(s)
  {
    var lead := TrimLeading(s);
    TrimLeadingFacts(s);
    TrimTrailingFacts(lead);
    var k := |s| - |lead|;
    if Trim(s) != [] {
      assert Trim(s)[0] == lead[0] == s[k];
    }
  }

  /** A string without surrounding whitespace is left as it is. */
  lemma TrimLeavesTrimmed(s: string)
    requires s == [] || (!IsWhitespace(s[0]) && !IsWhitespace(s[|s| - 1]))
    ensures Trim(s) == s
  {
  }

  /** The answer `addNewWord` works with. */
  function Normalise(s: string): string {
    Trim(LowerCase(s))
  }

  /** A normalised answer: no upper-case letter and no whitespace at
      either end. */
  predicate IsNormalised(w: string) {
    (forall i :: 0 <= i < |w| ==> !IsUpper(w[i]))
    && (w == [] || (!IsWhitespace(w[0]) && !IsWhitespace(w[|w| - 1])))
  }

  /** Lowercasing leaves no upper-case letter. */
  lemma LowerCaseHasNoUpper(s: string)
    ensures forall i :: 0 <= i < |LowerCase(s)| ==> !IsUpper(LowerCase(s)[i])
  {
    LowerCaseFacts(s);
  }

  /** A trimmed string has no whitespace at either end. */
  lemma TrimEndsNotWhitespace(s: string)
    ensures Trim(s) == [] || (!IsWhitespace(Trim(s)[0]) && !IsWhitespace(Trim(s)[|Trim(s)| - 1]))
  {
    TrimKeepsInnerRun(s);
  }

  /** Trimming a string without upper-case letters yields one without. */
  lemma TrimKeepsNoUpper(s: string)
    requires forall i :: 0 <= i < |s| ==> !IsUpper(s[i])
    ensures forall i :: 0 <= i < |Trim(s)| ==> !IsUpper(Trim(s)[i])
  {
    TrimKeepsInnerRun(s);
  }

  /** Lowercasing neither blanks a string nor un-blanks one. */
  lemma LowerCaseKeepsBlank(s: string)
    ensures Blank(LowerCase(s)) <==> Blank(s)
  {
    LowerCaseFacts(s);
  }

  /** Normalisation yields a normalised answer, which is empty exactly when
      the input is blank. */
  lemma NormaliseFacts(s: string)
    ensures IsNormalised(Normalise(s))
    ensures Normalise(s) == [] <==> Blank(s)
  {
    var lower := LowerCase(s);
    LowerCaseHasNoUpper(s);
    TrimKeepsNoUpper(lower);
    TrimEndsNotWhitespace(lower);
    LowerCaseKeepsBlank(s);
    TrimEmptyIffBlank(lower);
  }

  /** The normalised answers are exactly the strings that normalisation
      leaves alone. */
  lemma NormalisedIffFixedPoint(w: string)
    ensures IsNormalised(w) <==> Normalise(w) == w
  {
    NormaliseFacts(w);
    if IsNormalised(w) {
      LowerCaseFacts(w);
      TrimLeavesTrimmed(w);
    }
  }

  /** Normalising an answer twice gives the same answer. */
  lemma NormaliseIdempotent(s: string)
    ensures Normalise(Normalise(s)) == Normalise(s)
  {
    NormaliseFacts(s);
    NormalisedIffFixedPoint(Normalise(s));
  }

  /** Two inputs that agree letter by letter up to case normalise to the
      same answer, so case alone never makes a used word new again. */
  lemma CaseInsensitive(s: string, t: string)
    requires |s| == |t|
    requires forall i :: 0 <= i < |s| ==> Lower(s[i]) == Lower(t[i])
    ensures Normalise(s) == Normalise(t)
  {
    LowerCaseFacts(s);
    LowerCaseFacts(t);
    assert LowerCase(s) == LowerCase(t);
  }

  // ---------------------------------------------------------------------
  // The guards
  // ---------------------------------------------------------------------

  /** `isOriginal`: the word is not in the used-word list. */
  predicate IsOriginal(word: string, usedWords: seq<string>) {
    word !in usedWords
  }

  /** The specification of `isPossible`: every letter of `word` occurs in
      `root` at least as often as in `word`. */
  predicate Derivable(word: string, root: string) {
    multiset(word) <= multiset(root)
  }

  /** `isLongEnough`: more than three characters. */
  predicate IsLongEnough(word: string) {
    |word| > 3
  }

  /** `firstIndex(of:)`: the position of the first occurrence of `c`. */
  function FirstIndex(s: string, c: char): (r: Option<nat>)
    ensures r.None? <==> c !in s
    ensures r.Some? ==> r.value < |s| && s[r.value] == c && c !in s[..r.value]
  {
    if s == [] then None
    else if s[0] == c then Some(0)
    else
      match FirstIndex(s[1..], c)
      case None => None
      case Some(p) =>
        assert s[..p + 1] == [s[0]] + s[1..][..p];
        Some(p + 1)
  }

  /** `remove(at:)`: one copy of the letter at `p` is gone, nothing else. */
  function RemoveAt(s: string, p: nat): (r: string)
    requires p < |s|
    ensures |r| == |s| - 1
    ensures multiset(r) == multiset(s) - multiset{s[p]}
  {
    assert s == s[..p] + [s[p]] + s[p + 1..];
    s[..p] + s[p + 1..]
  }

  /** One step of `isPossible`'s scan, where `left` is what remains of the
      root after deleting the letters of `word[..i]`: if the next letter is
      still there, deleting it keeps that relation for `word[..i + 1]`; if it
      is not, the root has too few copies of it and `word` is not
      derivable. */
  lemma ScanStep(word: string, i: nat, root: string, left: string)
    requires i < |word|
    requires multiset(word[..i]) <= multiset(root)
    requires multiset(left) == multiset(root) - multiset(word[..i])
    ensures word[i] in left ==>
      multiset(word[..i + 1]) <= multiset(root)
      && multiset(left) - multiset{word[i]} == multiset(root) - multiset(word[..i + 1])
    ensures word[i] !in left ==> !Derivable(word, root)
  {
    var letter := word[i];
    assert word[..i + 1] == word[..i] + [letter];
    if letter !in left {
      assert multiset(left)[letter] == 0;
      assert multiset(word[..i + 1])[letter] > multiset(root)[letter];
      assert word == word[..i + 1] + word[i + 1..];
    }
  }

  /** Every letter a derivable word needs is in the root, so it is no longer
      than the root. */
  lemma DerivableNoLongerThanRoot(word: string, root: string)
    requires Derivable(word, root)
    ensures |word| <= |root|
  {
    var rest := multiset(root) - multiset(word);
    assert multiset(root) == multiset(word) + rest;
    assert |multiset(root)| == |multiset(word)| + |rest|;
  }

  /** Derivability looks only at letter counts: rearranging the word's
      letters does not change it. */
  lemma DerivableIgnoresOrder(word: string, anagram: string, root: string)
    requires multiset(word) == multiset(anagram)
    ensures Derivable(word, root) <==> Derivable(anagram, root)
  {
  }

  /** With root "aabbc", "abc" and "abbc" can be spelled. */
  lemma WithinMultiplicity()
    ensures Derivable("abc", "aabbc") && Derivable("abbc", "aabbc")
  {
    assert multiset("aabbc") == multiset{'a', 'a', 'b', 'b', 'c'};
    assert multiset("abc") == multiset{'a', 'b', 'c'};
    assert multiset("abbc") == multiset{'a', 'b', 'b', 'c'};
  }

  /** With root "aabbc", "abbbc" cannot be spelled: it needs three b's. */
  lemma BeyondMultiplicity()
    ensures !Derivable("abbbc", "aabbc")
  {
  }

  /** The empty word can be spelled from any root. */
  lemma EmptyWordDerivable(root: string)
    ensures Derivable("", root)
  {
  }

  // ---------------------------------------------------------------------
  // The guard chain of `addNewWord`
  // ---------------------------------------------------------------------

  /** Every guard the answer fails, in the order `addNewWord` runs them. */
  function FailedChecks(answer: string, usedWords: seq<string>, root: string, isReal: string -> bool): seq<Reason> {
    (if IsOriginal(answer, usedWords) then [] else [DuplicateWord])
    + (if Derivable(answer, root) then [] else [ImpossibleWord])
    + (if isReal(answer) then [] else [UnknownWord])
    + (if IsLongEnough(answer) then [] else [TooShort])
  }

  /** The verdict of `addNewWord` on the normalised answer: an empty answer is
      ignored; otherwise the first failing guard is reported, and the answer is
      accepted when no guard fails. */
  function Classify(answer: string, usedWords: seq<string>, root: string, isReal: string -> bool): (v: Verdict)
    ensures v == Ignored <==> answer == []
    ensures answer != [] ==>
      var failed := FailedChecks(answer, usedWords, root, isReal);
      v == if failed == [] then Accepted else Rejected(failed[0])
  {
    if answer == [] then Ignored
    else if !IsOriginal(answer, usedWords) then Rejected(DuplicateWord)
    else if !Derivable(answer, root) then Rejected(ImpossibleWord)
    else if !isReal(answer) then Rejected(UnknownWord)
    else if !IsLongEnough(answer) then Rejected(TooShort)
    else Accepted
  }

  /** An accepted answer is new, spellable from the root (hence no longer
      than it), recognised, and at least four letters long. */
  lemma AcceptedAnswer(answer: string, usedWords: seq<string>, root: string, isReal: string -> bool)
    requires Classify(answer, usedWords, root, isReal) == Accepted
    ensures answer !in usedWords && Derivable(answer, root) && isReal(answer)
    ensures 4 <= |answer| <= |root|
  {
    DerivableNoLongerThanRoot(answer, root);
  }

  /** The length boundary: an answer that passes the other guards is refused
      as too short with three letters and accepted with four. */
  lemma LengthBoundary(answer: string, usedWords: seq<string>, root: string, isReal: string -> bool)
    requires answer != [] && answer !in usedWords && Derivable(answer, root) && isReal(answer)
    ensures |answer| <= 3 ==> Classify(answer, usedWords, root, isReal) == Rejected(TooShort)
    ensures |answer| == 4 ==> Classify(answer, usedWords, root, isReal) == Accepted
  {
  }

  // ---------------------------------------------------------------------
  // Scoring
  // ---------------------------------------------------------------------

  /** The score of a round whose accepted words, most recent first, are
      `usedWords`: `updateScore` runs after the insertion, so each word earns
      its length plus the length of the list that already includes it. */
  function RoundScore(usedWords: seq<string>): (s: int)
    ensures s >= |usedWords|
  {
    if usedWords == [] then 0
    else |usedWords[0]| + |usedWords| + RoundScore(usedWords[1..])
  }

  function TotalLength(words: seq<string>): nat {
    if words == [] then 0 else |words[0]| + TotalLength(words[1..])
  }

  function Reversed(s: seq<string>): (r: seq<string>)
    ensures |r| == |s|
  {
    if s == [] then [] else Reversed(s[1..]) + [s[0]]
  }

  /** The score of words taken in acceptance order (oldest first): the i-th
      accepted word, counting from 1, earns its length plus i. */
  function AcceptanceScore(accepted: seq<string>): int {
    if accepted == [] then 0
    else AcceptanceScore(accepted[..|accepted| - 1]) + |accepted[|accepted| - 1]| + |accepted|
  }

  /** After n accepted words the score is the sum of |w_i| + i over the words
      in acceptance order. */
  lemma {:induction false} RoundScoreInAcceptanceOrder(usedWords: seq<string>)
    ensures RoundScore(usedWords) == AcceptanceScore(Reversed(usedWords))
  {
    if usedWords != [] {
      RoundScoreInAcceptanceOrder(usedWords[1..]);
      var order := Reversed(usedWords);
      assert order[..|order| - 1] == Reversed(usedWords[1..]);
    }
  }

  /** The score is the total length of the accepted words plus the bonus
      1 + 2 + ... + n. */
  lemma {:induction false} RoundScoreClosedForm(usedWords: seq<string>)
    ensures 2 * RoundScore(usedWords) == 2 * TotalLength(usedWords) + |usedWords| * (|usedWords| + 1)
  {
    if usedWords != [] {
      var n := |usedWords|;
      RoundScoreClosedForm(usedWords[1..]);
      assert (n - 1) * n + 2 * n == n * (n + 1);
    }
  }

  // ---------------------------------------------------------------------
  // The round invariant
  // ---------------------------------------------------------------------

  /** `usedWords`, most recent first, is the history of a round on
      `rootWord`: each entry is a normalised answer that the guard chain
      accepted against the entries accepted before it. */
  ghost predicate AcceptedHistory(rootWord: string, usedWords: seq<string>, isReal: string -> bool) {
    usedWords == []
    || (Normalise(usedWords[0]) == usedWords[0]
        && Classify(usedWords[0], usedWords[1..], rootWord, isReal) == Accepted
        && AcceptedHistory(rootWord, usedWords[1..], isReal))
  }

  /** What holds of the game's state throughout a round: the used words are
      the round's accepted history and the score is the round's score. */
  ghost predicate RoundInvariant(rootWord: string, usedWords: seq<string>, score: int, isReal: string -> bool) {
    AcceptedHistory(rootWord, usedWords, isReal) && score == RoundScore(usedWords)
  }

  /** The used words of a round are distinct, and each is a normalised
      answer spellable from the root word, longer than three letters and
      recognised by the spell checker. */
  lemma {:induction false} HistoryFacts(rootWord: string, usedWords: seq<string>, isReal: string -> bool)
    requires AcceptedHistory(rootWord, usedWords, isReal)
    ensures forall i, j :: 0 <= i < j < |usedWords| ==> usedWords[i] != usedWords[j]
    ensures forall w :: w in usedWords ==>
      Normalise(w) == w && Derivable(w, rootWord) && IsLongEnough(w) && isReal(w)
  {
    if usedWords != [] {
      var older := usedWords[1..];
      HistoryFacts(rootWord, older, isReal);
      forall i, j | 0 <= i < j < |usedWords| ensures usedWords[i] != usedWords[j] {
        if i == 0 {
          assert usedWords[j] == older[j - 1];
        } else {
          assert usedWords[i] == older[i - 1] && usedWords[j] == older[j - 1];
        }
      }
      forall w | w in usedWords
        ensures Normalise(w) == w && Derivable(w, rootWord) && IsLongEnough(w) && isReal(w)
      {
        if w != usedWords[0] {
          assert w in older;
        }
      }
    }
  }

  /** Accepting the normalised form of `newWord` keeps the invariant, with
      the score raised by the word's length plus the new list length. */
  lemma AcceptancePreservesInvariant(rootWord: string, usedWords: seq<string>, score: int,
                                     isReal: string -> bool, newWord: string)
    requires RoundInvariant(rootWord, usedWords, score, isReal)
    requires Classify(Normalise(newWord), usedWords, rootWord, isReal) == Accepted
    ensures var answer := Normalise(newWord);
      RoundInvariant(rootWord, [answer] + usedWords, score + |answer| + |usedWords| + 1, isReal)
  {
    var answer := Normalise(newWord);
    NormaliseIdempotent(newWord);
    assert ([answer] + usedWords)[1..] == usedWords;
  }

  /** During a round the score is never negative, and resubmitting an
      accepted word, in any case and with any surrounding whitespace, is
      refused as a duplicate. */
  lemma ResubmissionIsDuplicate(rootWord: string, usedWords: seq<string>, score: int,
                                isReal: string -> bool, w: string, newWord: string)
    requires RoundInvariant(rootWord, usedWords, score, isReal)
    requires w in usedWords && Normalise(newWord) == Normalise(w)
    ensures score >= 0
    ensures Classify(Normalise(newWord), usedWords, rootWord, isReal) == Rejected(DuplicateWord)
  {
    HistoryFacts(rootWord, usedWords, isReal);
  }

  /** A used word typed again with its letters in other cases is refused
      as a duplicate. */
  lemma CaseVariantIsDuplicate(rootWord: string, usedWords: seq<string>, score: int,
                               isReal: string -> bool, w: string, newWord: string)
    requires RoundInvariant(rootWord, usedWords, score, isReal)
    requires w in usedWords && |newWord| == |w|
    requires forall i :: 0 <= i < |w| ==> Lower(newWord[i]) == Lower(w[i])
    ensures Classify(Normalise(newWord), usedWords, rootWord, isReal) == Rejected(DuplicateWord)
  {
    CaseInsensitive(newWord, w);
    ResubmissionIsDuplicate(rootWord, usedWords, score, isReal, w, newWord);
  }

  /** Normalisation ignores case and surrounding whitespace: " Cat\n" and
      "cat" are the same answer. */
  lemma CaseAndSpaceInsensitive()
    ensures Normalise(" Cat\n") == Normalise("cat") == "cat"
  {
  }

  /** A round on "silkworm" opens with "silk": it is accepted and, being the
      first word, scores 4 + 1; resubmitting it is refused as a duplicate. */
  lemma SilkwormFirstWord(isReal: string -> bool)
    requires isReal("silk")
    ensures Classify("silk", [], "silkworm", isReal) == Accepted
    ensures RoundScore(["silk"]) == 5
    ensures Classify("silk", ["silk"], "silkworm", isReal) == Rejected(DuplicateWord)
  {
  }

  /** "silkworms" needs two s's and "silkworm" has one, so it is refused as
      impossible even though every letter occurs in the root. */
  lemma SilkwormsIsImpossible(usedWords: seq<string>, isReal: string -> bool)
    requires "silkworms" !in usedWords
    ensures forall c :: c in "silkworms" ==> c in "silkworm"
    ensures Classify("silkworms", usedWords, "silkworm", isReal) == Rejected(ImpossibleWord)
  {
    assert multiset("silkworms")['s'] == 2;
  }

  /** The state of `ContentView` that the engine reads and writes. */
  class ContentView {
    var score: int
    var usedWords: seq<string>
    var rootWord: string
    var newWord: string
    /** The title of the last error alert; `None` before the first one. */
    var errorTitle: Option<Reason>
    var showingError: bool
    /** The spell checker that decides `isReal`. */
    const isReal: string -> bool

    ghost predicate Valid()
      reads this`rootWord, this`usedWords, this`score
    {
      RoundInvariant(rootWord, usedWords, score, isReal)
    }

    /** The view as first shown, before `startGame` picks a root word. */
    constructor (isReal: string -> bool)
      ensures Valid() && this.isReal == isReal
      ensures score == 0 && usedWords == [] && rootWord == "" && newWord == ""
      ensures errorTitle == None && !showingError
    {
      this.isReal := isReal;
      score, usedWords, rootWord, newWord := 0, [], "", "";
      errorTitle, showingError := None, false;
    }

    /** Submits `newWord`. Blank input changes nothing; a refused answer
        raises the alert of the first failing guard and changes nothing
        else; an accepted answer goes to the front of `usedWords`, the score
        rises by its length plus the new list length, and the text field is
        cleared. */
    method AddNewWord()
      requires Valid()
      modifies this
      ensures Valid()
      ensures rootWord == old(rootWord)
      ensures var answer := Normalise(old(newWord));
        match Classify(answer, old(usedWords), old(rootWord), isReal)
        case Ignored =>
          usedWords == old(usedWords) && score == old(score) && newWord == old(newWord)
          && errorTitle == old(errorTitle) && showingError == old(showingError)
        case Rejected(reason) =>
          usedWords == old(usedWords) && score == old(score) && newWord == old(newWord)
          && errorTitle == Some(reason) && showingError
        case Accepted =>
          usedWords == [answer] + old(usedWords)
          && score == old(score) + |answer| + |old(usedWords)| + 1
          && newWord == ""
          && errorTitle == old(errorTitle) && showingError == old(showingError)
    {
      var answer := Normalise(newWord);
      ghost var verdict := Classify(answer, usedWords, rootWord, isReal);
      if |answer| == 0 {
        return;
      }
      if !IsOriginal(answer, usedWords) {
        assert verdict == Rejected(DuplicateWord);
        WordError(DuplicateWord);
        return;
      }
      var possible := IsPossible(answer);
      if !possible {
        assert verdict == Rejected(ImpossibleWord);
        WordError(ImpossibleWord);
        return;
      }
      if !isReal(answer) {
        assert verdict == Rejected(UnknownWord);
        WordError(UnknownWord);
        return;
      }
      if !IsLongEnough(answer) {
        assert verdict == Rejected(TooShort);
        WordError(TooShort);
        return;
      }
      assert verdict == Accepted;
      ghost var used', score' := [answer] + usedWords, score + |answer| + |usedWords| + 1;
      AcceptancePreservesInvariant(rootWord, usedWords, score, isReal, newWord);
      assert RoundInvariant(rootWord, used', score', isReal);
      usedWords := [answer] + usedWords;
      UpdateScore(answer);
      newWord := "";
    }

    /** Starts a round with `root` (the word drawn from the start-word list):
        no used words, score zero, empty text field. */
    method StartGame(root: string)
      modifies this
      ensures Valid()
      ensures usedWords == [] && newWord == "" && score == 0 && rootWord == root
      ensures errorTitle == old(errorTitle) && showingError == old(showingError)
    {
      usedWords := [];
      newWord := "";
      score := 0;
      rootWord := root;
    }

    /** Adds the word's length plus the current list length (which already
        includes the word) to the score. */
    method UpdateScore(word: string)
      modifies this`score
      ensures score == old(score) + |word| + |usedWords|
    {
      var bonus := |usedWords|;
      score := score + |word| + bonus;
    }

    /** Decides whether `word` can be spelled from the root word's letters
        by deleting each of its letters, in order, from a copy of the root. */
    method IsPossible(word: string) returns (possible: bool)
      ensures possible == Derivable(word, rootWord)
    {
      var tempWord := rootWord;
      for i := 0 to |word|
        invariant multiset(word[..i]) <= multiset(rootWord)
        invariant multiset(tempWord) == multiset(rootWord) - multiset(word[..i])
      {
        var letter := word[i];
        ScanStep(word, i, rootWord, tempWord);
        match FirstIndex(tempWord, letter)
        case Some(pos) =>
          tempWord := RemoveAt(tempWord, pos);
        case None =>
          return false;
      }
      assert word[..|word|] == word;
      return true;
    }

    /** Raises the error alert for `reason`. */
    method WordError(reason: Reason)
      modifies this`errorTitle, this`showingError
      ensures errorTitle == Some(reason) && showingError
    {
      errorTitle := Some(reason);
      showingError := true;
    }
  }
}
