/**
 What the constraint engine computes. `Consistent` states, position by
 position and letter by letter, when a word agrees with a guess and its
 pattern; `ReducedWords` keeps exactly the pool words that are consistent, and
 refuses exactly the patterns that mark a letter Present after an Absent mark.
 For a pattern the game itself produced, the consistent words are exactly the
 words that would have produced the same pattern, so the true answer always
 survives its own feedback.
 */
module ReductionFacts {
  import opened Counting
  import opened WordRules
  import opened ResponseFacts
  import opened Wordlist

  /** Some letter is marked Absent and, later within the first n positions, Present. */
  predicate AbsentThenPresent(guess: string, rules: seq<LetterRule>, n: nat)
    requires n <= |guess| == |rules|
  {
    exists i, j | 0 <= i < j < n :: guess[i] == guess[j] && rules[i] == Absent && rules[j] == Present
  }

  /**
   Position i's letter must be elsewhere in a consistent word: it is marked
   Present, or it is marked Absent after a Present mark of the same letter.
   */
  predicate MustBeElsewhere(guess: string, rules: seq<LetterRule>, i: nat)
    requires i < |guess| == |rules|
  {
    rules[i] == Present || (rules[i] == Absent && RuleCount(guess, rules, guess[i], Present, i) > 0)
  }

  /**
   Word w agrees with `guess` and its pattern: Correct positions hold the guess
   letter, must-be-elsewhere positions do not, and each guess letter occurs in
   w within its count range.
   */
  predicate Consistent(w: string, guess: string, rules: seq<LetterRule>)
    requires |w| <= WordLength && |guess| == WordLength && |rules| == WordLength
  {
    && (forall i | 0 <= i < |w| :: rules[i] == Correct ==> w[i] == guess[i])
    && (forall i | 0 <= i < |w| :: MustBeElsewhere(guess, rules, i) ==> w[i] != guess[i])
    && (forall i | 0 <= i < WordLength :: InRange(Occurrences(w, guess[i]), Tally(guess, rules, guess[i], WordLength).CountRange()))
  }

  /** The letters with rule counts after scanning n positions are the letters among them, with their tallies. */
  ghost predicate CountsRecorded(k: Constraints, guess: string, rules: seq<LetterRule>, n: nat)
    requires |guess| == WordLength && |rules| == WordLength && n <= WordLength
  {
    && (forall c :: c in k.countsByLetter <==> exists j | 0 <= j < n :: guess[j] == c)
    && (forall c | c in k.countsByLetter :: k.countsByLetter[c] == Tally(guess, rules, c, n))
  }

  /** The positional constraints after scanning n positions. */
  ghost predicate PositionsRecorded(k: Constraints, guess: string, rules: seq<LetterRule>, n: nat)
    requires |guess| == WordLength && |rules| == WordLength && n <= WordLength
  {
    && |k.requiredLetters| == WordLength
    && |k.elsewhereLetters| == WordLength
    && (forall i | 0 <= i < WordLength ::
          k.requiredLetters[i] == if i < n && rules[i] == Correct then Some(guess[i]) else None)
    && (forall i | 0 <= i < WordLength ::
          k.elsewhereLetters[i] == if i < n && MustBeElsewhere(guess, rules, i) then {guess[i]} else {})
  }

  /** What the scan of the first n positions has recorded. */
  ghost predicate ScanInvariant(k: Constraints, guess: string, rules: seq<LetterRule>, n: nat)
    requires |guess| == WordLength && |rules| == WordLength && n <= WordLength
  {
    CountsRecorded(k, guess, rules, n) && PositionsRecorded(k, guess, rules, n)
  }

  /** A rule count is positive exactly when some counted position exists. */
  lemma {:induction false} RuleCountPositive(guess: string, rules: seq<LetterRule>, c: char, rule: LetterRule, n: nat)
    requires n <= |guess| == |rules|
    ensures RuleCount(guess, rules, c, rule, n) > 0 <==> exists j | 0 <= j < n :: guess[j] == c && rules[j] == rule
  {
    if n > 0 {
      RuleCountPositive(guess, rules, c, rule, n - 1);
      if guess[n - 1] == c && rules[n - 1] == rule {
        assert exists j | 0 <= j < n :: guess[j] == c && rules[j] == rule;
      } else if exists j | 0 <= j < n :: guess[j] == c && rules[j] == rule {
        var j :| 0 <= j < n && guess[j] == c && rules[j] == rule;
        assert j < n - 1;
      }
    }
  }

  /** A letter that does not occur in the first n positions has all-zero rule counts there. */
  lemma UnseenLetterHasNoCounts(guess: string, rules: seq<LetterRule>, c: char, n: nat)
    requires n <= |guess| == |rules|
    requires forall j | 0 <= j < n :: guess[j] != c
    ensures Tally(guess, rules, c, n) == RuleCounts(0, 0, 0)
  {
    RuleCountPositive(guess, rules, c, Absent, n);
    RuleCountPositive(guess, rules, c, Present, n);
    RuleCountPositive(guess, rules, c, Correct, n);
  }

  /** The counts recorded for the letter at position m are its tally over the positions before m. */
  lemma ExistingCounts(k: Constraints, guess: string, rules: seq<LetterRule>, m: nat)
    requires |guess| == WordLength && |rules| == WordLength && m < WordLength
    requires CountsRecorded(k, guess, rules, m)
    ensures (if guess[m] in k.countsByLetter then k.countsByLetter[guess[m]] else RuleCounts(0, 0, 0))
            == Tally(guess, rules, guess[m], m)
  {
    if guess[m] !in k.countsByLetter {
      UnseenLetterHasNoCounts(guess, rules, guess[m], m);
    }
  }

  /** One scan step fails exactly when it completes an Absent-then-Present pair. */
  lemma StepFailsIff(k: Constraints, guess: string, rules: seq<LetterRule>, m: nat)
    requires |guess| == WordLength && |rules| == WordLength && m < WordLength
    requires ScanInvariant(k, guess, rules, m) && !AbsentThenPresent(guess, rules, m)
    ensures ScanStep(k, m, guess[m], rules[m]).Err? <==> AbsentThenPresent(guess, rules, m + 1)
  {
    var ch := guess[m];
    ExistingCounts(k, guess, rules, m);
    RuleCountPositive(guess, rules, ch, Absent, m);
    if ScanStep(k, m, ch, rules[m]).Err? {
      var i :| 0 <= i < m && guess[i] == ch && rules[i] == Absent;
      assert guess[i] == guess[m] && rules[i] == Absent && rules[m] == Present;
    } else {
      forall i, j | 0 <= i < j < m + 1 && guess[i] == guess[j] && rules[i] == Absent
        ensures rules[j] != Present
      {
        if j < m {
          assert !(guess[i] == guess[j] && rules[i] == Absent && rules[j] == Present);
        }
      }
    }
  }

  /** A successful scan step enters the tally of position m's letter over the first m + 1 positions. */
  lemma StepTallies(k: Constraints, guess: string, rules: seq<LetterRule>, m: nat)
    requires |guess| == WordLength && |rules| == WordLength && m < WordLength
    requires ScanInvariant(k, guess, rules, m)
    requires ScanStep(k, m, guess[m], rules[m]).Ok?
    ensures ScanStep(k, m, guess[m], rules[m]).value.countsByLetter
            == k.countsByLetter[guess[m] := Tally(guess, rules, guess[m], m + 1)]
  {
    ExistingCounts(k, guess, rules, m);
  }

  /** A successful scan step records the counts of position m. */
  lemma StepRecordsCounts(k: Constraints, guess: string, rules: seq<LetterRule>, m: nat)
    requires |guess| == WordLength && |rules| == WordLength && m < WordLength
    requires ScanInvariant(k, guess, rules, m)
    requires ScanStep(k, m, guess[m], rules[m]).Ok?
    ensures CountsRecorded(ScanStep(k, m, guess[m], rules[m]).value, guess, rules, m + 1)
  {
    var ch := guess[m];
    StepTallies(k, guess, rules, m);
    var counts := ScanStep(k, m, ch, rules[m]).value.countsByLetter;
    forall c | c in counts
      ensures counts[c] == Tally(guess, rules, c, m + 1)
    {
      if c != ch {
        assert Tally(guess, rules, c, m + 1) == Tally(guess, rules, c, m);
      }
    }
    forall c
      ensures c in counts <==> exists j | 0 <= j < m + 1 :: guess[j] == c
    {
      if c in k.countsByLetter {
        var j :| 0 <= j < m && guess[j] == c;
        assert 0 <= j < m + 1;
      } else if c == ch {
        assert guess[m] == c;
      } else {
        assert forall j | 0 <= j < m + 1 :: guess[j] != c;
      }
    }
  }

  /** A successful scan step records the positional constraints of position m. */
  lemma StepRecordsPositions(k: Constraints, guess: string, rules: seq<LetterRule>, m: nat)
    requires |guess| == WordLength && |rules| == WordLength && m < WordLength
    requires ScanInvariant(k, guess, rules, m)
    requires ScanStep(k, m, guess[m], rules[m]).Ok?
    ensures PositionsRecorded(ScanStep(k, m, guess[m], rules[m]).value, guess, rules, m + 1)
  {
    var ch := guess[m];
    ExistingCounts(k, guess, rules, m);
    RuleCountPositive(guess, rules, ch, Present, m);
    var r := ScanStep(k, m, ch, rules[m]).value;
    forall i | 0 <= i < WordLength
      ensures r.elsewhereLetters[i] == if i < m + 1 && MustBeElsewhere(guess, rules, i) then {guess[i]} else {}
    {
      if i == m && rules[m] != Correct && MustBeElsewhere(guess, rules, i) {
        assert r.elsewhereLetters[i] == {} + {ch};
      }
    }
  }

  /**
   Scanning the first n positions fails exactly when some letter is marked
   Present after an Absent mark among them; otherwise it records each letter's
   rule counts, the Correct letters as required, and the must-be-elsewhere
   letters as forbidden at their positions.
   */
  lemma {:induction false} ScanRulesSpec(guess: string, rules: seq<LetterRule>, n: nat)
    requires |guess| == WordLength && |rules| == WordLength && n <= WordLength
    ensures ScanRules(guess, rules, n).Err? <==> AbsentThenPresent(guess, rules, n)
    ensures ScanRules(guess, rules, n).Ok? ==> ScanInvariant(ScanRules(guess, rules, n).value, guess, rules, n)
  {
    if n == 0 {
      return;
    }
    var m := n - 1;
    ScanRulesSpec(guess, rules, m);
    var prev := ScanRules(guess, rules, m);
    if prev.Err? {
      var i, j :| 0 <= i < j < m && guess[i] == guess[j] && rules[i] == Absent && rules[j] == Present;
      assert 0 <= i < j < n;
      return;
    }
    assert ScanRules(guess, rules, n) == ScanStep(prev.value, m, guess[m], rules[m]);
    StepFailsIff(prev.value, guess, rules, m);
    if ScanStep(prev.value, m, guess[m], rules[m]).Ok? {
      StepRecordsCounts(prev.value, guess, rules, m);
      StepRecordsPositions(prev.value, guess, rules, m);
    }
  }

  /** The per-letter verdicts (index and count filter) together amount to the occurrence range. */
  lemma LetterVerdict(wl: Wordlist, ch: char, counts: RuleCounts, w: string)
    requires Valid(wl) && IsLower(ch) && w in wl.allWords && |w| <= WordLength
    ensures PassesIndex(wl, ch, counts, w) && PassesCount(w, ch, counts) <==> InRange(Occurrences(w, ch), counts.CountRange())
  {
    OccursIff(w, ch);
  }

  /** The letter verdicts over the recorded letters amount to every guess letter's range check. */
  lemma LettersVerdict(wl: Wordlist, k: Constraints, guess: string, rules: seq<LetterRule>, w: string)
    requires Valid(wl) && w in wl.allWords && |w| <= WordLength
    requires IsWord(guess) && |rules| == WordLength
    requires CountsRecorded(k, guess, rules, WordLength)
    ensures (forall ch | ch in k.countsByLetter :: PassesIndex(wl, ch, k.countsByLetter[ch], w))
            && (forall ch | ch in k.countsByLetter :: PassesCount(w, ch, k.countsByLetter[ch]))
            <==> forall i | 0 <= i < WordLength ::
                   InRange(Occurrences(w, guess[i]), Tally(guess, rules, guess[i], WordLength).CountRange())
  {
    forall ch | ch in k.countsByLetter
      ensures PassesIndex(wl, ch, k.countsByLetter[ch], w) && PassesCount(w, ch, k.countsByLetter[ch])
              <==> InRange(Occurrences(w, ch), k.countsByLetter[ch].CountRange())
    {
      var j :| 0 <= j < WordLength && guess[j] == ch;
      LetterVerdict(wl, ch, k.countsByLetter[ch], w);
    }
    forall i | 0 <= i < WordLength
      ensures guess[i] in k.countsByLetter
    {
    }
  }

  /** One pool word survives the reduction exactly when it is consistent. */
  lemma SurvivesIffConsistent(wl: Wordlist, k: Constraints, guess: string, rules: seq<LetterRule>, w: string)
    requires Valid(wl) && ShortWords(wl.allWords) && w in wl.allWords
    requires IsWord(guess) && |rules| == WordLength
    requires ScanInvariant(k, guess, rules, WordLength)
    ensures forall ch | ch in k.countsByLetter :: IsLower(ch)
    ensures w in CountFilter(PositionFilter(IndexFilter(wl, k.countsByLetter), k.requiredLetters, k.elsewhereLetters), k.countsByLetter)
            <==> Consistent(w, guess, rules)
  {
    forall ch | ch in k.countsByLetter
      ensures IsLower(ch)
    {
      var j :| 0 <= j < WordLength && guess[j] == ch;
    }
    LettersVerdict(wl, k, guess, rules, w);
  }

  /**
   `ReducedWords` fails exactly on patterns that mark a letter Present after
   an Absent mark; otherwise it keeps exactly the pool words consistent with
   the guess and pattern.
   */
  lemma ReducedWordsCharacterized(wl: Wordlist, guess: string, rules: seq<LetterRule>)
    requires Valid(wl) && ShortWords(wl.allWords)
    requires IsWord(guess) && |rules| == WordLength
    ensures ReducedWords(wl, guess, rules).Err? <==> AbsentThenPresent(guess, rules, WordLength)
    ensures ReducedWords(wl, guess, rules).Ok? ==>
              forall w :: w in ReducedWords(wl, guess, rules).value <==> w in wl.allWords && Consistent(w, guess, rules)
  {
    ScanRulesSpec(guess, rules, WordLength);
    var scan := ScanRules(guess, rules, WordLength);
    if scan.Ok? {
      forall w | w in wl.allWords
        ensures w in ReducedWords(wl, guess, rules).value <==> Consistent(w, guess, rules)
      {
        SurvivesIffConsistent(wl, scan.value, guess, rules, w);
      }
    }
  }

  /** The reduced pool is part of the pool it was reduced from. */
  lemma ReducedWordsSubset(wl: Wordlist, guess: string, rules: seq<LetterRule>)
    requires |wl.wordsByLetter| == AlphabetSize && ShortWords(wl.allWords)
    requires IsWord(guess) && |rules| == WordLength
    requires ReducedWords(wl, guess, rules).Ok?
    ensures ReducedWords(wl, guess, rules).value <= wl.allWords
    ensures |ReducedWords(wl, guess, rules).value| <= |wl.allWords|
  {
    var result := ReducedWords(wl, guess, rules).value;
    assert wl.allWords == result + (wl.allWords - result);
  }

  /**
   Reducing a pool twice by the same guess and pattern changes nothing the
   second time, whatever index the reduced pool is given.
   */
  lemma ReduceTwice(wl: Wordlist, reduced: Wordlist, guess: string, rules: seq<LetterRule>)
    requires Valid(wl) && ShortWords(wl.allWords) && Valid(reduced)
    requires IsWord(guess) && |rules| == WordLength
    requires ReducedWords(wl, guess, rules).Ok? && reduced.allWords == ReducedWords(wl, guess, rules).value
    ensures ReducedWords(reduced, guess, rules) == ReducedWords(wl, guess, rules)
  {
    ReducedWordsCharacterized(wl, guess, rules);
    ReducedWordsCharacterized(reduced, guess, rules);
    assert ReducedWords(reduced, guess, rules).value == reduced.allWords;
  }

  /** The game never marks a letter Present after an Absent mark of the same letter. */
  lemma ResponseIsWellOrdered(guess: string, answer: string)
    requires |guess| == WordLength && |answer| == WordLength
    ensures !AbsentThenPresent(guess, Response(guess, answer), WordLength)
  {
    var rules := Response(guess, answer);
    PresentMarksComeFirst(guess, answer);
    forall i, j | 0 <= i < j < WordLength && guess[i] == guess[j] && rules[i] == Absent
      ensures rules[j] != Present
    {
    }
  }

  /** The answer is consistent with the feedback it produces. */
  lemma AnswerIsConsistent(guess: string, answer: string)
    requires |guess| == WordLength && |answer| == WordLength
    ensures Consistent(answer, guess, Response(guess, answer))
  {
    var rules := Response(guess, answer);
    forall i | 0 <= i < WordLength
      ensures InRange(Occurrences(answer, guess[i]), Tally(guess, rules, guess[i], WordLength).CountRange())
    {
      var c := guess[i];
      CorrectCountIsMatched(guess, answer, c, WordLength);
      PresentCountIsMin(guess, answer, c, WordLength);
      MissedAreAbsentOrPresent(guess, answer, c, WordLength);
      AnswerCountSplits(guess, answer, c, WordLength);
    }
    forall i | 0 <= i < WordLength
      ensures MustBeElsewhere(guess, rules, i) ==> answer[i] != guess[i]
    {
    }
  }

  /**
   Soundness: reducing a pool by the feedback that one of its words produces
   never fails and keeps that word.
   */
  lemma AnswerSurvives(wl: Wordlist, guess: string, answer: string)
    requires Valid(wl) && ShortWords(wl.allWords)
    requires IsWord(guess) && |answer| == WordLength && answer in wl.allWords
    ensures ReducedWords(wl, guess, Response(guess, answer)).Ok?
    ensures answer in ReducedWords(wl, guess, Response(guess, answer)).value
  {
    ResponseIsWellOrdered(guess, answer);
    AnswerIsConsistent(guess, answer);
    ReducedWordsCharacterized(wl, guess, Response(guess, answer));
  }

  /**
   For feedback the game produced, a five-letter word is consistent with it
   exactly when that word, as the answer, would have produced the same feedback.
   */
  lemma ConsistentIffSameResponse(w: string, guess: string, answer: string)
    requires |w| == WordLength && |guess| == WordLength && |answer| == WordLength
    ensures Consistent(w, guess, Response(guess, answer)) <==> Response(guess, w) == Response(guess, answer)
  {
    if Response(guess, w) == Response(guess, answer) {
      AnswerIsConsistent(guess, w);
    }
    if Consistent(w, guess, Response(guess, answer)) {
      ConsistentGivesSameResponse(w, guess, answer);
    }
  }

  /** The harder half of `ConsistentIffSameResponse`. */
  lemma ConsistentGivesSameResponse(w: string, guess: string, answer: string)
    requires |w| == WordLength && |guess| == WordLength && |answer| == WordLength
    requires Consistent(w, guess, Response(guess, answer))
    ensures Response(guess, w) == Response(guess, answer)
  {
    var rules := Response(guess, answer);
    ConsistentMatchesWhereAnswerDoes(w, guess, answer);
    forall c
      ensures Matched(guess, w, c, WordLength) == Matched(guess, answer, c, WordLength)
      ensures forall n | 0 <= n <= WordLength :: Missed(guess, w, c, n) == Missed(guess, answer, c, n)
    {
      forall n | 0 <= n <= WordLength
        ensures Missed(guess, w, c, n) == Missed(guess, answer, c, n)
      {
        SameMatchPositions(guess, w, answer, c, n);
      }
      SameMatchPositions(guess, w, answer, c, WordLength);
    }
    forall i | 0 <= i < WordLength
      ensures Response(guess, w)[i] == rules[i]
    {
      if guess[i] != answer[i] {
        var c := guess[i];
        CorrectCountIsMatched(guess, answer, c, WordLength);
        PresentCountIsMin(guess, answer, c, WordLength);
        MissedAreAbsentOrPresent(guess, answer, c, WordLength);
        AnswerCountSplits(guess, w, c, WordLength);
        MissedAfter(guess, answer, i, WordLength);
        assert InRange(Occurrences(w, c), Tally(guess, rules, c, WordLength).CountRange());
      }
    }
  }

  /**
   A word consistent with game-produced feedback agrees with the guess exactly
   where the answer does.
   */
  lemma ConsistentMatchesWhereAnswerDoes(w: string, guess: string, answer: string)
    requires |w| == WordLength && |guess| == WordLength && |answer| == WordLength
    requires Consistent(w, guess, Response(guess, answer))
    ensures forall j | 0 <= j < WordLength :: (guess[j] == w[j]) == (guess[j] == answer[j])
  {
    var rules := Response(guess, answer);
    forall i | 0 <= i < WordLength && guess[i] != answer[i]
      ensures w[i] != guess[i]
    {
      var c := guess[i];
      if rules[i] == Absent && RuleCount(guess, rules, c, Present, i) == 0 {
        PresentCountIsMin(guess, answer, c, i);
        PresentCountIsMin(guess, answer, c, WordLength);
        CorrectCountIsMatched(guess, answer, c, WordLength);
        RuleCountPositive(guess, rules, c, Absent, WordLength);
        assert guess[i] == c && rules[i] == Absent;
        assert InRange(Occurrences(w, c), Tally(guess, rules, c, WordLength).CountRange());
        CountExceedsMatched(w, guess, answer, c, i, WordLength);
      }
    }
  }

  /**
   For feedback the game produced, the index-based reduction agrees with the
   brute-force one: the reduced pool is exactly the pool words that would have
   produced the same feedback.
   */
  lemma ReductionMatchesBruteForce(wl: Wordlist, guess: string, answer: string)
    requires Valid(wl) && forall w | w in wl.allWords :: |w| == WordLength
    requires IsWord(guess) && |answer| == WordLength
    ensures ReducedWords(wl, guess, Response(guess, answer))
            == Ok(set w | w in wl.allWords && Response(guess, w) == Response(guess, answer))
  {
    ResponseIsWellOrdered(guess, answer);
    ReducedWordsCharacterized(wl, guess, Response(guess, answer));
    forall w | w in wl.allWords
      ensures Consistent(w, guess, Response(guess, answer)) <==> Response(guess, w) == Response(guess, answer)
    {
      ConsistentIffSameResponse(w, guess, answer);
    }
    assert ReducedWords(wl, guess, Response(guess, answer)).value
        == set w | w in wl.allWords && Response(guess, w) == Response(guess, answer);
  }
}
