/**
 Properties of the feedback rule: what an exact guess gets, how many Present
 marks a letter earns when guess and answer repeat it, the left-to-right order
 in which Present marks are handed out, and what a letter foreign to the answer
 gets.
 */
module ResponseFacts {
  import opened Counting
  import opened WordRules

  /** Guessing the answer itself gives five Correct marks. */
  lemma ResponseToSelf(w: string)
    requires |w| == WordLength
    ensures forall i | 0 <= i < WordLength :: Response(w, w)[i] == Correct
  {
  }

  /** Correct marks for `c` are exactly the matched copies of `c`. */
  lemma {:induction false} CorrectCountIsMatched(guess: string, answer: string, c: char, n: nat)
    requires |guess| == WordLength && |answer| == WordLength && n <= WordLength
    ensures RuleCount(guess, Response(guess, answer), c, Correct, n) == Matched(guess, answer, c, n)
  {
    if n > 0 {
      CorrectCountIsMatched(guess, answer, c, n - 1);
    }
  }

  /**
   Among the first n positions, the Present marks for `c` number the missed
   copies of `c` in the guess, capped by the unmatched copies in the answer.
   With n = 5: #Present(c) = min(#missed c in guess, #unmatched c in answer).
   */
  lemma {:induction false} PresentCountIsMin(guess: string, answer: string, c: char, n: nat)
    requires |guess| == WordLength && |answer| == WordLength && n <= WordLength
    ensures var missed := Missed(guess, answer, c, n);
            var unmatched := Unmatched(guess, answer, c, WordLength);
            RuleCount(guess, Response(guess, answer), c, Present, n) == if missed < unmatched then missed else unmatched
  {
    if n > 0 {
      PresentCountIsMin(guess, answer, c, n - 1);
    }
  }

  /** The missed copies of `c` are split between Present and Absent marks. */
  lemma {:induction false} MissedAreAbsentOrPresent(guess: string, answer: string, c: char, n: nat)
    requires |guess| == WordLength && |answer| == WordLength && n <= WordLength
    ensures RuleCount(guess, Response(guess, answer), c, Absent, n) + RuleCount(guess, Response(guess, answer), c, Present, n)
            == Missed(guess, answer, c, n)
  {
    if n > 0 {
      MissedAreAbsentOrPresent(guess, answer, c, n - 1);
    }
  }

  /**
   Present marks are handed out left to right: if a later copy of a letter is
   Present, every earlier non-Correct copy of it is Present too. So an Absent
   copy never precedes a Present copy of the same letter.
   */
  lemma PresentMarksComeFirst(guess: string, answer: string)
    requires |guess| == WordLength && |answer| == WordLength
    ensures var rules := Response(guess, answer);
            forall i, j | 0 <= i < j < WordLength && guess[i] == guess[j] && rules[j] == Present && rules[i] != Correct ::
              rules[i] == Present
  {
    var rules := Response(guess, answer);
    forall i, j | 0 <= i < j < WordLength && guess[i] == guess[j] && rules[j] == Present && rules[i] != Correct
      ensures rules[i] == Present
    {
      MissedAfter(guess, answer, i, j);
    }
  }

  /** A guess letter that the answer does not hold is always Absent. */
  lemma ForeignLetterIsAbsent(guess: string, answer: string, i: nat)
    requires |guess| == WordLength && |answer| == WordLength && i < WordLength
    requires forall j | 0 <= j < WordLength :: answer[j] != guess[i]
    ensures Response(guess, answer)[i] == Absent
  {
    UnmatchedOfAbsentLetter(guess, answer, guess[i], WordLength);
  }

  /** A guess sharing no letter with the answer gets five Absent marks. */
  lemma DisjointWordsAllAbsent(guess: string, answer: string)
    requires |guess| == WordLength && |answer| == WordLength
    requires forall i, j | 0 <= i < WordLength && 0 <= j < WordLength :: guess[i] != answer[j]
    ensures forall i | 0 <= i < WordLength :: Response(guess, answer)[i] == Absent
  {
    forall i | 0 <= i < WordLength
      ensures Response(guess, answer)[i] == Absent
    {
      ForeignLetterIsAbsent(guess, answer, i);
    }
  }

  /** The worked duplicate-letter case: "sassy" against "grass" is Present, Present, Absent, Correct, Absent. */
  lemma SassyAgainstGrass()
    ensures Response("sassy", "grass") == [Present, Present, Absent, Correct, Absent]
  {
    var r := Response("sassy", "grass");
    assert Unmatched("sassy", "grass", 's', 5) == 1;
    assert Unmatched("sassy", "grass", 'a', 5) == 1;
    assert Unmatched("sassy", "grass", 'y', 5) == 0;
    assert Missed("sassy", "grass", 's', 2) == 1;
    assert r[2] == Absent;
  }
}
