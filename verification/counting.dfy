/**
 Letter counting over five-letter words. Every count is taken over a prefix of
 positions `0 .. n-1`, so that proofs can proceed by induction on `n`.

 For a guess `g` and an answer `a` of equal length, each position either
 matches (`g[j] == a[j]`) or misses. The answer letters at missed positions are
 the "unmatched" copies that the second pass of feedback derivation may award
 as Present; the guess letters at missed positions are the "missed" copies that
 compete for them.
 */
module Counting {

  /** Number of positions j < n at which `s` holds the letter `c`. */
  function Count(s: seq<char>, c: char, n: nat): (k: nat)
    requires n <= |s|
    ensures k <= n
  {
    if n == 0 then 0 else Count(s, c, n - 1) + (if s[n - 1] == c then 1 else 0)
  }

  /** Number of copies of `c` in `s`. */
  function Occurrences(s: seq<char>, c: char): nat
  {
    Count(s, c, |s|)
  }

  /** Positions j < n where guess and answer agree and hold `c`. */
  function Matched(guess: seq<char>, answer: seq<char>, c: char, n: nat): nat
    requires n <= |guess| == |answer|
  {
    if n == 0 then 0
    else Matched(guess, answer, c, n - 1) + (if guess[n - 1] == answer[n - 1] && guess[n - 1] == c then 1 else 0)
  }

  /** Positions j < n where the guess misses and the answer holds `c`. */
  function Unmatched(guess: seq<char>, answer: seq<char>, c: char, n: nat): nat
    requires n <= |guess| == |answer|
  {
    if n == 0 then 0
    else Unmatched(guess, answer, c, n - 1) + (if guess[n - 1] != answer[n - 1] && answer[n - 1] == c then 1 else 0)
  }

  /** Positions j < n where the guess misses and the guess holds `c`. */
  function Missed(guess: seq<char>, answer: seq<char>, c: char, n: nat): nat
    requires n <= |guess| == |answer|
  {
    if n == 0 then 0
    else Missed(guess, answer, c, n - 1) + (if guess[n - 1] != answer[n - 1] && guess[n - 1] == c then 1 else 0)
  }

  /** A letter occurs in a prefix exactly when the prefix count is positive. */
  lemma {:induction false} CountPositive(s: seq<char>, c: char, n: nat)
    requires n <= |s|
    ensures Count(s, c, n) > 0 <==> exists j | 0 <= j < n :: s[j] == c
  {
    if n > 0 {
      CountPositive(s, c, n - 1);
      if s[n - 1] == c {
        assert exists j | 0 <= j < n :: s[j] == c;
      } else if exists j | 0 <= j < n :: s[j] == c {
        var j :| 0 <= j < n && s[j] == c;
        assert j < n - 1;
      }
    }
  }

  /** A letter occurs in a word exactly when its number of occurrences is positive. */
  lemma OccursIff(s: seq<char>, c: char)
    ensures Occurrences(s, c) > 0 <==> c in s
  {
    CountPositive(s, c, |s|);
    if c in s {
      var j :| 0 <= j < |s| && s[j] == c;
    }
  }

  /** The copies of `c` in the answer are the matched ones plus the unmatched ones. */
  lemma {:induction false} AnswerCountSplits(guess: seq<char>, answer: seq<char>, c: char, n: nat)
    requires n <= |guess| == |answer|
    ensures Count(answer, c, n) == Matched(guess, answer, c, n) + Unmatched(guess, answer, c, n)
  {
    if n > 0 {
      AnswerCountSplits(guess, answer, c, n - 1);
    }
  }

  /** The copies of `c` in the guess are the matched ones plus the missed ones. */
  lemma {:induction false} GuessCountSplits(guess: seq<char>, answer: seq<char>, c: char, n: nat)
    requires n <= |guess| == |answer|
    ensures Count(guess, c, n) == Matched(guess, answer, c, n) + Missed(guess, answer, c, n)
  {
    if n > 0 {
      GuessCountSplits(guess, answer, c, n - 1);
    }
  }

  /** Missed copies can only accumulate along the word. */
  lemma {:induction false} MissedMonotone(guess: seq<char>, answer: seq<char>, c: char, m: nat, n: nat)
    requires m <= n <= |guess| == |answer|
    ensures Missed(guess, answer, c, m) <= Missed(guess, answer, c, n)
  {
    if m < n {
      MissedMonotone(guess, answer, c, m, n - 1);
    }
  }

  /** A missed position holding `c` is counted by every longer prefix. */
  lemma {:induction false} MissedAfter(guess: seq<char>, answer: seq<char>, i: nat, n: nat)
    requires i < n <= |guess| == |answer|
    requires guess[i] != answer[i]
    ensures Missed(guess, answer, guess[i], i) < Missed(guess, answer, guess[i], n)
  {
    MissedMonotone(guess, answer, guess[i], i + 1, n);
  }

  /** A letter that does not occur in the answer has no unmatched copies. */
  lemma {:induction false} UnmatchedOfAbsentLetter(guess: seq<char>, answer: seq<char>, c: char, n: nat)
    requires n <= |guess| == |answer|
    requires forall j | 0 <= j < |answer| :: answer[j] != c
    ensures Unmatched(guess, answer, c, n) == 0
  {
    if n > 0 {
      UnmatchedOfAbsentLetter(guess, answer, c, n - 1);
    }
  }

  /**
   Matched and missed counts depend only on WHICH positions match: two answers
   that match the guess at the same positions give the same counts.
   */
  lemma {:induction false} SameMatchPositions(guess: seq<char>, a: seq<char>, b: seq<char>, c: char, n: nat)
    requires n <= |guess| == |a| == |b|
    requires forall j | 0 <= j < n :: (guess[j] == a[j]) == (guess[j] == b[j])
    ensures Matched(guess, a, c, n) == Matched(guess, b, c, n)
    ensures Missed(guess, a, c, n) == Missed(guess, b, c, n)
  {
    if n > 0 {
      SameMatchPositions(guess, a, b, c, n - 1);
    }
  }

  /**
   If a word `w` agrees with the guess wherever the answer does, and also holds
   `c` at a position `i` where the answer misses, then `w` holds more copies of
   `c` than there are matched copies: at least one per match, plus one.
   */
  lemma {:induction false} CountExceedsMatched(w: seq<char>, guess: seq<char>, answer: seq<char>, c: char, i: nat, n: nat)
    requires n <= |w| == |guess| == |answer|
    requires forall j | 0 <= j < n :: guess[j] == answer[j] ==> w[j] == guess[j]
    requires i < |w| && guess[i] != answer[i]
    ensures Count(w, c, n) >= Matched(guess, answer, c, n) + (if i < n && w[i] == c then 1 else 0)
  {
    if n > 0 {
      CountExceedsMatched(w, guess, answer, c, i, n - 1);
    }
  }
}
