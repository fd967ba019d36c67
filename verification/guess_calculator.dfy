/**
 Scoring candidate guesses. For every guess and every possible answer the
 solver derives the feedback, reduces the pool with it and adds the fraction of
 the pool eliminated; guessing the answer itself eliminates the whole pool.
 The guesses are split into four contiguous shards, one per worker; each
 worker reports progress in batches of its own size, and the workers' score
 maps are merged into one.

 Scores are kept as integer numerators over the pool size: a pair contributes
 |pool| when the guess is the answer and |pool| - |reduced| otherwise, so a
 guess's score is its numerator divided by |pool|.
 */
module GuessCalculator {
  import opened WordRules
  import opened Wordlist
  import opened ReductionFacts

  /** The number of workers the guesses are split across. */
  const WorkerCount := 4

  /** The progress batch size of each worker. */
  const ReportingRates: seq<nat> := [2, 3, 5, 7]

  /** Every pool word is five letters long, as an answer must be. */
  predicate FiveLetterPool(words: set<string>)
  {
    forall w | w in words :: |w| == WordLength
  }

  /** A pool the scorer can work on: a well-formed index over five-letter words. */
  ghost predicate ScorablePool(wl: Wordlist)
  {
    Valid(wl) && FiveLetterPool(wl.allWords)
  }

  /** No element occurs twice. */
  predicate Distinct<T(==)>(s: seq<T>)
  {
    forall i, j | 0 <= i < j < |s| :: s[i] != s[j]
  }

  /** The elements of a sequence. */
  function Members<T>(s: seq<T>): set<T>
  {
    set x | x in s
  }

  /** A slice of a sequence without repeats has no repeats. */
  lemma SliceOfDistinct<T>(s: seq<T>, lo: nat, hi: nat)
    requires Distinct(s) && lo <= hi <= |s|
    ensures Distinct(s[lo..hi])
  {
    forall a, b | 0 <= a < b < hi - lo
      ensures s[lo..hi][a] != s[lo..hi][b]
    {
      assert s[lo..hi][a] == s[lo + a] && s[lo..hi][b] == s[lo + b];
    }
  }

  /** The members of a prefix up to hi are those up to lo plus those of the slice between. */
  lemma SliceMembers<T>(s: seq<T>, lo: nat, hi: nat)
    requires lo <= hi <= |s|
    ensures Members(s[..hi]) == Members(s[..lo]) + Members(s[lo..hi])
    ensures Members(s[lo..hi]) <= Members(s)
  {
    assert s[..hi] == s[..lo] + s[lo..hi];
    forall x | x in s[lo..hi]
      ensures x in s
    {
      var k :| 0 <= k < hi - lo && s[lo..hi][k] == x;
      assert s[lo + k] == x;
    }
  }

  /** A whole prefix is the sequence; a prefix of a longer prefix is the shorter prefix. */
  lemma Prefixes<T>(s: seq<T>, i: nat)
    requires i < |s|
    ensures s[..|s|] == s
    ensures s[..i + 1][..i] == s[..i]
  {
  }

  /**
   The members of a non-empty sequence are those of its front and its last
   element; in a sequence without repeats the front has none either and does
   not hold the last element.
   */
  lemma FrontOfDistinct<T>(s: seq<T>)
    requires s != []
    ensures Members(s) == Members(s[..|s| - 1]) + {s[|s| - 1]}
    ensures forall x | x in s :: x in s[..|s| - 1] || x == s[|s| - 1]
    ensures forall x | x in s[..|s| - 1] :: x in s
    ensures Distinct(s) ==> Distinct(s[..|s| - 1]) && s[|s| - 1] !in s[..|s| - 1]
  {
    assert s == s[..|s| - 1] + [s[|s| - 1]];
  }

  /** `answers` lists every word of `words` exactly once, in some order. */
  predicate Enumerates(answers: seq<string>, words: set<string>)
  {
    Members(answers) == words && |answers| == |words|
  }

  /** A sequence lists a set exactly once each precisely when it covers the set without repeats. */
  lemma EnumerationIsDistinct(answers: seq<string>, words: set<string>)
    ensures Enumerates(answers, words) <==> Members(answers) == words && Distinct(answers)
  {
    if Members(answers) == words && Distinct(answers) {
      DistinctCardinality(answers);
    }
    if Enumerates(answers, words) && !Distinct(answers) {
      var i, j :| 0 <= i < j < |answers| && answers[i] == answers[j];
      RepeatShrinksMembers(answers, i, j);
      assert false;
    }
  }

  /** A sequence with a repeat has fewer members than elements. */
  lemma {:induction false} RepeatShrinksMembers<T>(s: seq<T>, i: nat, j: nat)
    requires i < j < |s| && s[i] == s[j]
    ensures |Members(s)| < |s|
  {
    var front := s[..|s| - 1];
    FrontOfDistinct(s);
    MembersBounded(front);
    if j == |s| - 1 {
      assert s[j] in front by { assert front[i] == s[j]; }
      assert Members(s) == Members(front);
    } else {
      assert front[i] == front[j];
      RepeatShrinksMembers(front, i, j);
    }
  }

  /** A sequence has at most as many members as elements. */
  lemma {:induction false} MembersBounded<T>(s: seq<T>)
    ensures |Members(s)| <= |s|
  {
    if s != [] {
      FrontOfDistinct(s);
      MembersBounded(s[..|s| - 1]);
    }
  }

  /** A sequence without repeats has as many elements as it has members. */
  lemma {:induction false} DistinctCardinality<T>(s: seq<T>)
    requires Distinct(s)
    ensures |Members(s)| == |s|
  {
    if s != [] {
      var front := s[..|s| - 1];
      DistinctCardinality(front);
      assert Members(s) == Members(front) + {s[|s| - 1]};
      assert s[|s| - 1] !in Members(front);
    }
  }

  /** The pool words whose feedback for `guess` differs from the answer's: those the feedback rules out. */
  function Eliminated(pool: set<string>, guess: string, answer: string): (out: set<string>)
    requires FiveLetterPool(pool) && IsWord(guess) && |answer| == WordLength
    ensures out <= pool
  {
    set w | w in pool && Response(guess, w) != Response(guess, answer)
  }

  /** The feedback for `guess` is the same on `w` as on `answer` at each of the first n positions. */
  predicate AgreeUpTo(guess: string, w: string, answer: string, n: nat)
    requires n <= |guess| == |w| == |answer|
  {
    n == 0 || (AgreeUpTo(guess, w, answer, n - 1) && RuleAt(guess, w, n - 1) == RuleAt(guess, answer, n - 1))
  }

  /** Position-by-position agreement is agreement at every position before n. */
  lemma {:induction false} AgreeUpToEveryPosition(guess: string, w: string, answer: string, n: nat)
    requires n <= |guess| == |w| == |answer|
    ensures AgreeUpTo(guess, w, answer, n) <==> forall i | 0 <= i < n :: RuleAt(guess, w, i) == RuleAt(guess, answer, i)
  {
    if n > 0 {
      AgreeUpToEveryPosition(guess, w, answer, n - 1);
    }
  }

  /** Agreement at all five positions is equal feedback. */
  lemma AgreeIsSameResponse(guess: string, w: string, answer: string)
    requires |guess| == |w| == |answer| == WordLength
    ensures AgreeUpTo(guess, w, answer, |guess|) <==> Response(guess, w) == Response(guess, answer)
  {
    AgreeUpToEveryPosition(guess, w, answer, |guess|);
    if Response(guess, w) == Response(guess, answer) {
      forall i | 0 <= i < WordLength
        ensures RuleAt(guess, w, i) == RuleAt(guess, answer, i)
      {
        assert Response(guess, w)[i] == Response(guess, answer)[i];
      }
    }
  }

  /** Some word of a non-empty pool. */
  ghost function Pick(words: set<string>): (w: string)
    requires words != {}
    ensures w in words
  {
    var w :| w in words; w
  }

  /**
   The number of pool words whose feedback for `guess` differs from the
   answer's, counted one word at a time.
   */
  ghost function DifferingCount(pool: set<string>, guess: string, answer: string): (k: nat)
    requires FiveLetterPool(pool) && IsWord(guess) && |answer| == WordLength
    ensures k <= |pool|
    decreases pool
  {
    if pool == {} then 0
    else
      var w := Pick(pool);
      DifferingCount(pool - {w}, guess, answer) + (if AgreeUpTo(guess, w, answer, |guess|) then 0 else 1)
  }

  /** Counting word by word finds exactly the eliminated words. */
  lemma {:induction false} DifferingCountIsEliminated(pool: set<string>, guess: string, answer: string)
    requires FiveLetterPool(pool) && IsWord(guess) && |answer| == WordLength
    ensures DifferingCount(pool, guess, answer) == |Eliminated(pool, guess, answer)|
    decreases pool
  {
    if pool != {} {
      var w := Pick(pool);
      var rest := pool - {w};
      DifferingCountIsEliminated(rest, guess, answer);
      AgreeIsSameResponse(guess, w, answer);
      if Response(guess, w) != Response(guess, answer) {
        assert Eliminated(pool, guess, answer) == Eliminated(rest, guess, answer) + {w};
      } else {
        assert Eliminated(pool, guess, answer) == Eliminated(rest, guess, answer);
      }
    }
  }

  /** Removing a subset removes exactly its members. */
  lemma RemovedCount<T>(whole: set<T>, part: set<T>)
    requires part <= whole
    ensures |whole - part| == |whole| - |part|
  {
    assert whole == (whole - part) + part;
  }

  /**
   The numerator of the reduction one (guess, answer) pair contributes: the
   whole pool when the guess is the answer, else the number of pool words the
   answer's feedback rules out.
   */
  ghost function PairReduction(pool: set<string>, guess: string, answer: string): (n: nat)
    requires FiveLetterPool(pool) && IsWord(guess) && answer in pool
    ensures n <= |pool|
  {
    if guess == answer then |pool| else DifferingCount(pool, guess, answer)
  }

  /**
   A pair rules out the whole pool exactly when the guess is the answer, and
   otherwise rules out exactly the words the reduction engine drops: the
   reduction derived from the engine's result is the brute-force count.
   */
  lemma PairReductionByEngine(wl: Wordlist, guess: string, answer: string)
    requires ScorablePool(wl) && IsWord(guess) && answer in wl.allWords
    ensures PairReduction(wl.allWords, guess, answer) == |wl.allWords| <==> guess == answer
    ensures guess != answer ==>
              && ReducedWords(wl, guess, Response(guess, answer)).Ok?
              && PairReduction(wl.allWords, guess, answer)
                 == |wl.allWords| - |ReducedWords(wl, guess, Response(guess, answer)).value|
  {
    if guess != answer {
      ReductionMatchesBruteForce(wl, guess, answer);
      var pool := wl.allWords;
      var kept := ReducedWords(wl, guess, Response(guess, answer)).value;
      assert kept == pool - Eliminated(pool, guess, answer);
      RemovedCount(pool, Eliminated(pool, guess, answer));
      DifferingCountIsEliminated(pool, guess, answer);
      assert answer in kept;
    }
  }

  /** k copies of p are k - 1 copies and one more. */
  lemma MultiplyStep(k: nat, p: nat)
    requires k > 0
    ensures (k - 1) * p + p == k * p
  {
  }

  /** The score numerator of `guess`: its pair reductions summed over `answers`. */
  ghost function ScoreNumerator(pool: set<string>, guess: string, answers: seq<string>): (total: nat)
    requires FiveLetterPool(pool) && IsWord(guess)
    requires forall a | a in answers :: a in pool
    ensures total <= |answers| * |pool|
  {
    if answers == [] then 0
    else
      var front := answers[..|answers| - 1];
      assert forall a | a in front :: a in answers;
      var total := ScoreNumerator(pool, guess, front) + PairReduction(pool, guess, answers[|answers| - 1]);
      MultiplyStep(|answers|, |pool|);
      total
  }

  /** A guess that is itself among the answers scores at least a whole pool. */
  lemma {:induction false} ScoreOfPossibleAnswer(pool: set<string>, guess: string, answers: seq<string>)
    requires FiveLetterPool(pool) && IsWord(guess)
    requires forall a | a in answers :: a in pool
    requires guess in answers
    ensures ScoreNumerator(pool, guess, answers) >= |pool|
  {
    var front := answers[..|answers| - 1];
    assert forall a | a in front :: a in answers;
    if guess != answers[|answers| - 1] {
      assert guess in front;
      ScoreOfPossibleAnswer(pool, guess, front);
    }
  }

  /**
   Over an enumeration of the pool, a score numerator is at most |pool|^2, so
   every score (the numerator divided by |pool|) lies between 0 and |pool|.
   */
  lemma ScoreBounded(pool: set<string>, guess: string, answers: seq<string>)
    requires FiveLetterPool(pool) && IsWord(guess) && Enumerates(answers, pool)
    ensures ScoreNumerator(pool, guess, answers) <= |pool| * |pool|
  {
  }

  /** The sum of a sequence of progress reports. */
  function Sum(reports: seq<nat>): nat
  {
    if reports == [] then 0 else Sum(reports[..|reports| - 1]) + reports[|reports| - 1]
  }

  /** Taking one more answer into a score adds that answer's pair reduction. */
  lemma ScoreNumeratorStep(pool: set<string>, guess: string, answers: seq<string>, i: nat)
    requires FiveLetterPool(pool) && IsWord(guess) && i < |answers|
    requires forall a | a in answers :: a in pool
    ensures forall a | a in answers[..i] :: a in pool
    ensures ScoreNumerator(pool, guess, answers[..i + 1])
            == ScoreNumerator(pool, guess, answers[..i]) + PairReduction(pool, guess, answers[i])
  {
    assert forall a | a in answers[..i] :: a in answers;
    Prefixes(answers, i);
  }

  /**
   The reduction numerator of one (guess, answer) pair, derived as the solver
   does: a correct guess eliminates the whole pool; otherwise the feedback is
   derived and the pool reduced with it. The reduction never fails and never
   comes out empty, because the answer itself always survives.
   */
  method ReductionMagnitude(wl: Wordlist, guess: string, answer: string) returns (n: nat)
    requires ScorablePool(wl) && IsWord(guess) && answer in wl.allWords
    ensures n == PairReduction(wl.allWords, guess, answer)
  {
    if guess == answer {
      return |wl.allWords|;
    }
    var response := ResponseForGuess(guess, answer);
    PairReductionByEngine(wl, guess, answer);
    var reduced := ReducedWords(wl, guess, response);
    n := |wl.allWords| - |reduced.value|;
  }

  /** Some position before n of `s` holds x. */
  predicate InPrefix<T(==)>(s: seq<T>, n: nat, x: T)
    requires n <= |s|
  {
    exists k | 0 <= k < n :: s[k] == x
  }

  /** `acc` with the first n guesses, in order, each credited its reduction for `answer`. */
  ghost function Credited(pool: set<string>, answer: string, guesses: seq<string>, n: nat, acc: map<string, nat>): map<string, nat>
    requires FiveLetterPool(pool) && answer in pool
    requires forall k | 0 <= k < |guesses| :: IsWord(guesses[k])
    requires n <= |guesses|
  {
    if n == 0 then acc
    else
      var prior := Credited(pool, answer, guesses, n - 1, acc);
      var guess := guesses[n - 1];
      prior[guess := (if guess in prior then prior[guess] else 0) + PairReduction(pool, guess, answer)]
  }

  /**
   Crediting distinct guesses enters every guess and adds its reduction to its
   previous entry exactly once; other entries are unchanged.
   */
  lemma {:induction false} CreditedSpec(pool: set<string>, answer: string, guesses: seq<string>, n: nat, acc: map<string, nat>)
    requires FiveLetterPool(pool) && answer in pool
    requires forall k | 0 <= k < |guesses| :: IsWord(guesses[k])
    requires Distinct(guesses) && n <= |guesses|
    ensures forall g :: g in Credited(pool, answer, guesses, n, acc) <==> g in acc || InPrefix(guesses, n, g)
    ensures forall g | g in Credited(pool, answer, guesses, n, acc) ::
              Credited(pool, answer, guesses, n, acc)[g]
              == (if g in acc then acc[g] else 0) + (if InPrefix(guesses, n, g) then PairReduction(pool, g, answer) else 0)
  {
    if n > 0 {
      CreditedSpec(pool, answer, guesses, n - 1, acc);
      var prior := Credited(pool, answer, guesses, n - 1, acc);
      var result := Credited(pool, answer, guesses, n, acc);
      var guess := guesses[n - 1];
      assert !InPrefix(guesses, n - 1, guess);
      forall g
        ensures InPrefix(guesses, n, g) <==> InPrefix(guesses, n - 1, g) || g == guess
      {
        if InPrefix(guesses, n, g) && g != guess {
          var k :| 0 <= k < n && guesses[k] == g;
          assert k < n - 1;
        }
      }
      forall g | g in result
        ensures result[g] == (if g in acc then acc[g] else 0) + (if InPrefix(guesses, n, g) then PairReduction(pool, g, answer) else 0)
      {
        if g != guess {
          assert result[g] == prior[g];
        }
      }
    }
  }

  /** Crediting one more guess extends the credit of the guesses before it. */
  lemma CreditOne(pool: set<string>, answer: string, guesses: seq<string>, j: nat, acc: map<string, nat>,
                  prior: map<string, nat>, n: nat)
    requires FiveLetterPool(pool) && answer in pool
    requires forall k | 0 <= k < |guesses| :: IsWord(guesses[k])
    requires j < |guesses| && prior == Credited(pool, answer, guesses, j, acc)
    requires n == PairReduction(pool, guesses[j], answer)
    ensures prior[guesses[j] := (if guesses[j] in prior then prior[guesses[j]] else 0) + n]
            == Credited(pool, answer, guesses, j + 1, acc)
  {
  }

  /** Crediting all of the distinct guesses credits each guess once and leaves other entries alone. */
  lemma CreditedAll(pool: set<string>, answer: string, guesses: seq<string>, acc: map<string, nat>)
    requires FiveLetterPool(pool) && answer in pool
    requires forall k | 0 <= k < |guesses| :: IsWord(guesses[k])
    requires Distinct(guesses)
    ensures Credited(pool, answer, guesses, |guesses|, acc).Keys == acc.Keys + Members(guesses)
    ensures forall g | g in Credited(pool, answer, guesses, |guesses|, acc) ::
              Credited(pool, answer, guesses, |guesses|, acc)[g]
              == (if g in acc then acc[g] else 0) + (if g in guesses then PairReduction(pool, g, answer) else 0)
  {
    CreditedSpec(pool, answer, guesses, |guesses|, acc);
    assert forall x :: InPrefix(guesses, |guesses|, x) <==> x in guesses;
  }

  /** Adds to each guess's entry its reduction for one answer, entering the guesses not yet present. */
  method AddAnswer(wl: Wordlist, answer: string, guesses: seq<string>, acc: map<string, nat>)
    returns (updated: map<string, nat>)
    requires ScorablePool(wl) && answer in wl.allWords
    requires forall g | g in guesses :: IsWord(g)
    requires Distinct(guesses)
    ensures updated.Keys == acc.Keys + Members(guesses)
    ensures forall g | g in updated ::
              updated[g] == (if g in acc then acc[g] else 0) + (if g in guesses then PairReduction(wl.allWords, g, answer) else 0)
  {
    assert forall k | 0 <= k < |guesses| :: IsWord(guesses[k]);
    updated := acc;
    for j := 0 to |guesses|
      invariant updated == Credited(wl.allWords, answer, guesses, j, acc)
    {
      var guess := guesses[j];
      var reductionMagnitude := ReductionMagnitude(wl, guess, answer);
      var previous := if guess in updated then updated[guess] else 0;
      CreditOne(wl.allWords, answer, guesses, j, acc, updated, reductionMagnitude);
      updated := updated[guess := previous + reductionMagnitude];
    }
    CreditedAll(wl.allWords, answer, guesses, acc);
  }

  /**
   `scores` holds, for each guess, its score numerator over the first i
   answers; before the first answer it is empty.
   */
  ghost predicate ScoresSoFar(pool: set<string>, answers: seq<string>, i: nat, guesses: seq<string>, scores: map<string, nat>)
    requires FiveLetterPool(pool) && forall a | a in answers :: a in pool
    requires forall g | g in guesses :: IsWord(g)
  {
    && i <= |answers|
    && scores.Keys == (if i == 0 then {} else Members(guesses))
    && forall g | g in scores :: g in guesses && scores[g] == ScoreNumerator(pool, g, answers[..i])
  }

  /** Adding answer i's pair reductions to the scores over the first i answers gives the scores over i + 1. */
  lemma ScoresAdvance(pool: set<string>, answers: seq<string>, i: nat, guesses: seq<string>,
                      before: map<string, nat>, after: map<string, nat>)
    requires FiveLetterPool(pool) && forall a | a in answers :: a in pool
    requires forall g | g in guesses :: IsWord(g)
    requires i < |answers| && ScoresSoFar(pool, answers, i, guesses, before)
    requires after.Keys == before.Keys + Members(guesses)
    requires forall g | g in after ::
               after[g] == (if g in before then before[g] else 0) + (if g in guesses then PairReduction(pool, g, answers[i]) else 0)
    ensures ScoresSoFar(pool, answers, i + 1, guesses, after)
  {
    forall g | g in after
      ensures g in guesses && after[g] == ScoreNumerator(pool, g, answers[..i + 1])
    {
      ScoreNumeratorStep(pool, g, answers, i);
    }
  }

  /** The scores over all the answers are the score numerators. */
  lemma ScoresComplete(pool: set<string>, answers: seq<string>, guesses: seq<string>, scores: map<string, nat>)
    requires FiveLetterPool(pool) && forall a | a in answers :: a in pool
    requires forall g | g in guesses :: IsWord(g)
    requires ScoresSoFar(pool, answers, |answers|, guesses, scores)
    ensures answers != [] ==> scores.Keys == Members(guesses)
    ensures answers == [] ==> scores == map[]
    ensures forall g | g in scores :: g in guesses && scores[g] == ScoreNumerator(pool, g, answers)
  {
    if answers != [] {
      Prefixes(answers, 0);
    }
  }

  /** Adds answer i's pair reductions to the scores over the answers before it. */
  method ScoreAnswer(wl: Wordlist, answers: seq<string>, i: nat, guesses: seq<string>, scores: map<string, nat>)
    returns (scores': map<string, nat>)
    requires ScorablePool(wl) && forall a | a in answers :: a in wl.allWords
    requires forall g | g in guesses :: IsWord(g)
    requires Distinct(guesses)
    requires i < |answers| && ScoresSoFar(wl.allWords, answers, i, guesses, scores)
    ensures ScoresSoFar(wl.allWords, answers, i + 1, guesses, scores')
  {
    scores' := AddAnswer(wl, answers[i], guesses, scores);
    ScoresAdvance(wl.allWords, answers, i, guesses, scores, scores');
  }

  /**
   Counts one more answer done; once a full batch of `reportingRate` answers is
   done, it is reported and the count starts again from zero.
   */
  method CountCompletion(reports: seq<nat>, completionCount: nat, reportingRate: nat)
    returns (reports': seq<nat>, completionCount': nat)
    requires completionCount < reportingRate
    ensures completionCount' < reportingRate
    ensures Sum(reports') + completionCount' == Sum(reports) + completionCount + 1
    ensures reports' == reports || reports' == reports + [reportingRate]
  {
    completionCount' := completionCount + 1;
    reports' := reports;
    if completionCount' == reportingRate {
      assert (reports + [completionCount'])[..|reports|] == reports;
      reports' := reports + [completionCount'];
      completionCount' := 0;
    }
  }

  /** Reports the answers done since the last full batch, if there are any. */
  method FlushProgress(reports: seq<nat>, completionCount: nat, reportingRate: nat) returns (reports': seq<nat>)
    requires completionCount < reportingRate
    requires forall k | 0 <= k < |reports| :: reports[k] == reportingRate
    ensures Sum(reports') == Sum(reports) + completionCount
    ensures forall k | 0 <= k < |reports'| :: 0 < reports'[k] <= reportingRate
    ensures forall k | 0 <= k < |reports'| - 1 :: reports'[k] == reportingRate
  {
    reports' := reports;
    if completionCount > 0 {
      assert (reports + [completionCount])[..|reports|] == reports;
      reports' := reports + [completionCount];
    }
  }

  /**
   One worker: scores each of its guesses against every answer of the pool,
   taken in the order `answers` lists them, and reports progress after every
   `reportingRate` answers, then once more for any answers left over.
   Returns the scores and the progress reports in the order made.
   */
  method RunWorker(wl: Wordlist, answers: seq<string>, guesses: seq<string>, reportingRate: nat)
    returns (guessExpectation: map<string, nat>, reports: seq<nat>)
    requires ScorablePool(wl) && forall a | a in answers :: a in wl.allWords
    requires forall g | g in guesses :: IsWord(g)
    requires Distinct(guesses)
    requires reportingRate > 0
    ensures answers != [] ==> guessExpectation.Keys == Members(guesses)
    ensures answers == [] ==> guessExpectation == map[]
    ensures forall g | g in guessExpectation :: g in guesses && guessExpectation[g] == ScoreNumerator(wl.allWords, g, answers)
    ensures Sum(reports) == |answers|
    ensures forall k | 0 <= k < |reports| :: 0 < reports[k] <= reportingRate
    ensures forall k | 0 <= k < |reports| - 1 :: reports[k] == reportingRate
  {
    guessExpectation := map[];
    reports := [];
    var completionCount := 0;
    ghost var pool := wl.allWords;
    for i := 0 to |answers|
      invariant 0 <= completionCount < reportingRate
      invariant Sum(reports) + completionCount == i
      invariant forall k | 0 <= k < |reports| :: reports[k] == reportingRate
      invariant ScoresSoFar(pool, answers, i, guesses, guessExpectation)
    {
      guessExpectation := ScoreAnswer(wl, answers, i, guesses, guessExpectation);
      reports, completionCount := CountCompletion(reports, completionCount, reportingRate);
    }
    reports := FlushProgress(reports, completionCount, reportingRate);
    ScoresComplete(pool, answers, guesses, guessExpectation);
  }

  /** Shard i's share of n guesses: n / 4, plus one for each of the first n % 4 shards. */
  function ShardSize(n: nat, i: nat): (size: nat)
    ensures n / WorkerCount <= size <= n / WorkerCount + 1
    ensures size == n / WorkerCount + 1 <==> i < n % WorkerCount
  {
    n / WorkerCount + (if i < n % WorkerCount then 1 else 0)
  }

  /** Where shard i starts: after the shares of the shards before it. */
  function ShardStart(n: nat, i: nat): nat
    requires i <= WorkerCount
  {
    if i == 0 then 0 else ShardStart(n, i - 1) + ShardSize(n, i - 1)
  }

  /** Shard i starts after i base workloads plus one extra guess for each earlier shard with a share of the remainder. */
  lemma {:induction false} ShardStartClosedForm(n: nat, i: nat)
    requires i <= WorkerCount
    ensures ShardStart(n, i) == i * (n / WorkerCount) + (if i < n % WorkerCount then i else n % WorkerCount)
  {
    if i > 0 {
      ShardStartClosedForm(n, i - 1);
    }
  }

  /** The four shares add up to all n guesses. */
  lemma ShardsFillGuesses(n: nat)
    ensures ShardStart(n, WorkerCount) == n
  {
    assert ShardStart(n, 1) == ShardSize(n, 0);
    assert ShardStart(n, 2) == ShardStart(n, 1) + ShardSize(n, 1);
    assert ShardStart(n, 3) == ShardStart(n, 2) + ShardSize(n, 2);
    assert ShardStart(n, 4) == ShardStart(n, 3) + ShardSize(n, 3);
  }

  /** Shard starts never decrease. */
  lemma {:induction false} ShardStartMonotone(n: nat, i: nat, j: nat)
    requires i <= j <= WorkerCount
    ensures ShardStart(n, i) <= ShardStart(n, j)
  {
    if i < j {
      ShardStartMonotone(n, i, j - 1);
    }
  }

  /** Every shard lies within the n guesses. */
  lemma ShardWithinGuesses(n: nat, i: nat)
    requires i < WorkerCount
    ensures ShardStart(n, i) <= ShardStart(n, i + 1) <= n
  {
    ShardsFillGuesses(n);
    ShardStartMonotone(n, i + 1, WorkerCount);
  }

  /**
   The shard bounds: worker i takes the guesses at positions bounds[i].0 up to,
   but not including, bounds[i].1. The shards start at 0, follow one another
   without gap or overlap, end at n, and shard i holds ShardSize(n, i) guesses.
   */
  method Partition(n: nat) returns (bounds: seq<(nat, nat)>)
    ensures |bounds| == WorkerCount
    ensures bounds[0].0 == 0 && bounds[WorkerCount - 1].1 == n
    ensures forall i | 0 <= i < WorkerCount - 1 :: bounds[i].1 == bounds[i + 1].0
    ensures forall i | 0 <= i < WorkerCount :: bounds[i].0 <= bounds[i].1 && bounds[i].1 - bounds[i].0 == ShardSize(n, i)
    ensures forall i | 0 <= i < WorkerCount :: bounds[i] == (ShardStart(n, i), ShardStart(n, i + 1))
  {
    var baseWorkload := n / WorkerCount;
    var workloadRemainder := n % WorkerCount;
    var position := 0;
    bounds := [];
    ShardsFillGuesses(n);
    for i := 0 to WorkerCount
      invariant |bounds| == i
      invariant position == ShardStart(n, i)
      invariant forall k | 0 <= k < i :: bounds[k] == (ShardStart(n, k), ShardStart(n, k + 1))
    {
      var workload := baseWorkload + (if i < workloadRemainder then 1 else 0);
      assert workload == ShardSize(n, i);
      ShardWithinGuesses(n, i);
      var end := if position + workload < n then position + workload else n;
      assert end == ShardStart(n, i + 1);
      bounds := bounds + [(position, end)];
      position := end;
    }
    forall i | 0 <= i < WorkerCount
      ensures bounds[i].0 <= bounds[i].1 && bounds[i].1 - bounds[i].0 == ShardSize(n, i)
    {
      ShardWithinGuesses(n, i);
    }
  }

  /** Shard sizes differ by at most one, and larger shards come first. */
  lemma ShardsBalanced(n: nat, i: nat, j: nat)
    requires i < j < WorkerCount
    ensures ShardSize(n, j) <= ShardSize(n, i) <= ShardSize(n, j) + 1
  {
  }

  /** The shard that holds guess position k. */
  function ShardOf(n: nat, k: nat): (i: nat)
    requires k < n
    ensures i < WorkerCount && ShardStart(n, i) <= k < ShardStart(n, i + 1)
  {
    ShardsFillGuesses(n);
    if k < ShardStart(n, 1) then 0
    else if k < ShardStart(n, 2) then 1
    else if k < ShardStart(n, 3) then 2
    else 3
  }

  /** Every guess position belongs to exactly one shard. */
  lemma ShardsCover(n: nat, k: nat, i: nat)
    requires k < n && i < WorkerCount
    ensures ShardStart(n, i) <= k < ShardStart(n, i + 1) <==> i == ShardOf(n, k)
  {
    var s := ShardOf(n, k);
    if i < s {
      ShardStartMonotone(n, i + 1, s);
    } else if s < i {
      ShardStartMonotone(n, s + 1, i);
    }
  }

  /** The guesses shard i of `guesses` holds. */
  function Shard(guesses: seq<string>, i: nat): (shard: seq<string>)
    requires i < WorkerCount
    ensures forall g | g in shard :: g in guesses
  {
    ShardWithinGuesses(|guesses|, i);
    guesses[ShardStart(|guesses|, i)..ShardStart(|guesses|, i + 1)]
  }

  /**
   A shard of distinct guesses is itself distinct, and the guesses up to the
   end of shard i are those up to its start plus the shard's own.
   */
  lemma ShardMembers(guesses: seq<string>, i: nat)
    requires Distinct(guesses) && i < WorkerCount
    ensures Distinct(Shard(guesses, i))
    ensures ShardStart(|guesses|, i + 1) <= |guesses|
    ensures Members(guesses[..ShardStart(|guesses|, i + 1)])
            == Members(guesses[..ShardStart(|guesses|, i)]) + Members(Shard(guesses, i))
  {
    var n := |guesses|;
    ShardWithinGuesses(n, i);
    var start, end := ShardStart(n, i), ShardStart(n, i + 1);
    var shard := Shard(guesses, i);
    forall a, b | 0 <= a < b < |shard|
      ensures shard[a] != shard[b]
    {
      assert shard[a] == guesses[start + a] && shard[b] == guesses[start + b];
    }
    assert guesses[..end] == guesses[..start] + shard;
  }

  /** Distinct shards of a list of distinct guesses share no guess. */
  lemma ShardsDisjoint(guesses: seq<string>, i: nat, j: nat)
    requires Distinct(guesses) && i < j < WorkerCount
    ensures Members(Shard(guesses, i)) !! Members(Shard(guesses, j))
  {
    var n := |guesses|;
    var si, sj := Shard(guesses, i), Shard(guesses, j);
    ShardStartMonotone(n, i + 1, j);
    ShardWithinGuesses(n, j);
    forall a, b | 0 <= a < |si| && 0 <= b < |sj|
      ensures si[a] != sj[b]
    {
      assert si[a] == guesses[ShardStart(n, i) + a];
      assert sj[b] == guesses[ShardStart(n, j) + b];
    }
  }

  /** Copies every entry of `part` into `acc`, overwriting an entry already there. */
  function MergeScores(acc: map<string, nat>, part: map<string, nat>): (merged: map<string, nat>)
    ensures merged.Keys == acc.Keys + part.Keys
    ensures forall g | g in part :: merged[g] == part[g]
    ensures forall g | g in acc && g !in part :: merged[g] == acc[g]
  {
    acc + part
  }

  /** When the keys are disjoint, the order in which workers finish does not change the merge. */
  lemma MergeOrderIrrelevant(a: map<string, nat>, b: map<string, nat>)
    requires a.Keys !! b.Keys
    ensures MergeScores(a, b) == MergeScores(b, a)
  {
  }

  /**
   Runs a worker on the guesses at positions start up to end and merges its
   scores into those already collected for the guesses before `start`.
   Returns the merged scores and the worker's total progress.
   */
  method RunShard(wl: Wordlist, answers: seq<string>, guesses: seq<string>, start: nat, end: nat,
                  reportingRate: nat, acc: map<string, nat>)
    returns (merged: map<string, nat>, progress: nat)
    requires ScorablePool(wl) && Enumerates(answers, wl.allWords)
    requires forall g | g in guesses :: IsWord(g)
    requires Distinct(guesses) && start <= end <= |guesses| && reportingRate > 0
    requires acc.Keys == if answers == [] then {} else Members(guesses[..start])
    requires forall g | g in acc :: g in guesses && acc[g] == ScoreNumerator(wl.allWords, g, answers)
    ensures merged.Keys == if answers == [] then {} else Members(guesses[..end])
    ensures forall g | g in merged :: g in guesses && merged[g] == ScoreNumerator(wl.allWords, g, answers)
    ensures progress == |wl.allWords|
  {
    var workerGuesses := guesses[start..end];
    SliceOfDistinct(guesses, start, end);
    var reductionSubset, reports := RunWorker(wl, answers, workerGuesses, reportingRate);
    merged := MergeScores(acc, reductionSubset);
    progress := Sum(reports);
    SliceMembers(guesses, start, end);
  }

  /**
   The whole calculation: splits the guesses into four shards, runs a worker
   per shard, in shard order, merges their scores and totals their progress.
   */
  method Run(wl: Wordlist, answers: seq<string>, guesses: seq<string>)
    returns (expectedReductionByGuess: map<string, nat>, totalProgress: nat)
    requires ScorablePool(wl) && Enumerates(answers, wl.allWords)
    requires forall g | g in guesses :: IsWord(g)
    requires Distinct(guesses)
    ensures answers != [] ==> expectedReductionByGuess.Keys == Members(guesses)
    ensures answers == [] ==> expectedReductionByGuess == map[]
    ensures forall g | g in expectedReductionByGuess ::
              g in guesses && expectedReductionByGuess[g] == ScoreNumerator(wl.allWords, g, answers)
    ensures totalProgress == WorkerCount * |wl.allWords|
    ensures totalProgress / WorkerCount == |wl.allWords|
  {
    var bounds := Partition(|guesses|);
    expectedReductionByGuess := map[];
    totalProgress := 0;
    ShardsFillGuesses(|guesses|);
    for i := 0 to WorkerCount
      invariant ShardStart(|guesses|, i) <= |guesses|
      invariant expectedReductionByGuess.Keys == if answers == [] then {} else Members(guesses[..ShardStart(|guesses|, i)])
      invariant forall g | g in expectedReductionByGuess ::
                  g in guesses && expectedReductionByGuess[g] == ScoreNumerator(wl.allWords, g, answers)
      invariant totalProgress == i * |wl.allWords|
    {
      ShardWithinGuesses(|guesses|, i);
      var progress;
      expectedReductionByGuess, progress :=
        RunShard(wl, answers, guesses, bounds[i].0, bounds[i].1, ReportingRates[i], expectedReductionByGuess);
      totalProgress := totalProgress + progress;
      MultiplyStep(i + 1, |wl.allWords|);
    }
    if guesses != [] {
      Prefixes(guesses, 0);
    }
  }
}
