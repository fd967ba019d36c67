# Wordle solver core in Dafny

This project models the deterministic word logic of a Wordle solver written in
Swift:

- how the game's feedback for a guess is derived;
- how a typed feedback pattern is parsed;
- how a word pool is narrowed to the words consistent with a guess and its
  pattern (the constraint engine);
- how all 243 patterns are enumerated as base-3 numbers;
- the integer part of guess scoring, the split of the guesses into four worker
  shards, each worker's progress reports, and the merge of the workers' score
  maps.

Modules, one per file:

- `Counting` (`counting.dfy`): per-letter counts over prefixes of a word. These
  are the matched, missed and unmatched copies the feedback rule is built from.
- `WordRules` (`word_rules.dfy`): `LetterRule`, word validity, pattern parsing,
  and the feedback rule. The feedback rule is given twice. `Response` is a
  closed-form reference definition. The method `ResponseForGuess` runs the
  source's two-pass algorithm and is proved equal to it.
- `ResponseFacts` (`response_facts.dfy`): properties of the feedback rule.
- `Wordlist` (`wordlist.dfy`): the pool with its per-letter index, the
  occurrence-count check, the pattern scan and the three filters of
  `ReducedWords`, and the pattern enumeration.
- `ReductionFacts` (`reduction_facts.dfy`): what `ReducedWords` computes. It
  fails exactly on patterns that mark a letter Present after an Absent mark of
  the same letter. Otherwise it keeps exactly the consistent words. It is sound
  (the answer survives its own feedback) and idempotent. For feedback the game
  produced, it keeps exactly the pool words that would have produced the same
  feedback.
- `PatternNumbers` (`pattern_numbers.dfy`): pattern numbers and patterns are
  inverse on 0 .. 242.
- `GuessCalculator` (`guess_calculator.dfy`): per-pair reduction numerators,
  score numerators, one worker's loop with its progress reports, the four-shard
  partition, the merge, and the whole run.

Scores are integer numerators over the pool size. A (guess, answer) pair
contributes |pool| when the guess is the answer. Otherwise it contributes the
number of pool words the answer's feedback rules out, which is |pool| - |reduced|.
The source's floating-point score is this numerator divided by |pool|.

The feedback code and `LetterRule` also appear, identically, in
Sources/wordle/Wordlist.swift (lines 22-89). They are modelled once, and cited
at Sources/wordle/WordRules.swift.

With an empty pool the worker's answer loop
(Sources/wordle/GuessCalculator.swift:28) never runs, so the merged map is
empty whatever the guess list; `RunWorker` and `Run` state this case.

## Model

| member | source | states |
|---|---|---|
| WordRules.RuleFromRaw | Sources/wordle/WordRules.swift:10-14 | The three rules have the raw values 0, 1, 2, and every raw value below 3 names the rule that has it. |
| WordRules.LetterRule.RawValue | Sources/wordle/WordRules.swift:10-14 | Every rule's raw value is a digit below 3; with `RuleFromRaw` the raw values 0, 1, 2 name Absent, Present, Correct and back. |
| WordRules.WordIsValid | Sources/wordle/WordRules.swift:18-35 | A string is accepted exactly when it has five characters, each in 'a'..'z'. |
| WordRules.ParseRules | Sources/wordle/WordRules.swift:41-55 | Parsing succeeds exactly when every character is '0', '1' or '2'; then it yields one rule per character whose raw value is that digit; otherwise the error names an offending character. |
| WordRules.RulesFromString | Sources/wordle/WordRules.swift:37-56 | A response whose length is not 5 is refused with the length error; otherwise it parses as above, giving exactly five rules. |
| WordRules.RulesStringRoundTrip | Sources/wordle/WordRules.swift:37-56 | Spelling out any five-rule pattern as digits and parsing it back gives the pattern. |
| WordRules.ParsedRulesSpellInput | Sources/wordle/WordRules.swift:37-56 | A response that parses is the digit spelling of the pattern it parses to, so parsing loses nothing. |
| WordRules.Response | Sources/wordle/WordRules.swift:58-78 | The feedback has five rules, and position i is Correct exactly when the guess and the answer agree there. |
| WordRules.ResponseForGuess | Sources/wordle/WordRules.swift:58-78 | The two-pass algorithm (exact matches first, counting unmatched answer letters, then Present marks left to right while unmatched copies remain) returns exactly the reference feedback `Response`. |
| ResponseFacts.ResponseToSelf | Sources/wordle/WordRules.swift:58-69 | Guessing the answer itself gives five Correct marks. |
| ResponseFacts.CorrectCountIsMatched | Sources/wordle/WordRules.swift:62-69 | For each letter, the Correct marks are exactly the positions where guess and answer both hold it. |
| ResponseFacts.PresentCountIsMin | Sources/wordle/WordRules.swift:67-76 | For each letter, the Present marks number the minimum of its unmatched copies in the guess and its unmatched copies in the answer. |
| ResponseFacts.MissedAreAbsentOrPresent | Sources/wordle/WordRules.swift:70-76 | The second pass only turns non-Correct positions into Present or leaves them Absent: the unmatched guess copies of a letter are split between Present and Absent. |
| ResponseFacts.PresentMarksComeFirst | Sources/wordle/WordRules.swift:70-76 | Present marks are handed out greedily left to right: if a later copy of a letter is Present, every earlier non-Correct copy of it is Present too, so no Absent copy precedes a Present one. |
| ResponseFacts.ForeignLetterIsAbsent | Sources/wordle/WordRules.swift:62-76 | A guess letter the answer does not hold is marked Absent. |
| ResponseFacts.DisjointWordsAllAbsent | Sources/wordle/WordRules.swift:62-76 | A guess sharing no letter with the answer gets five Absent marks. |
| ResponseFacts.SassyAgainstGrass | Sources/wordle/WordRules.swift:58-78 | The duplicate-letter case "sassy" against "grass" gives Present, Present, Absent, Correct, Absent. |
| ReductionFacts.ResponseIsWellOrdered | Sources/wordle/WordRules.swift:70-76 | The game's own feedback never marks a letter Present after an Absent mark of that letter, so it never triggers the engine's "absent before present" error. |
| Wordlist.LetterIndex | Sources/wordle/Wordlist.swift:108-112 | A lower-case letter's index lies in 0 .. 25 and names that letter. |
| Wordlist.RuleCounts.CountRange | Sources/wordle/Wordlist.swift:15-19 | A letter's count range starts at its Present plus Correct marks; any Absent mark caps it at that same number, otherwise the cap is the word length 5. What the range means for a word is stated by ReductionFacts.LetterVerdict and ReductionFacts.ConsistentIffSameResponse. |
| Wordlist.Init | Sources/wordle/Wordlist.swift:95-106 | The pool is the set of the input words, and index entry k holds exactly the pool words that contain the k-th letter. |
| Wordlist.WordsForLetter | Sources/wordle/Wordlist.swift:108-112 | For a well-formed index, a letter's entry is exactly the pool words containing that letter. |
| Wordlist.CountScan | Sources/wordle/Wordlist.swift:114-125 | The early-exit scan returns true exactly when the letter's number of occurrences lies in the range. |
| Wordlist.IsCountInRange | Sources/wordle/Wordlist.swift:114-125 | The check holds exactly when least <= occurrences of the letter <= greatest. |
| Wordlist.ScanStep | Sources/wordle/Wordlist.swift:134-159 | One position fails exactly when it is a Present mark for a letter that already has an Absent mark, with that letter in the error; otherwise the letter is recorded, other letters keep their counts, and only this position's constraints change. Its tallies are stated by ReductionFacts.StepTallies. |
| Wordlist.ScanRules | Sources/wordle/Wordlist.swift:131-160 | A failed scan names a guess letter marked Present at some scanned position; a successful one leaves the unscanned positions unconstrained. Its full contents are stated by ReductionFacts.ScanRulesSpec. |
| Wordlist.PassesIndex | Sources/wordle/Wordlist.swift:165-176 | For a well-formed index and a pool word, the index verdict holds exactly when the word lacks a letter whose range caps it at 0 and holds a letter whose range requires at least one copy. |
| Wordlist.PositionScan | Sources/wordle/Wordlist.swift:180-193 | The early-exit scan over a word's positions accepts exactly when every later position holds the required letter, if any, and no letter forbidden there. |
| Wordlist.PassesPositions | Sources/wordle/Wordlist.swift:180-193 | A word passes the positional phase exactly when each of its positions holds the required letter, if any, and no letter forbidden there. |
| Wordlist.PassesCount | Sources/wordle/Wordlist.swift:198-209 | For a word of at most five letters, skipping the 0..5 range loses nothing: the verdict holds exactly when the word's occurrences of the letter lie in the letter's range. |
| Wordlist.IndexFilter | Sources/wordle/Wordlist.swift:162-176 | The index phase keeps only pool words; which ones is stated by ReductionFacts.LetterVerdict and ReductionFacts.SurvivesIffConsistent. |
| Wordlist.PositionFilter | Sources/wordle/Wordlist.swift:178-194 | The positional phase only removes words; which ones is stated by ReductionFacts.SurvivesIffConsistent. |
| Wordlist.CountFilter | Sources/wordle/Wordlist.swift:196-209 | The count phase only removes words; which ones is stated by ReductionFacts.LettersVerdict and ReductionFacts.SurvivesIffConsistent. |
| Wordlist.ReducedWords | Sources/wordle/Wordlist.swift:127-212 | A successful reduction is a subset of the pool; its failure cases and contents are stated by ReductionFacts.ReducedWordsCharacterized. |
| Wordlist.ScanKeysAreGuessLetters | Sources/wordle/Wordlist.swift:131-160 | Every letter with rule counts after the scan is a letter of the guess, so the letter index lookups are in range. |
| Wordlist.RulesForNum | Sources/wordle/Wordlist.swift:214-223 | Every number gives a pattern of exactly five rules. |
| Wordlist.Base3Digits | Sources/wordle/Wordlist.swift:217-221 | Writing out k base-3 digits gives k rules. |
| ReductionFacts.ExistingCounts | Sources/wordle/Wordlist.swift:136 | The counts a scan step starts from for a letter are that letter's tally over the earlier positions, zero for a new letter. |
| ReductionFacts.StepFailsIff | Sources/wordle/Wordlist.swift:145-151 | One scan step fails exactly when it marks Present a letter that an earlier position marked Absent. |
| ReductionFacts.StepTallies | Sources/wordle/Wordlist.swift:136-159 | A successful step replaces the letter's counts with its tally including the current position and changes no other letter's counts. |
| ReductionFacts.StepRecordsCounts | Sources/wordle/Wordlist.swift:134-160 | After a successful step the recorded letters are exactly the letters seen so far, each with its tally. |
| ReductionFacts.StepRecordsPositions | Sources/wordle/Wordlist.swift:139-156 | After a successful step a Correct position requires its letter, and a position whose letter must be elsewhere forbids that letter there. |
| ReductionFacts.ScanRulesSpec | Sources/wordle/Wordlist.swift:131-160 | Scanning fails exactly when some letter is marked Present after an Absent mark; otherwise it records every letter's tally and the positional constraints. |
| ReductionFacts.LetterVerdict | Sources/wordle/Wordlist.swift:165-176 | For one letter, the index verdict together with the count verdict holds exactly when the word's occurrences of the letter lie in the letter's count range (least = present + correct; greatest = least if any Absent, else 5). |
| ReductionFacts.LettersVerdict | Sources/wordle/Wordlist.swift:196-209 | The verdicts over all recorded letters amount to the range check for every guess letter. |
| ReductionFacts.SurvivesIffConsistent | Sources/wordle/Wordlist.swift:162-211 | A pool word passes all three filters exactly when it is consistent with the guess and pattern. |
| ReductionFacts.ReducedWordsCharacterized | Sources/wordle/Wordlist.swift:127-212 | The reduction fails exactly on Absent-then-Present patterns; otherwise it keeps exactly the consistent pool words: each letter's count within its range, Correct positions holding the guess letter, must-be-elsewhere letters not at their positions. |
| ReductionFacts.ReducedWordsSubset | Sources/wordle/Wordlist.swift:162-211 | A successful reduction is a subset of the pool and no larger. |
| ReductionFacts.ReduceTwice | Sources/wordle/Wordlist.swift:162-211 | Reducing the reduced pool again by the same guess and pattern gives the same words. |
| ReductionFacts.AnswerIsConsistent | Sources/wordle/Wordlist.swift:162-211 | The answer is consistent with the feedback it produces. |
| ReductionFacts.AnswerSurvives | Sources/wordle/Wordlist.swift:127-212 | Soundness: reducing a pool by the feedback one of its words produces succeeds and keeps that word, so the result is never empty. |
| ReductionFacts.ConsistentIffSameResponse | Sources/wordle/Wordlist.swift:127-212 | For game-produced feedback, a five-letter word is consistent with it exactly when it would have produced the same feedback. |
| ReductionFacts.ReductionMatchesBruteForce | Sources/wordle/Wordlist.swift:127-212 | For game-produced feedback, the index-based reduction keeps exactly the pool words whose feedback equals the answer's. |
| PatternNumbers.NumForRules | Sources/wordle/Wordlist.swift:214-223 | A pattern's number, read with position 0 the most significant base-3 digit, is below 3^length. |
| PatternNumbers.DigitsReadBack | Sources/wordle/Wordlist.swift:214-223 | Reading back the k digits written out for a number below 3^k gives the number. |
| PatternNumbers.PatternWrittenBack | Sources/wordle/Wordlist.swift:214-223 | Writing out a pattern's number in as many digits as the pattern has positions gives the pattern. |
| PatternNumbers.RulesForNumReadsBack | Sources/wordle/Wordlist.swift:214-223 | Every number 0 .. 242 is the number of the pattern it denotes. |
| PatternNumbers.RulesForNumInjective | Sources/wordle/Wordlist.swift:214-223 | Distinct numbers in 0 .. 242 denote distinct patterns. |
| PatternNumbers.EveryPatternEnumerated | Sources/wordle/Wordlist.swift:214-223 | Every five-rule pattern is denoted by a number in 0 .. 242, so the enumeration lists all 243 patterns. |
| PatternNumbers.PatternEnds | Sources/wordle/Wordlist.swift:214-223 | Number 0 is all Absent and number 242 is all Correct. |
| GuessCalculator.Eliminated | Sources/wordle/GuessCalculator.swift:39-43 | The words a pair rules out are pool words. |
| GuessCalculator.AgreeIsSameResponse | Sources/wordle/GuessCalculator.swift:39-43 | Agreement of the feedback position by position is equality of the feedback. |
| GuessCalculator.DifferingCount | Sources/wordle/GuessCalculator.swift:39-43 | Counting pool words with different feedback one at a time gives at most |pool|. |
| GuessCalculator.DifferingCountIsEliminated | Sources/wordle/GuessCalculator.swift:39-43 | That count is exactly the number of words the pair rules out. |
| GuessCalculator.PairReduction | Sources/wordle/GuessCalculator.swift:30-45 | A pair's reduction numerator lies in 0 .. |pool|. |
| GuessCalculator.PairReductionByEngine | Sources/wordle/GuessCalculator.swift:39-48 | The numerator is |pool| exactly when the guess is the answer; otherwise the reduction succeeds and the numerator is |pool| minus the size of the reduced pool. |
| GuessCalculator.ReductionMagnitude | Sources/wordle/GuessCalculator.swift:30-49 | The worker's per-pair computation (whole pool for an exact guess, else derive feedback, reduce, subtract) yields the pair's reduction numerator; the fatal empty-result branch is never taken. |
| GuessCalculator.ScoreNumerator | Sources/wordle/GuessCalculator.swift:28-50 | A guess's score numerator over n answers is at most n times |pool|. |
| GuessCalculator.ScoreOfPossibleAnswer | Sources/wordle/GuessCalculator.swift:30-36 | A guess that is itself among the answers scores at least one whole pool. |
| GuessCalculator.ScoreBounded | Sources/wordle/GuessCalculator.swift:39-45 | Over the whole pool the numerator is at most |pool|^2, so every score lies in 0 .. |pool|. |
| GuessCalculator.CreditedSpec | Sources/wordle/GuessCalculator.swift:29-50 | Crediting the first n distinct guesses enters each of them, adds its pair numerator once, and leaves every other entry unchanged. |
| GuessCalculator.CreditedAll | Sources/wordle/GuessCalculator.swift:29-50 | Crediting all the guesses enters exactly the guesses and adds each one's numerator to its earlier value. |
| GuessCalculator.AddAnswer | Sources/wordle/GuessCalculator.swift:29-50 | The inner loop over the worker's guesses adds, for one answer, each guess's pair numerator to its entry (starting from 0) and touches no other entry. |
| GuessCalculator.ScoresAdvance | Sources/wordle/GuessCalculator.swift:28-50 | Adding answer i's pair numerators to the scores over the first i answers gives the scores over the first i + 1. |
| GuessCalculator.ScoreAnswer | Sources/wordle/GuessCalculator.swift:28-50 | One pass of the outer loop extends the scores from the first i answers to the first i + 1. |
| GuessCalculator.CountCompletion | Sources/wordle/GuessCalculator.swift:51-55 | Each finished answer is counted; a full batch of `reportingRate` is reported and the count restarts; reported plus pending always grows by one. |
| GuessCalculator.FlushProgress | Sources/wordle/GuessCalculator.swift:58-61 | A leftover partial batch is reported once if non-empty; every report lies in 1 .. rate and all but the last are full batches. |
| GuessCalculator.RunWorker | Sources/wordle/GuessCalculator.swift:23-64 | One worker returns, for a non-empty pool, an entry for exactly its guesses holding each guess's score numerator over every answer (an empty map for an empty pool); its progress reports sum to the number of answers, each at most its rate and all but the last equal to it. |
| GuessCalculator.ShardsFillGuesses | Sources/wordle/GuessCalculator.swift:89-92 | The four shard sizes n/4 + (1 for the first n%4 shards) add up to n. |
| GuessCalculator.ShardSize | Sources/wordle/GuessCalculator.swift:107 | A shard's size is the base workload n / 4 or one more, and it is one more exactly for the first n % 4 shards. |
| GuessCalculator.ShardStartClosedForm | Sources/wordle/GuessCalculator.swift:105-111 | The position where the loop starts shard i (`ShardStart`, the running sum of earlier workloads) is i * (n / 4) plus min(i, n % 4). |
| GuessCalculator.ShardWithinGuesses | Sources/wordle/GuessCalculator.swift:105-111 | Every shard lies within the guess list. |
| GuessCalculator.Partition | Sources/wordle/GuessCalculator.swift:105-111 | The computed bounds start at 0, each shard starts where the previous ended, the last ends at n, and shard i holds n/4 + (1 if i < n%4) guesses. |
| GuessCalculator.ShardsBalanced | Sources/wordle/GuessCalculator.swift:107 | Shard sizes differ by at most one, and no later shard is larger than an earlier one. |
| GuessCalculator.ShardOf | Sources/wordle/GuessCalculator.swift:105-111 | Every guess position lies in some shard. |
| GuessCalculator.ShardsCover | Sources/wordle/GuessCalculator.swift:105-111 | Every guess position lies in exactly one shard. |
| GuessCalculator.Shard | Sources/wordle/GuessCalculator.swift:108-110 | A worker's guesses are guesses of the list. |
| GuessCalculator.ShardMembers | Sources/wordle/GuessCalculator.swift:108-111 | A shard of distinct guesses is distinct, and the guesses up to a shard's end are those before it plus its own. |
| GuessCalculator.ShardsDisjoint | Sources/wordle/GuessCalculator.swift:105-111 | Two different shards of a distinct guess list share no guess. |
| GuessCalculator.MergeScores | Sources/wordle/GuessCalculator.swift:80-86 | The merge's keys are both maps' keys; a worker's entries are copied in, and entries it lacks keep their earlier values. |
| GuessCalculator.MergeOrderIrrelevant | Sources/wordle/GuessCalculator.swift:80-86 | For maps with disjoint keys, the order in which workers' maps are merged does not change the result. |
| GuessCalculator.RunShard | Sources/wordle/GuessCalculator.swift:105-120 | Running a shard's worker and merging its map extends the scores from the guesses before the shard to the guesses up to its end; the worker's progress totals |pool|. |
| GuessCalculator.Run | Sources/wordle/GuessCalculator.swift:88-130 | For a non-empty pool, the merged map has an entry for exactly the guess list, each holding that guess's score numerator, the same value a single worker over all guesses would give. The four workers' progress totals 4 * |pool|, so the last progress value reported is |pool|. |

## Left out

- Sources/wordle/main.swift, Sources/wordle/File.swift: argument parsing, the interactive loop, file reading and console output are I/O.
- Sources/wordle/SimpleError.swift: failures are the `Err` case of a `Result` datatype instead of a thrown error.
- Sources/wordle/AutoGuesser.swift, Sources/wordle/ExpectedTurnCalculator.swift: asynchronous control flow and floating-point weights. The latter also calls a `runSync` that is not part of this model.
- `_bestGuess`, `printBestGuessList`, `bestGuesses` (Sources/wordle/Wordlist.swift:225-290): floating-point weighting, sorting with infinity defaults and console progress. Only the pattern enumeration `_rulesForNum` that they use is modelled.
- Floating-point scores: every score is kept as its integer numerator over |pool|. The source divides by |pool| as a `Double` and accumulates in floating point.
- Threads, dispatch queues and the dispatch group: `Run` runs the four workers one after another in shard order. The source merges in whatever order the workers finish; `MergeOrderIrrelevant` shows the order does not matter for disjoint keys.
- The progress callback's intermediate values: only the running total and its final value are modelled. In the source each report is added to the total asynchronously and `progress(total / 4)` is called after each addition.
- The convenience `run(completion:)` (Sources/wordle/GuessCalculator.swift:132-135) only supplies an empty progress handler.
- The console message on the fatal empty-reduction branch (Sources/wordle/GuessCalculator.swift:46-48): the branch is proved unreachable (`PairReductionByEngine`, from `AnswerSurvives`), so the model has no error path there.
- Swift `Character` and Unicode details (`isASCII`, `asciiValue!`): words are sequences of `char`, and "a lower-case ASCII letter" is a character in 'a'..'z'.
- Set and dictionary iteration order: `answers` is a parameter listing the pool once each, in any order. The per-letter loops of the reduction are modelled as set comprehensions, on which order has no effect.
- Wordlist.Init: requires every character of every input word to be a lower-case letter. The source traps otherwise: a non-ASCII character at the `asciiValue!` force-unwrap (Sources/wordle/Wordlist.swift:100), any other non-lower-case character at the `precondition` on line 101.
- Wordlist.ReducedWords: requires every pool word to have at most five letters. In the source, a longer word that survives the index phase (Sources/wordle/Wordlist.swift:165-176) and matches at positions 0-4 traps on the out-of-range `requiredLetters[idx]` at line 182; other longer words are dropped without a trap. The requirement loses nothing in the program, because every pool is built from words that passed `wordIsValid` (Sources/wordle/main.swift:177) or is the result of an earlier `reducedWords`.
- GuessCalculator.AddAnswer: requires the guesses to be distinct. With a repeated guess the source would credit that guess once per copy.
- GuessCalculator.RunWorker: requires distinct guesses, for the same reason.
- GuessCalculator.RunShard: requires distinct guesses, for the same reason.
- GuessCalculator.Run: requires distinct guesses. A guess repeated in two shards would also have one worker's entry overwrite the other's.
