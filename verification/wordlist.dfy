/**
 The constraint engine. A `Wordlist` is a fixed pool of words with a per-letter
 index (entry k holds the words containing the k-th letter of the alphabet).
 `ReducedWords` narrows the pool to the words consistent with one guess and its
 feedback pattern: it scans the pattern into per-letter rule counts and
 per-position constraints, then filters the pool by the letter index, by the
 positional constraints, and by the per-letter occurrence ranges.
 */
module Wordlist {
  import opened Counting
  import opened WordRules

  const AlphabetSize := 26

  /** How often one letter of a guess was marked with each rule. */
  datatype RuleCounts = RuleCounts(absent: nat, present: nat, correct: nat) {
    /**
     The (least, greatest) number of copies of the letter a consistent word
     holds: at least one per Present or Correct mark; and if some copy was
     marked Absent, no more than that.
     */
    function CountRange(): (range: (nat, nat))
      ensures range.0 == present + correct
      ensures absent > 0 ==> range.1 == range.0
      ensures absent == 0 ==> range.1 == WordLength
    {
      var least := present + correct;
      var greatest := if absent > 0 then least else WordLength;
      (least, greatest)
    }
  }

  /** Whether `k` lies within `range`. */
  predicate InRange(k: nat, range: (nat, nat))
  {
    range.0 <= k <= range.1
  }

  /** The rule counts of letter `c` over the first n positions of a guess. */
  function Tally(guess: string, rules: seq<LetterRule>, c: char, n: nat): RuleCounts
    requires n <= |guess| == |rules|
  {
    RuleCounts(RuleCount(guess, rules, c, Absent, n), RuleCount(guess, rules, c, Present, n), RuleCount(guess, rules, c, Correct, n))
  }

  /** The k-th lower-case letter. */
  function Letter(k: nat): char
    requires k < AlphabetSize
  {
    ('a' as int + k) as char
  }

  /** The position of a lower-case letter in the alphabet. */
  function LetterIndex(c: char): (k: nat)
    requires IsLower(c)
    ensures k < AlphabetSize && Letter(k) == c
  {
    c as int - 'a' as int
  }

  /** A word pool together with its per-letter index. */
  datatype Wordlist = Wordlist(wordsByLetter: seq<set<string>>, allWords: set<string>)

  /** The index has one entry per letter, holding exactly the pool words that contain that letter. */
  ghost predicate Valid(wl: Wordlist)
  {
    && |wl.wordsByLetter| == AlphabetSize
    && forall k | 0 <= k < AlphabetSize :: wl.wordsByLetter[k] == set w | w in wl.allWords && Letter(k) in w
  }

  /** The words of `words` that contain `c`. */
  ghost function WordsContaining(words: seq<string>, c: char): set<string>
  {
    set w | w in words && c in w
  }

  /**
   Builds the pool and its letter index from a list of words of lower-case
   letters, inserting each word under each of its letters.
   */
  method Init(words: seq<string>) returns (wl: Wordlist)
    requires forall i, j | 0 <= i < |words| && 0 <= j < |words[i]| :: IsLower(words[i][j])
    ensures wl.allWords == set w | w in words
    ensures Valid(wl)
  {
    var allWords := set w | w in words;
    var index: seq<set<string>> := seq(AlphabetSize, _ => {});
    for i := 0 to |words|
      invariant |index| == AlphabetSize
      invariant forall k | 0 <= k < AlphabetSize :: index[k] == WordsContaining(words[..i], Letter(k))
    {
      var word := words[i];
      for p := 0 to |word|
        invariant |index| == AlphabetSize
        invariant forall k | 0 <= k < AlphabetSize ::
                    index[k] == WordsContaining(words[..i], Letter(k)) + (if Letter(k) in word[..p] then {word} else {})
      {
        assert word[..p + 1] == word[..p] + [word[p]];
        var value := LetterIndex(word[p]);
        index := index[value := index[value] + {word}];
      }
      assert word[..|word|] == word;
      assert words[..i + 1] == words[..i] + [word];
      forall k | 0 <= k < AlphabetSize
        ensures index[k] == WordsContaining(words[..i + 1], Letter(k))
      {
      }
    }
    assert words[..|words|] == words;
    wl := Wordlist(index, allWords);
  }

  /** The index entry of a letter: the pool words containing it. */
  function WordsForLetter(wl: Wordlist, ch: char): (words: set<string>)
    requires |wl.wordsByLetter| == AlphabetSize && IsLower(ch)
    ensures Valid(wl) ==> words == set w | w in wl.allWords && ch in w
  {
    wl.wordsByLetter[LetterIndex(ch)]
  }

  /**
   Scans `s` from position i with `count` copies of `letter` seen so far,
   giving up as soon as the count passes `greatest`.
   */
  function CountScan(s: string, letter: char, least: nat, greatest: nat, i: nat, count: nat): (inRange: bool)
    requires i <= |s| && count == Count(s, letter, i) && count <= greatest
    ensures inRange <==> InRange(Occurrences(s, letter), (least, greatest))
    decreases |s| - i
  {
    if i == |s| then count >= least
    else if s[i] == letter then
      if count + 1 > greatest then
        CountMonotone(s, letter, i + 1, |s|);
        false
      else CountScan(s, letter, least, greatest, i + 1, count + 1)
    else CountScan(s, letter, least, greatest, i + 1, count)
  }

  /** Whether the number of copies of `letter` in `s` lies between `least` and `greatest`. */
  function IsCountInRange(s: string, letter: char, least: nat, greatest: nat): (inRange: bool)
    ensures inRange <==> least <= Occurrences(s, letter) <= greatest
  {
    CountScan(s, letter, least, greatest, 0, 0)
  }

  /** Prefix counts only grow. */
  lemma {:induction false} CountMonotone(s: string, c: char, m: nat, n: nat)
    requires m <= n <= |s|
    ensures Count(s, c, m) <= Count(s, c, n)
  {
    if m < n {
      CountMonotone(s, c, m, n - 1);
    }
  }

  /** What scanning a guess and its pattern produces. */
  datatype Constraints = Constraints(
    countsByLetter: map<char, RuleCounts>,
    requiredLetters: seq<Option<char>>,
    elsewhereLetters: seq<set<char>>)

  /**
   Folds one position into the constraints. A Present mark for a letter that
   already has an Absent mark is refused. A Present mark, and an Absent mark
   after a Present mark of the same letter, forbid the letter at this
   position; a Correct mark requires it.
   */
  function ScanStep(k: Constraints, idx: nat, ch: char, rule: LetterRule): (r: Result<Constraints>)
    requires idx < |k.requiredLetters| && idx < |k.elsewhereLetters|
    ensures r.Err? <==> rule == Present && ch in k.countsByLetter && k.countsByLetter[ch].absent > 0
    ensures r.Err? ==> r.error == AbsentBeforePresent(ch)
    ensures r.Ok? ==> |r.value.requiredLetters| == |k.requiredLetters| && |r.value.elsewhereLetters| == |k.elsewhereLetters|
    ensures r.Ok? ==> r.value.countsByLetter.Keys == k.countsByLetter.Keys + {ch}
    ensures r.Ok? ==> forall c | c in k.countsByLetter && c != ch :: r.value.countsByLetter[c] == k.countsByLetter[c]
    ensures r.Ok? ==> forall j | 0 <= j < |k.requiredLetters| && j != idx :: r.value.requiredLetters[j] == k.requiredLetters[j]
    ensures r.Ok? ==> forall j | 0 <= j < |k.elsewhereLetters| && j != idx :: r.value.elsewhereLetters[j] == k.elsewhereLetters[j]
  {
    var existing := if ch in k.countsByLetter then k.countsByLetter[ch] else RuleCounts(0, 0, 0);
    match rule
    case Absent =>
      var elsewhere := if existing.present > 0 then k.elsewhereLetters[idx := k.elsewhereLetters[idx] + {ch}] else k.elsewhereLetters;
      Ok(k.(countsByLetter := k.countsByLetter[ch := existing.(absent := existing.absent + 1)],
            elsewhereLetters := elsewhere))
    case Present =>
      if existing.absent > 0 then Err(AbsentBeforePresent(ch))
      else Ok(k.(countsByLetter := k.countsByLetter[ch := existing.(present := existing.present + 1)],
                 elsewhereLetters := k.elsewhereLetters[idx := k.elsewhereLetters[idx] + {ch}]))
    case Correct =>
      Ok(k.(countsByLetter := k.countsByLetter[ch := existing.(correct := existing.correct + 1)],
            requiredLetters := k.requiredLetters[idx := Some(ch)]))
  }

  /** Scans the first n positions of a guess and its pattern, left to right. */
  function ScanRules(guess: string, rules: seq<LetterRule>, n: nat): (r: Result<Constraints>)
    requires |guess| == WordLength && |rules| == WordLength && n <= WordLength
    ensures r.Ok? ==> |r.value.requiredLetters| == WordLength && |r.value.elsewhereLetters| == WordLength
    ensures r.Ok? ==> forall j | n <= j < WordLength :: r.value.requiredLetters[j] == None && r.value.elsewhereLetters[j] == {}
    ensures r.Err? ==> r.error.AbsentBeforePresent? && exists j | 0 <= j < n :: guess[j] == r.error.letter && rules[j] == Present
  {
    if n == 0 then Ok(Constraints(map[], seq(WordLength, _ => None), seq(WordLength, _ => {})))
    else
      match ScanRules(guess, rules, n - 1)
      case Err(e) => Err(e)
      case Ok(k) => ScanStep(k, n - 1, guess[n - 1], rules[n - 1])
  }

  /** The letter index's verdict on word w for one guess letter. */
  function PassesIndex(wl: Wordlist, ch: char, counts: RuleCounts, w: string): (passes: bool)
    requires |wl.wordsByLetter| == AlphabetSize && IsLower(ch)
    ensures Valid(wl) && w in wl.allWords ==>
              (passes <==> (counts.CountRange().1 == 0 ==> ch !in w) && (counts.CountRange().0 >= 1 ==> ch in w))
  {
    var range := counts.CountRange();
    if range.1 == 0 then w !in WordsForLetter(wl, ch)
    else if range.0 >= 1 then w in WordsForLetter(wl, ch)
    else true
  }

  /**
   Scans w from position idx, stopping at the first position that holds a
   letter other than the required one or a letter forbidden there.
   */
  function PositionScan(w: string, requiredLetters: seq<Option<char>>, elsewhereLetters: seq<set<char>>, idx: nat): (passes: bool)
    requires idx <= |w| <= |requiredLetters| && |w| <= |elsewhereLetters|
    ensures passes <==> forall j | idx <= j < |w| ::
                          && (requiredLetters[j].Some? ==> w[j] == requiredLetters[j].value)
                          && w[j] !in elsewhereLetters[j]
    decreases |w| - idx
  {
    if idx == |w| then true
    else if requiredLetters[idx].Some? && w[idx] != requiredLetters[idx].value then false
    else if w[idx] in elsewhereLetters[idx] then false
    else PositionScan(w, requiredLetters, elsewhereLetters, idx + 1)
  }

  /** The positional verdict on w: required letters in place, forbidden letters absent from their positions. */
  function PassesPositions(w: string, requiredLetters: seq<Option<char>>, elsewhereLetters: seq<set<char>>): (passes: bool)
    requires |w| <= |requiredLetters| && |w| <= |elsewhereLetters|
    ensures passes <==> forall idx | 0 <= idx < |w| ::
                          && (requiredLetters[idx].Some? ==> w[idx] == requiredLetters[idx].value)
                          && w[idx] !in elsewhereLetters[idx]
  {
    PositionScan(w, requiredLetters, elsewhereLetters, 0)
  }

  /** The occurrence-count verdict on w for one guess letter; a range of 0..5 is not checked. */
  function PassesCount(w: string, ch: char, counts: RuleCounts): (passes: bool)
    ensures |w| <= WordLength ==> (passes <==> InRange(Occurrences(w, ch), counts.CountRange()))
  {
    var range := counts.CountRange();
    (range.0 > 0 || range.1 < WordLength) ==> IsCountInRange(w, ch, range.0, range.1)
  }

  /** Every pool word has at most five letters. */
  predicate ShortWords(words: set<string>)
  {
    forall w | w in words :: |w| <= WordLength
  }

  /** Phase one: the letter index drops words holding an excluded letter and words lacking a required one. */
  function IndexFilter(wl: Wordlist, countsByLetter: map<char, RuleCounts>): (words: set<string>)
    requires |wl.wordsByLetter| == AlphabetSize
    requires forall ch | ch in countsByLetter :: IsLower(ch)
    ensures words <= wl.allWords
  {
    set w | w in wl.allWords && forall ch | ch in countsByLetter :: PassesIndex(wl, ch, countsByLetter[ch], w)
  }

  /** Phase two: drops words with a wrong letter at a Correct position or a forbidden letter at its position. */
  function PositionFilter(words: set<string>, requiredLetters: seq<Option<char>>, elsewhereLetters: seq<set<char>>): (kept: set<string>)
    requires ShortWords(words) && |requiredLetters| == WordLength && |elsewhereLetters| == WordLength
    ensures kept <= words
  {
    set w | w in words && PassesPositions(w, requiredLetters, elsewhereLetters)
  }

  /** Phase three: drops words whose count of some guess letter lies outside that letter's range. */
  function CountFilter(words: set<string>, countsByLetter: map<char, RuleCounts>): (kept: set<string>)
    ensures kept <= words
  {
    set w | w in words && forall ch | ch in countsByLetter :: PassesCount(w, ch, countsByLetter[ch])
  }

  /**
   The pool words consistent with `guess` and its pattern `rules`, or an error
   when some letter is marked Present after an Absent mark of the same letter.
   */
  function ReducedWords(wl: Wordlist, guess: string, rules: seq<LetterRule>): (r: Result<set<string>>)
    requires |wl.wordsByLetter| == AlphabetSize && ShortWords(wl.allWords)
    requires IsWord(guess) && |rules| == WordLength
    ensures r.Ok? ==> r.value <= wl.allWords
  {
    match ScanRules(guess, rules, WordLength)
    case Err(e) => Err(e)
    case Ok(k) =>
      ScanKeysAreGuessLetters(guess, rules, WordLength);
      var afterIndex := IndexFilter(wl, k.countsByLetter);
      Ok(CountFilter(PositionFilter(afterIndex, k.requiredLetters, k.elsewhereLetters), k.countsByLetter))
  }

  /** Every letter with rule counts after a scan is a letter of the guess. */
  lemma {:induction false} ScanKeysAreGuessLetters(guess: string, rules: seq<LetterRule>, n: nat)
    requires |guess| == WordLength && |rules| == WordLength && n <= WordLength
    ensures ScanRules(guess, rules, n).Ok? ==>
              forall ch | ch in ScanRules(guess, rules, n).value.countsByLetter :: exists j | 0 <= j < n :: guess[j] == ch
  {
    if n > 0 {
      ScanKeysAreGuessLetters(guess, rules, n - 1);
    }
  }

  /**
   The pattern whose raw values are the five base-3 digits of x, position 0
   the most significant digit.
   */
  function RulesForNum(x: nat): (rules: seq<LetterRule>)
    ensures |rules| == WordLength
  {
    Base3Digits(x, WordLength)
  }

  /** The k lowest base-3 digits of v, most significant first. */
  function Base3Digits(v: nat, k: nat): (digits: seq<LetterRule>)
    ensures |digits| == k
  {
    if k == 0 then [] else Base3Digits(v / 3, k - 1) + [RuleFromRaw(v % 3)]
  }
}
