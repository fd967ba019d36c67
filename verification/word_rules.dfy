/**
 The word and feedback model of the solver: the three-valued per-position rule,
 word validation, parsing of a typed response such as "01200", and the game's
 feedback rule for a guess against an answer.
 */
module WordRules {
  import opened Counting

  /** Every word, guess and feedback pattern has this length. */
  const WordLength := 5

  /** Feedback for one position of a guess. */
  datatype LetterRule = Absent | Present | Correct {
    /** The rule's raw value: its digit in a typed response and in a pattern number. */
    function RawValue(): (v: nat)
      ensures v < 3
    {
      match this
      case Absent => 0
      case Present => 1
      case Correct => 2
    }
  }

  /** The rule whose raw value is `v`. */
  function RuleFromRaw(v: nat): (rule: LetterRule)
    requires v < 3
    ensures rule.RawValue() == v
  {
    if v == 0 then Absent else if v == 1 then Present else Correct
  }

  datatype Option<T> = None | Some(value: T)

  /** Why parsing a response or reducing a pool was refused. */
  datatype Error =
    | InvalidResponseLength
    | InvalidRuleCharacter(c: char)
    | AbsentBeforePresent(letter: char)

  datatype Result<T> = Ok(value: T) | Err(error: Error)

  predicate IsLower(c: char)
  {
    'a' <= c <= 'z'
  }

  /** A word: five letters, each in a..z. */
  predicate IsWord(w: string)
  {
    |w| == WordLength && forall i | 0 <= i < |w| :: IsLower(w[i])
  }

  /** Accepts a string exactly when it is five lower-case ASCII letters. */
  method WordIsValid(word: string) returns (valid: bool)
    ensures valid <==> IsWord(word)
  {
    if |word| != WordLength {
      return false;
    }
    for i := 0 to |word|
      invariant forall j | 0 <= j < i :: IsLower(word[j])
    {
      if word[i] < 'a' || word[i] > 'z' {
        return false;
      }
    }
    return true;
  }

  /** The characters a typed response may hold. */
  predicate IsRuleDigit(c: char)
  {
    c == '0' || c == '1' || c == '2'
  }

  /** The digit that stands for `rule` in a typed response. */
  function RuleDigit(rule: LetterRule): char
  {
    (rule.RawValue() + '0' as int) as char
  }

  /** The typed response that spells out `rules`. */
  function RulesToString(rules: seq<LetterRule>): (s: string)
    ensures |s| == |rules|
  {
    seq(|rules|, i requires 0 <= i < |rules| => RuleDigit(rules[i]))
  }

  /**
   Parses the characters of a response left to right; the first character
   outside '0', '1', '2' is reported.
   */
  function ParseRules(s: string): (r: Result<seq<LetterRule>>)
    ensures r.Ok? <==> forall i | 0 <= i < |s| :: IsRuleDigit(s[i])
    ensures r.Ok? ==> |r.value| == |s| && forall i | 0 <= i < |s| :: r.value[i].RawValue() == s[i] as int - '0' as int
    ensures r.Err? ==> exists i | 0 <= i < |s| :: !IsRuleDigit(s[i]) && r.error == InvalidRuleCharacter(s[i])
                                                  && forall j | 0 <= j < i :: IsRuleDigit(s[j])
  {
    if s == [] then Ok([])
    else if !IsRuleDigit(s[0]) then Err(InvalidRuleCharacter(s[0]))
    else
      match ParseRules(s[1..])
      case Err(e) =>
        assert forall j | 1 <= j <= |s[1..]| :: s[j] == s[1..][j - 1];
        Err(e)
      case Ok(rest) => Ok([RuleFromRaw(s[0] as int - '0' as int)] + rest)
  }

  /**
   Parses a typed response: its length must be five, and each character one of
   '0' (Absent), '1' (Present), '2' (Correct).
   */
  function RulesFromString(s: string): (r: Result<seq<LetterRule>>)
    ensures |s| != WordLength ==> r == Err(InvalidResponseLength)
    ensures r.Ok? <==> |s| == WordLength && forall i | 0 <= i < |s| :: IsRuleDigit(s[i])
    ensures r.Ok? ==> |r.value| == WordLength && forall i | 0 <= i < |s| :: r.value[i].RawValue() == s[i] as int - '0' as int
    ensures r.Err? && |s| == WordLength ==>
              exists i | 0 <= i < |s| :: !IsRuleDigit(s[i]) && r.error == InvalidRuleCharacter(s[i])
  {
    if |s| != WordLength then Err(InvalidResponseLength) else ParseRules(s)
  }

  /** Spelling out a pattern and parsing it back gives the pattern. */
  lemma RulesStringRoundTrip(rules: seq<LetterRule>)
    requires |rules| == WordLength
    ensures RulesFromString(RulesToString(rules)) == Ok(rules)
  {
    var s := RulesToString(rules);
    var r := RulesFromString(s);
    assert r.Ok?;
    assert forall i | 0 <= i < WordLength :: r.value[i].RawValue() == rules[i].RawValue();
    forall i | 0 <= i < WordLength
      ensures r.value[i] == rules[i]
    {
      assert r.value[i].RawValue() == rules[i].RawValue();
    }
    assert r.value == rules;
  }

  /** A response that parses is the spelling of the pattern it parses to. */
  lemma ParsedRulesSpellInput(s: string)
    requires RulesFromString(s).Ok?
    ensures RulesToString(RulesFromString(s).value) == s
  {
    var rules := RulesFromString(s).value;
    forall i | 0 <= i < |s|
      ensures RulesToString(rules)[i] == s[i]
    {
      assert IsRuleDigit(s[i]);
    }
  }

  /**
   The feedback at position i. An exact match is Correct. Otherwise the guess
   letter earns Present while the answer still has an unmatched copy of it not
   already awarded to an earlier missed copy in the guess (earlier missed copies
   are served first); else it is Absent.
   */
  function RuleAt(guess: string, answer: string, i: nat): LetterRule
    requires |guess| == |answer| && i < |guess|
  {
    if guess[i] == answer[i] then Correct
    else if Missed(guess, answer, guess[i], i) < Unmatched(guess, answer, guess[i], |answer|) then Present
    else Absent
  }

  /** The game's feedback for `guess` when the hidden word is `answer`. */
  function Response(guess: string, answer: string): (rules: seq<LetterRule>)
    requires |guess| == WordLength && |answer| == WordLength
    ensures |rules| == WordLength
    ensures forall i | 0 <= i < WordLength :: (rules[i] == Correct <==> guess[i] == answer[i])
  {
    seq(WordLength, i requires 0 <= i < WordLength => RuleAt(guess, answer, i))
  }

  /** Positions j < n at which the guess holds `c` and the pattern says `rule`. */
  function RuleCount(guess: string, rules: seq<LetterRule>, c: char, rule: LetterRule, n: nat): nat
    requires n <= |guess| == |rules|
  {
    if n == 0 then 0
    else RuleCount(guess, rules, c, rule, n - 1) + (if guess[n - 1] == c && rules[n - 1] == rule then 1 else 0)
  }

  /** Reads a letter count, with zero for a letter not yet entered. */
  function Lookup(m: map<char, int>, c: char): int
  {
    if c in m then m[c] else 0
  }

  /** Unmatched copies of `c` left over after the missed guess positions before `i` took theirs. */
  function Remaining(guess: string, answer: string, c: char, i: nat): int
    requires i <= |guess| == |answer|
  {
    var unmatched := Unmatched(guess, answer, c, |answer|);
    var missed := Missed(guess, answer, c, i);
    if missed < unmatched then unmatched - missed else 0
  }

  /**
   The two-pass derivation: the first pass marks exact matches Correct and
   counts the answer's unmatched letters; the second pass, left to right,
   turns a non-Correct position Present while an unmatched copy of its letter
   remains, using that copy up.
   */
  method ResponseForGuess(guess: string, answer: string) returns (rules: seq<LetterRule>)
    requires |guess| == WordLength && |answer| == WordLength
    ensures rules == Response(guess, answer)
  {
    rules := seq(WordLength, _ => Absent);
    var letterCounts: map<char, int> := map[];
    for idx := 0 to WordLength
      invariant |rules| == WordLength
      invariant forall j | 0 <= j < WordLength :: rules[j] == (if j < idx && guess[j] == answer[j] then Correct else Absent)
      invariant forall c :: Lookup(letterCounts, c) == Unmatched(guess, answer, c, idx)
    {
      if guess[idx] == answer[idx] {
        rules := rules[idx := Correct];
      } else {
        letterCounts := letterCounts[answer[idx] := Lookup(letterCounts, answer[idx]) + 1];
      }
    }
    for idx := 0 to WordLength
      invariant |rules| == WordLength
      invariant forall j | 0 <= j < idx :: rules[j] == RuleAt(guess, answer, j)
      invariant forall j | idx <= j < WordLength :: rules[j] == (if guess[j] == answer[j] then Correct else Absent)
      invariant forall c :: Lookup(letterCounts, c) == Remaining(guess, answer, c, idx)
    {
      var remainingCountOfCh := Lookup(letterCounts, guess[idx]);
      ghost var before := letterCounts;
      assert Lookup(before, guess[idx]) == Remaining(guess, answer, guess[idx], idx);
      if remainingCountOfCh > 0 && rules[idx] == Absent {
        rules := rules[idx := Present];
        letterCounts := letterCounts[guess[idx] := remainingCountOfCh - 1];
      }
      forall c
        ensures Lookup(letterCounts, c) == Remaining(guess, answer, c, idx + 1)
      {
        assert Lookup(before, c) == Remaining(guess, answer, c, idx);
        assert Missed(guess, answer, c, idx + 1)
            == Missed(guess, answer, c, idx) + (if guess[idx] != answer[idx] && guess[idx] == c then 1 else 0);
      }
    }
  }
}
