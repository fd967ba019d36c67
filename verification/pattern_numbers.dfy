/**
 Feedback patterns as numbers. The solver enumerates every pattern by reading
 the numbers 0 .. 242 as five base-3 digits, position 0 the most significant,
 each digit the raw value of a rule. `NumForRules` reads a pattern back as its
 number; the two are inverse, so the enumeration lists every pattern exactly
 once.
 */
module PatternNumbers {
  import opened WordRules
  import opened Wordlist

  /** The number of five-position patterns. */
  const PatternCount := 243

  function Pow3(k: nat): (p: nat)
    ensures p >= 1
  {
    if k == 0 then 1 else 3 * Pow3(k - 1)
  }

  /** The number whose base-3 digits are the raw values of `rules`, position 0 the most significant. */
  function NumForRules(rules: seq<LetterRule>): (x: nat)
    ensures x < Pow3(|rules|)
  {
    if rules == [] then 0
    else 3 * NumForRules(rules[..|rules| - 1]) + rules[|rules| - 1].RawValue()
  }

  /** Reading back k digits of a number below 3^k gives the number. */
  lemma {:induction false} DigitsReadBack(x: nat, k: nat)
    requires x < Pow3(k)
    ensures NumForRules(Base3Digits(x, k)) == x
  {
    if k > 0 {
      DigitsReadBack(x / 3, k - 1);
      var digits := Base3Digits(x, k);
      assert digits == Base3Digits(x / 3, k - 1) + [RuleFromRaw(x % 3)];
      assert digits[..k - 1] == Base3Digits(x / 3, k - 1);
      assert NumForRules(digits) == 3 * (x / 3) + x % 3;
    }
  }

  /** Dividing 3q + d by three, for a digit d, gives back q and d. */
  lemma TripleDivMod(q: nat, d: nat)
    requires d < 3
    ensures (3 * q + d) / 3 == q && (3 * q + d) % 3 == d
  {
  }

  /** Writing out the number of a pattern in |rules| digits gives the pattern. */
  lemma {:induction false} PatternWrittenBack(rules: seq<LetterRule>)
    ensures Base3Digits(NumForRules(rules), |rules|) == rules
  {
    if rules != [] {
      var k := |rules|;
      var front, last := rules[..k - 1], rules[k - 1];
      PatternWrittenBack(front);
      var q := NumForRules(front);
      TripleDivMod(q, last.RawValue());
      var x := NumForRules(rules);
      assert x == 3 * q + last.RawValue();
      assert Base3Digits(x, k) == Base3Digits(q, k - 1) + [RuleFromRaw(last.RawValue())];
      assert RuleFromRaw(last.RawValue()) == last;
      assert rules == front + [last];
    }
  }

  /** Every number 0 .. 242 denotes a pattern that reads back as that number. */
  lemma RulesForNumReadsBack(x: nat)
    requires x < PatternCount
    ensures NumForRules(RulesForNum(x)) == x
  {
    assert Pow3(WordLength) == PatternCount;
    DigitsReadBack(x, WordLength);
  }

  /** Distinct numbers in 0 .. 242 give distinct patterns. */
  lemma RulesForNumInjective(x: nat, y: nat)
    requires x < PatternCount && y < PatternCount
    requires RulesForNum(x) == RulesForNum(y)
    ensures x == y
  {
    RulesForNumReadsBack(x);
    RulesForNumReadsBack(y);
  }

  /** Every five-position pattern is enumerated, by its own number. */
  lemma EveryPatternEnumerated(rules: seq<LetterRule>)
    requires |rules| == WordLength
    ensures NumForRules(rules) < PatternCount
    ensures RulesForNum(NumForRules(rules)) == rules
  {
    assert Pow3(WordLength) == PatternCount;
    PatternWrittenBack(rules);
  }

  /** The pattern numbered 0 is all Absent; the pattern numbered 242 is all Correct. */
  lemma PatternEnds()
    ensures RulesForNum(0) == [Absent, Absent, Absent, Absent, Absent]
    ensures RulesForNum(PatternCount - 1) == [Correct, Correct, Correct, Correct, Correct]
  {
    assert RulesForNum(PatternCount - 1) == Base3Digits(80, 4) + [Correct];
    assert Base3Digits(80, 4) == Base3Digits(26, 3) + [Correct];
    assert Base3Digits(26, 3) == Base3Digits(8, 2) + [Correct];
  }
}
