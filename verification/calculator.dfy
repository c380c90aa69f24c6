/**
 * The expression evaluator of the calculator presenter: it accepts exactly
 * `<digits>+<digits>` with both operands fitting in an `int`, and returns
 * their sum in unchecked 32-bit arithmetic; anything else yields null.
 */
module Calculator {
  import opened Options
  import opened Numerals
  import Strings

  /** `CalculateExpression`: null for every input outside the grammar. */
  function CalculateExpression(expression: string): (r: Option<int>)
    ensures r.Some? ==> MinInt32 <= r.value <= MaxInt32
  {
    if expression == "" then None
    else
      var parts := Strings.Split(expression, "+");
      if |parts| != 2 then None
      else if parts[0] == "" || parts[1] == "" then None
      else if !IsDigitsOnly(parts[0]) || !IsDigitsOnly(parts[1]) then None
      else
        match (TryParseInt32(parts[0]), TryParseInt32(parts[1]))
        case (Some(a), Some(b)) => Some(Wrap32(a + b))
        case _ => None
  }

  /** `s` is a non-empty digit run, a single `+` at index `i`, and a non-empty digit run. */
  ghost predicate WellFormedAt(s: string, i: int) {
    0 < i < |s| - 1 && s[i] == '+' && IsDigitsOnly(s[..i]) && IsDigitsOnly(s[i + 1..])
  }

  /** Both operands around the `+` at `i` are at most `int.MaxValue`. */
  ghost predicate OperandsFit(s: string, i: int)
    requires WellFormedAt(s, i)
  {
    Value(s[..i]) <= MaxInt32 && Value(s[i + 1..]) <= MaxInt32
  }

  /** Splitting a well-formed expression on `'+'` gives exactly its two operands. */
  lemma SplitWellFormed(s: string, i: int)
    requires WellFormedAt(s, i)
    ensures Strings.Split(s, "+") == [s[..i], s[i + 1..]]
  {
    var a, b := s[..i], s[i + 1..];
    DigitsOnlyExcludesNonDigits(a);
    DigitsOnlyExcludesNonDigits(b);
    assert s == a + "+" + b;
    Strings.SplitAfterCleanPrefix(a, "+", b);
    Strings.FirstCharAbsent(b, "+");
  }

  /**
   * On a well-formed expression the evaluator succeeds exactly when both
   * operands fit in an `int`, and then returns their wrapped sum.
   */
  lemma AcceptsWellFormed(s: string, i: int)
    requires WellFormedAt(s, i)
    ensures CalculateExpression(s).Some? <==> OperandsFit(s, i)
    ensures OperandsFit(s, i) ==>
      CalculateExpression(s) == Some(Wrap32(Value(s[..i]) + Value(s[i + 1..])))
  {
    SplitWellFormed(s, i);
  }

  /** A successful evaluation was of an expression well formed at its first operand's end. */
  lemma SuccessIsWellFormed(s: string)
    requires CalculateExpression(s).Some?
    ensures WellFormedAt(s, |Strings.Split(s, "+")[0]|)
  {
    var parts := Strings.Split(s, "+");
    Strings.JoinSplit(s, "+");
    assert s == parts[0] + "+" + parts[1];
    assert s[..|parts[0]|] == parts[0];
    assert s[|parts[0]| + 1..] == parts[1];
  }

  /** A well-formed expression holds only digits and one `+`; in particular no `'|'`. */
  lemma WellFormedHasNoBar(s: string, i: int)
    requires WellFormedAt(s, i)
    ensures '|' !in s
  {
    forall k | 0 <= k < |s| ensures s[k] != '|' {
      if k < i {
        assert s[..i][k] == s[k];
      } else if k > i {
        assert s[i + 1..][k - i - 1] == s[k];
      }
    }
  }

  /** Every input that is not a well-formed `<digits>+<digits>` yields null. */
  lemma RejectsMalformed(s: string)
    requires forall i :: !WellFormedAt(s, i)
    ensures CalculateExpression(s) == None
  {
    if CalculateExpression(s).Some? {
      SuccessIsWellFormed(s);
    }
  }

  /** Two `+` signs anywhere make the expression invalid, e.g. `"2+3+4"`. */
  lemma RejectsSecondPlus(s: string, i: int, j: int)
    requires 0 <= i < j < |s| && s[i] == '+' && s[j] == '+'
    ensures CalculateExpression(s) == None
  {
    RejectsMalformed(s);
  }

  /** The result is non-negative exactly when the true sum does not overflow. */
  lemma ResultSignShowsOverflow(s: string, i: int)
    requires WellFormedAt(s, i) && OperandsFit(s, i)
    ensures var sum := Value(s[..i]) + Value(s[i + 1..]);
      && (sum <= MaxInt32 ==> CalculateExpression(s) == Some(sum))
      && (sum > MaxInt32 ==> CalculateExpression(s) == Some(sum - Modulus32))
  {
    AcceptsWellFormed(s, i);
    Wrap32OfNonNegativeSum(Value(s[..i]), Value(s[i + 1..]));
  }

  /** `AcceptsWellFormed` with the two operands named. */
  lemma AcceptsNamedOperands(s: string, i: int, a: string, b: string)
    requires WellFormedAt(s, i) && s[..i] == a && s[i + 1..] == b
    ensures Value(a) <= MaxInt32 && Value(b) <= MaxInt32 ==>
      CalculateExpression(s) == Some(Wrap32(Value(a) + Value(b)))
    ensures Value(a) > MaxInt32 || Value(b) > MaxInt32 ==> CalculateExpression(s) == None
  {
    AcceptsWellFormed(s, i);
  }

  /** `a + "+" + b` is well formed at `|a|`, with `a` and `b` as its operands. */
  lemma JoinedOperands(a: string, b: string)
    requires a != "" && b != "" && IsDigitsOnly(a) && IsDigitsOnly(b)
    ensures var s := a + "+" + b;
      && WellFormedAt(s, |a|) && s[..|a|] == a && s[|a| + 1..] == b
  {
    var s := a + "+" + b;
    assert s[..|a|] == a;
    assert s[|a| + 1..] == b;
  }

  /** The same law stated on the two operands: `a + "+" + b` evaluates from `a` and `b` alone. */
  lemma AcceptsOperands(a: string, b: string)
    requires a != "" && b != "" && IsDigitsOnly(a) && IsDigitsOnly(b)
    ensures Value(a) <= MaxInt32 && Value(b) <= MaxInt32 ==>
      CalculateExpression(a + "+" + b) == Some(Wrap32(Value(a) + Value(b)))
    ensures Value(a) > MaxInt32 || Value(b) > MaxInt32 ==> CalculateExpression(a + "+" + b) == None
  {
    JoinedOperands(a, b);
    AcceptsNamedOperands(a + "+" + b, |a|, a, b);
  }

  // The worked cases below take the text as a parameter fixed by `requires`,
  // so that the verifier reasons about the evaluator instead of unfolding it.

  lemma ExampleSimpleSum(s: string)
    requires s == "2+3"
    ensures CalculateExpression(s) == Some(5)
  {
    assert s == "2" + "+" + "3";
    assert Value("2") == 2 && Value("3") == 3;
    AcceptsOperands("2", "3");
  }

  /** Leading zeros are accepted: `"007+003"` is 10. */
  lemma ExampleLeadingZeros(s: string)
    requires s == "007+003"
    ensures CalculateExpression(s) == Some(10)
  {
    LeadingZerosIgnored("00", "7");
    LeadingZerosIgnored("00", "3");
    assert Value("7") == 7 && Value("3") == 3;
    assert s == "00" + "7" + "+" + ("00" + "3");
    AcceptsOperands("00" + "7", "00" + "3");
  }

  lemma ExampleThirdOperand(s: string)
    requires s == "2+3+4"
    ensures CalculateExpression(s) == None
  {
    RejectsSecondPlus(s, 1, 3);
  }

  lemma ExampleMissingOperand(s: string)
    requires s == "2+" || s == "+3" || s == ""
    ensures CalculateExpression(s) == None
  {
    RejectsMalformed(s);
  }

  /** Any character other than a digit or `+` (a letter, a sign, a space, a point) gives null. */
  lemma RejectsForeignCharacter(s: string, k: int)
    requires 0 <= k < |s| && s[k] != '+' && !IsDigit(s[k])
    ensures CalculateExpression(s) == None
  {
    forall i | 0 < i < |s| - 1 && s[i] == '+'
      ensures !IsDigitsOnly(s[..i]) || !IsDigitsOnly(s[i + 1..])
    {
      if k < i {
        assert s[..i][k] == s[k];
      } else {
        assert s[i + 1..][k - i - 1] == s[k];
      }
    }
    RejectsMalformed(s);
  }

  lemma ExampleNonDigits(s: string)
    requires s == "a+3" || s == "-2+3" || s == " 2+3" || s == "1.5+2"
    ensures CalculateExpression(s) == None
  {
    if s == "1.5+2" {
      RejectsForeignCharacter(s, 1);
    } else {
      RejectsForeignCharacter(s, 0);
    }
  }

  /** `int.MaxValue + 1` wraps to `int.MinValue`. */
  lemma ExampleOverflowWraps(s: string)
    requires s == "2147483647+1"
    ensures CalculateExpression(s) == Some(MinInt32)
  {
    MaxInt32Digits();
    assert Value("1") == 1;
    assert s == "2147483647" + "+" + "1";
    AcceptsOperands("2147483647", "1");
  }

  /** An operand above `int.MaxValue` makes `int.TryParse` fail. */
  lemma ExampleOperandTooLarge(s: string)
    requires s == "2147483648+0"
    ensures CalculateExpression(s) == None
  {
    MaxInt32Digits();
    assert s == "2147483648" + "+" + "0";
    AcceptsOperands("2147483648", "0");
  }
}
