/**
 * End-to-end sessions of the presenter, each started on an empty store.
 * The inputs are fixed by `requires` so that the verifier reasons through
 * the contracts instead of unfolding the evaluator on literals.
 */
module Scenarios {
  import opened Options
  import opened Numerals
  import Strings
  import Calculator
  import Repository
  import opened Presenter

  lemma RunOne(sys: System, a: Event)
    ensures Run(sys, [a]) == Step(sys, a)
  {
    assert [a][1..] == [];
  }

  lemma RunTwo(sys: System, a: Event, b: Event)
    ensures Run(sys, [a, b]) == Step(Step(sys, a), b)
  {
    assert [a, b][1..] == [b];
    RunOne(Step(sys, a), b);
  }

  lemma RunThree(sys: System, a: Event, b: Event, c: Event)
    ensures Run(sys, [a, b, c]) == Step(Step(Step(sys, a), b), c)
  {
    assert [a, b, c][1..] == [b, c];
    RunTwo(Step(sys, a), b, c);
  }

  /** A fresh store gives an empty draft and an empty history, both pushed to the view. */
  lemma FreshStart()
    ensures Construct(map[]).state == State("", [])
    ensures Construct(map[]).view == View("", [], [])
  {
  }

  /** Typing `4+5` and clicking records `4+5=9`, empties the input and saves `("", ["4+5=9"])`. */
  lemma SuccessfulCalculation(text: string)
    requires text == "4+5"
    ensures var sys := Run(Construct(map[]), [ExpressionChanged(text), CalculateClicked]);
      && sys.state == State("", ["4+5=9"])
      && sys.view == View("", ["4+5=9"], [])
      && Repository.Holds(sys.store, "", ["4+5=9"])
  {
    EvaluateFourPlusFive(text);
    var s0 := Construct(map[]);
    var s1 := OnExpressionChanged(s0, text);
    assert s1.state == State(text, []) && s1.view == View("", [], []);
    var s2 := OnCalculateClicked(s1);
    assert s2.state.history == ["4+5=9"];
    RunTwo(s0, ExpressionChanged(text), CalculateClicked);
  }

  lemma EvaluateFourPlusFive(text: string)
    requires text == "4+5"
    ensures Calculator.CalculateExpression(text) == Some(9)
    ensures Record(text, Some(9)) == "4+5=9"
  {
    assert text == "4" + "+" + "5";
    assert Value("4") == 4 && Value("5") == 5;
    Calculator.AcceptsOperands("4", "5");
    assert FormatInt(9) == "9";
  }

  /**
   * Typing `4+x`, clicking and closing the dialog records `4+x=ERROR`, shows
   * one dialog, and leaves the input field empty rather than showing `4+x`.
   */
  lemma FailedCalculationThenDialogClose(text: string)
    requires text == "4+x"
    ensures var sys := Run(Construct(map[]),
        [ExpressionChanged(text), CalculateClicked, ErrorDialogClosed]);
      && sys.state == State("", ["4+x=ERROR"])
      && sys.view == View("", ["4+x=ERROR"], [ErrorMessage])
      && Repository.Holds(sys.store, "", ["4+x=ERROR"])
  {
    Calculator.RejectsForeignCharacter(text, 2);
    RunThree(Construct(map[]), ExpressionChanged(text), CalculateClicked, ErrorDialogClosed);
    assert Record(text, None) == "4+x=ERROR";
  }

  /** Clicking with nothing typed records the literal `=ERROR`. */
  lemma CalculateWithEmptyDraft()
    ensures Run(Construct(map[]), [CalculateClicked]).state == State("", ["=ERROR"])
  {
    RunOne(Construct(map[]), CalculateClicked);
    EmptyDraftRecordsError(Construct(map[]));
  }

  /**
   * Raw text reaches the history through an error record, so the separator
   * can too: after typing `1|~|2` and clicking, a restart reads back two
   * entries, `1` and `2=ERROR`, where one was saved.
   */
  lemma SeparatorInErrorRecordSplitsOnReload(text: string)
    requires text == "1|~|2"
    ensures var sys := Run(Construct(map[]), [ExpressionChanged(text), CalculateClicked]);
      && sys.state.history == ["1|~|2=ERROR"]
      && Construct(sys.store).state.history == ["1", "2=ERROR"]
  {
    Calculator.RejectsForeignCharacter(text, 1);
    var s0 := Construct(map[]);
    var s1 := OnExpressionChanged(s0, text);
    assert s1.state == State(text, []);
    var s2 := OnCalculateClicked(s1);
    var entry := Record(text, None);
    assert s2.state.history == [entry];
    RunTwo(s0, ExpressionChanged(text), CalculateClicked);
    assert entry == "1|~|2=ERROR";
    SplitErrorRecord(entry);
    assert s2.store[Repository.HistoryKey] == entry;
  }

  lemma SplitErrorRecord(entry: string)
    requires entry == "1|~|2=ERROR"
    ensures Strings.Split(entry, Repository.Separator) == ["1", "2=ERROR"]
  {
    var p, t := "1", "2=ERROR";
    assert Repository.Separator[0] == '|' && '|' !in p && '|' !in t;
    assert entry == p + Repository.Separator + t;
    Strings.SplitAfterCleanPrefix(p, Repository.Separator, t);
    Strings.SplitClean(t, Repository.Separator);
  }
}
