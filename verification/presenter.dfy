/**
 * `CalculatorPresenter`: the draft expression and the history, driven by the
 * view's three events and persisted through the repository after every
 * change. The view is modelled as the record of what the presenter last
 * pushed to it, the repository as its preference store.
 */
module Presenter {
  import opened Options
  import opened Numerals
  import Strings
  import Calculator
  import Repository

  const ErrorMessage: string := "Please check the expression you just entered"

  /** The presenter's fields `_lastExpression` and `_history`. */
  datatype State = State(lastExpression: string, history: seq<string>)

  /**
   * What the presenter has pushed to the view: the input field's text, the
   * history list last rendered, and every error dialog message shown, in order.
   */
  datatype View = View(expression: string, history: seq<string>, dialogs: seq<string>)

  datatype System = System(state: State, view: View, store: Repository.Store)

  /** The events the view raises. */
  datatype Event = ExpressionChanged(text: string) | CalculateClicked | ErrorDialogClosed

  /** The store holds exactly the presenter's state. */
  ghost predicate Persisted(sys: System) {
    Repository.Holds(sys.store, sys.state.lastExpression, sys.state.history)
  }

  /** Only the two repository keys are ever written. */
  ghost predicate SameOtherKeys(a: Repository.Store, b: Repository.Store) {
    a - {Repository.ExpressionKey, Repository.HistoryKey}
      == b - {Repository.ExpressionKey, Repository.HistoryKey}
  }

  /** The record a calculate click appends for draft `d` and evaluator outcome `result`. */
  function Record(d: string, result: Option<int>): (r: string)
    ensures |r| > |d| && r[..|d| + 1] == d + "="
    ensures result.None? <==> r[|d| + 1..] == "ERROR"
    ensures result.Some? ==> r[|d| + 1..] == FormatInt(result.value)
  {
    match result
    case Some(v) => d + "=" + FormatInt(v)
    case None => d + "=ERROR"
  }

  /** `SaveState` (presenter side): hand both fields to the repository. */
  function SaveState(sys: System): (r: System)
    ensures Persisted(r) && SameOtherKeys(r.store, sys.store)
    ensures r.state == sys.state && r.view == sys.view
  {
    sys.(store := Repository.SaveState(sys.store, Some(sys.state.lastExpression), Some(sys.state.history)))
  }

  /** `AddToHistory`: append one record and re-render the whole history. */
  function AddToHistory(sys: System, record: string): (r: System)
    ensures r.state == State(sys.state.lastExpression, sys.state.history + [record])
    ensures r.view == sys.view.(history := r.state.history)
    ensures r.store == sys.store
  {
    var history := sys.state.history + [record];
    sys.(state := sys.state.(history := history), view := sys.view.(history := history))
  }

  /** `ClearInput`: empty the draft and the input field, then save. */
  function ClearInput(sys: System): (r: System)
    ensures r.state == State("", sys.state.history)
    ensures r.view == sys.view.(expression := "")
    ensures Persisted(r) && SameOtherKeys(r.store, sys.store)
  {
    SaveState(sys.(state := sys.state.(lastExpression := ""), view := sys.view.(expression := "")))
  }

  /** `ShowError`: record the draft as failed, clear the input, show the dialog. */
  function ShowError(sys: System): (r: System)
    ensures r.state == State("", sys.state.history + [sys.state.lastExpression + "=ERROR"])
    ensures r.view == View("", r.state.history, sys.view.dialogs + [ErrorMessage])
    ensures Persisted(r) && SameOtherKeys(r.store, sys.store)
  {
    var r := ClearInput(AddToHistory(sys, sys.state.lastExpression + "=ERROR"));
    r.(view := r.view.(dialogs := r.view.dialogs + [ErrorMessage]))
  }

  /** `OnExpressionChanged`: the new text becomes the draft and is saved at once. */
  function OnExpressionChanged(sys: System, text: string): (r: System)
    ensures r.state == State(text, sys.state.history)
    ensures r.view == sys.view
    ensures Persisted(r) && SameOtherKeys(r.store, sys.store)
  {
    SaveState(sys.(state := sys.state.(lastExpression := text)))
  }

  /**
   * `OnCalculateClicked`: exactly one record is appended (the draft with its
   * result, or with `ERROR`), the draft and the input field are emptied, the
   * state is saved, and a dialog is shown exactly when evaluation failed.
   */
  function OnCalculateClicked(sys: System): (r: System)
    ensures var d := sys.state.lastExpression;
      r.state.history == sys.state.history + [Record(d, Calculator.CalculateExpression(d))]
    ensures r.state.lastExpression == "" && r.view.expression == ""
    ensures r.view.history == r.state.history
    ensures var d := sys.state.lastExpression;
      r.view.dialogs == sys.view.dialogs
        + (if Calculator.CalculateExpression(d).None? then [ErrorMessage] else [])
    ensures Persisted(r) && SameOtherKeys(r.store, sys.store)
  {
    var d := sys.state.lastExpression;
    if d == "" then ShowError(sys)
    else
      match Calculator.CalculateExpression(d)
      case Some(v) => ClearInput(AddToHistory(sys, d + "=" + FormatInt(v)))
      case None => ShowError(sys)
  }

  /** `OnErrorDialogClosed`: the input field is set back to the current draft; nothing else changes. */
  function OnErrorDialogClosed(sys: System): (r: System)
    ensures r.state == sys.state && r.store == sys.store
    ensures r.view == sys.view.(expression := sys.state.lastExpression)
  {
    sys.(view := sys.view.(expression := sys.state.lastExpression))
  }

  /**
   * Construction (`LoadState`): the repository's expression becomes the
   * draft, a null history becomes the empty list, and both are pushed to a
   * fresh view. Nothing is saved.
   */
  function Construct(store: Repository.Store): (r: System)
    ensures r.state.lastExpression == Repository.GetString(store, Repository.ExpressionKey, "")
    ensures Repository.GetString(store, Repository.HistoryKey, "") == "" ==> r.state.history == []
    ensures Repository.GetString(store, Repository.HistoryKey, "") != "" ==>
      && Repository.LoadState(store).history == Some(r.state.history)
      && Strings.Join(Repository.Separator, r.state.history) == store[Repository.HistoryKey]
      && |r.state.history| == Strings.CountOccurrences(store[Repository.HistoryKey], Repository.Separator) + 1
      && forall k :: 0 <= k < |r.state.history| ==> !Strings.Contains(r.state.history[k], Repository.Separator)
    ensures r.view == View(r.state.lastExpression, r.state.history, [])
    ensures r.store == store
  {
    var loaded := Repository.LoadState(store);
    var history := loaded.history.GetOr([]);
    System(State(loaded.expression, history), View(loaded.expression, history, []), store)
  }

  function Step(sys: System, e: Event): System {
    match e
    case ExpressionChanged(text) => OnExpressionChanged(sys, text)
    case CalculateClicked => OnCalculateClicked(sys)
    case ErrorDialogClosed => OnErrorDialogClosed(sys)
  }

  function Run(sys: System, events: seq<Event>): System
    decreases |events|
  {
    if events == [] then sys else Run(Step(sys, events[0]), events[1..])
  }

  function Clicks(events: seq<Event>): nat
    decreases |events|
  {
    if events == [] then 0
    else (if events[0].CalculateClicked? then 1 else 0) + Clicks(events[1..])
  }

  /** With an empty draft the click records the literal `"=ERROR"` and shows the dialog. */
  lemma EmptyDraftRecordsError(sys: System)
    requires sys.state.lastExpression == ""
    ensures OnCalculateClicked(sys).state.history == sys.state.history + ["=ERROR"]
    ensures OnCalculateClicked(sys).view.dialogs == sys.view.dialogs + [ErrorMessage]
  {
    Calculator.ExampleMissingOperand("");
    assert Record("", None) == "=ERROR";
  }

  /**
   * Closing the dialog after a failed calculation puts `""` back in the input
   * field, not the text that failed: the draft was already cleared.
   */
  lemma DialogCloseAfterErrorRestoresEmpty(sys: System)
    requires Calculator.CalculateExpression(sys.state.lastExpression).None?
    ensures var r := OnErrorDialogClosed(OnCalculateClicked(sys));
      && r.view.expression == ""
      && r.state.history[|r.state.history| - 1] == sys.state.lastExpression + "=ERROR"
      && r.view.dialogs == sys.view.dialogs + [ErrorMessage]
  {
  }

  /**
   * History is append-only over any run of events: the old history is a
   * prefix of the new one, which is longer by the number of calculate clicks.
   */
  lemma {:induction false} RunAppendsOnly(sys: System, events: seq<Event>)
    ensures sys.state.history <= Run(sys, events).state.history
    ensures |Run(sys, events).state.history| == |sys.state.history| + Clicks(events)
    decreases |events|
  {
    if events != [] {
      var next := Step(sys, events[0]);
      RunAppendsOnly(next, events[1..]);
    }
  }

  /** Once the store holds the state it keeps holding it, and no other key is touched. */
  lemma {:induction false} RunKeepsPersisted(sys: System, events: seq<Event>)
    requires Persisted(sys)
    ensures Persisted(Run(sys, events))
    ensures SameOtherKeys(Run(sys, events).store, sys.store)
    decreases |events|
  {
    if events != [] {
      var next := Step(sys, events[0]);
      RunKeepsPersisted(next, events[1..]);
    }
  }

  /** The decimal text of a result never contains the separator's `'|'`. */
  lemma FormatIntHasNoBar(v: int)
    ensures '|' !in FormatInt(v)
  {
    var r := FormatInt(v);
    if v < 0 {
      assert r == [r[0]] + r[1..];
    }
  }

  /** Every record holds `'='`, and holds `'|'` only if the draft did. */
  lemma RecordShape(d: string, result: Option<int>)
    ensures '=' in Record(d, result)
    ensures '|' !in d ==> '|' !in Record(d, result)
  {
    var r := Record(d, result);
    assert r[..|d| + 1][|d|] == '=';
    if result.Some? {
      FormatIntHasNoBar(result.value);
    }
  }

  /** Constructing from a store holding both keys leaves the store holding the loaded state. */
  lemma ConstructPersisted(store: Repository.Store)
    requires Repository.ExpressionKey in store && Repository.HistoryKey in store
    ensures Persisted(Construct(store))
  {
  }

  /**
   * Restarting reloads exactly the presenter's state when the store holds it,
   * no entry contains `'|'` and the history is not the single empty entry.
   */
  lemma RestartRestoresState(sys: System)
    requires Persisted(sys)
    requires forall k :: 0 <= k < |sys.state.history| ==> '|' !in sys.state.history[k]
    requires sys.state.history != [""]
    ensures Construct(sys.store).state == sys.state
  {
    var loaded := Repository.LoadState(sys.store);
    Strings.JoinIsEmpty(Repository.Separator, sys.state.history);
    if sys.state.history != [] {
      Strings.SplitJoin(sys.state.history, Repository.Separator);
    }
  }

  /** Neither the draft nor any record holds `'|'`: what no typed `'|'` keeps true. */
  ghost predicate CleanSession(sys: System) {
    && '|' !in sys.state.lastExpression
    && forall k :: 0 <= k < |sys.state.history| ==> '|' !in sys.state.history[k]
  }

  ghost predicate NoBarTyped(events: seq<Event>) {
    forall k :: 0 <= k < |events| && events[k].ExpressionChanged? ==> '|' !in events[k].text
  }

  lemma StepKeepsClean(sys: System, e: Event)
    requires CleanSession(sys)
    requires e.ExpressionChanged? ==> '|' !in e.text
    ensures CleanSession(Step(sys, e))
  {
    if e.CalculateClicked? {
      var d := sys.state.lastExpression;
      RecordShape(d, Calculator.CalculateExpression(d));
    }
  }

  lemma {:induction false} RunKeepsClean(sys: System, events: seq<Event>)
    requires CleanSession(sys) && NoBarTyped(events)
    ensures CleanSession(Run(sys, events))
    decreases |events|
  {
    if events != [] {
      StepKeepsClean(sys, events[0]);
      RunKeepsClean(Step(sys, events[0]), events[1..]);
    }
  }

  /**
   * Starting on an empty store, after any events whose typed text holds no
   * `'|'`, a restart reloads exactly the draft and the history.
   */
  lemma SessionSurvivesRestart(events: seq<Event>)
    requires NoBarTyped(events)
    ensures var sys := Run(Construct(map[]), events);
      Construct(sys.store).state == sys.state
  {
    var start := Construct(map[]);
    RunKeepsClean(start, events);
    var sys := Run(start, events);
    forall k | 0 <= k < |sys.state.history|
      ensures !Strings.Contains(sys.state.history[k], Repository.Separator)
    {
      NoBarNoSeparator(sys.state.history[k]);
    }
    SessionSurvivesRestartExactly(events);
  }

  /** Text without `'|'` cannot contain the separator, which starts with `'|'`. */
  lemma NoBarNoSeparator(e: string)
    requires '|' !in e
    ensures !Strings.Contains(e, Repository.Separator)
  {
    Strings.FirstCharAbsent(e, Repository.Separator);
  }

  /** Every record ends with the `R` of `ERROR` or with the last digit of the result. */
  lemma RecordEnding(d: string, result: Option<int>)
    ensures var r := Record(d, result); |r| > 0 && (r[|r| - 1] == 'R' || IsDigit(r[|r| - 1]))
  {
    if result.Some? {
      var f := FormatInt(result.value);
      var r := Record(d, result);
      assert r[|r| - 1] == f[|f| - 1];
      if result.value < 0 {
        assert f[1..][|f| - 2] == f[|f| - 1];
      }
    }
  }

  /** A record that was computed holds only digits, `+`, `=` and a sign: never `'|'`. */
  lemma SuccessRecordHasNoBar(d: string, v: int)
    requires Calculator.CalculateExpression(d) == Some(v)
    ensures '|' !in Record(d, Some(v))
  {
    Calculator.SuccessIsWellFormed(d);
    Calculator.WellFormedHasNoBar(d, |Strings.Split(d, "+")[0]|);
    RecordShape(d, Some(v));
  }

  /**
   * What a session started on an empty store keeps true whatever is typed:
   * every record is non-empty and does not end with `'~'`, and the store
   * holds the state unless nothing has happened yet.
   */
  ghost predicate RecordSession(sys: System) {
    && (forall k :: 0 <= k < |sys.state.history| ==>
          sys.state.history[k] != "" && sys.state.history[k][|sys.state.history[k]| - 1] != '~')
    && PersistedOrFresh(sys)
  }

  /** The store holds the state, or nothing has been stored and the state is the initial one. */
  ghost predicate PersistedOrFresh(sys: System) {
    Persisted(sys) || (sys.store == map[] && sys.state == State("", []))
  }

  lemma StepKeepsRecords(sys: System, e: Event)
    requires RecordSession(sys)
    ensures RecordSession(Step(sys, e))
  {
    if e.CalculateClicked? {
      var d := sys.state.lastExpression;
      RecordEnding(d, Calculator.CalculateExpression(d));
    }
  }

  lemma {:induction false} RunKeepsRecords(sys: System, events: seq<Event>)
    requires RecordSession(sys)
    ensures RecordSession(Run(sys, events))
    decreases |events|
  {
    if events != [] {
      StepKeepsRecords(sys, events[0]);
      RunKeepsRecords(Step(sys, events[0]), events[1..]);
    }
  }

  /** An entry that does not end with `'~'` cannot end with `"|~"`. */
  lemma NotTildeEnding(e: string)
    requires e != "" && e[|e| - 1] != '~'
    ensures !Repository.EndsInBarTilde(e)
  {
    if |e| >= 2 {
      assert e[|e| - 2..][1] == e[|e| - 1];
    }
  }

  /**
   * In such a session, a restart reloads exactly the draft and the history
   * if and only if no history entry contains the separator.
   */
  lemma RestartExactly(sys: System)
    requires RecordSession(sys)
    ensures Construct(sys.store).state == sys.state <==>
      forall k :: 0 <= k < |sys.state.history| ==> !Strings.Contains(sys.state.history[k], Repository.Separator)
  {
    var h := sys.state.history;
    if Persisted(sys) && h != [] {
      assert h[0] != "";
      forall k | 0 <= k < |h| ensures !Repository.EndsInBarTilde(h[k]) {
        NotTildeEnding(h[k]);
      }
      Repository.LoadHeldExactly(sys.store, sys.state.lastExpression, h);
    }
  }

  /**
   * Starting on an empty store, after any events, a restart reloads exactly
   * the draft and the history if and only if no record contains the
   * separator, which only an error record can (`SuccessRecordHasNoBar`).
   */
  lemma SessionSurvivesRestartExactly(events: seq<Event>)
    ensures var sys := Run(Construct(map[]), events);
      Construct(sys.store).state == sys.state <==>
        forall k :: 0 <= k < |sys.state.history| ==>
          !Strings.Contains(sys.state.history[k], Repository.Separator)
  {
    var start := Construct(map[]);
    RunKeepsRecords(start, events);
    RestartExactly(Run(start, events));
  }
}
