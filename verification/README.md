# Two-operand calculator: presenter and persisted history

A Dafny model of the core of a small Unity calculator. The model covers two
parts:

- the `CalculatorPresenter`, which holds a draft expression and a history of
  records, evaluates `<digits>+<digits>` expressions and reacts to three view
  events;
- the `PlayerPrefsCalculatorRepository`, which stores the draft and the
  history, joined with the separator `"|~|"`, under two keys of a
  key/value preference store.

Modules, one per concern of the source:

- `Options`: the nullable value (`int?`, a possibly-null list).
- `Strings`: .NET `string.Split` with `StringSplitOptions.None` and
  `string.Join`. Matching is leftmost and non-overlapping. The module
  proves the join/split laws.
- `Numerals`: digit strings, `int.TryParse` on digits, unchecked 32-bit
  addition and `int.ToString()`.
- `Calculator`: `CalculateExpression` and its grammar.
- `Repository`: `SaveState` / `LoadState` over a map standing for
  PlayerPrefs.
- `Presenter`: the presenter's state `(_lastExpression, _history)`, a
  record of what was pushed to the view, and the store. It defines one
  transition function per event, plus construction and runs of events.
- `Scenarios`: whole sessions started on an empty store.

Points where the code's behaviour is surprising. The model follows the
code:

- Closing the error dialog calls the view's `RestoreExpression` with
  `_lastExpression`. The name suggests the failed text is put back, but
  `ShowError` has already cleared the draft, so the input field is set to
  `""` (`Presenter.DialogCloseAfterErrorRestoresEmpty`,
  `Scenarios.FailedCalculationThenDialogClose`).
- Error records contain the raw user text, so a history entry can contain
  the separator. Such an entry comes back as several entries after a
  restart (`Scenarios.SeparatorInErrorRecordSplitsOnReload`).
- Save-then-load does not give back every separator-free history. `[]` and
  `[""]` are both stored as `""` and read back as null. Any other history
  comes back exactly when no entry contains `"|~|"` and no entry but the
  last ends with `"|~"` (`Repository.SaveLoadExactly`). An entry ending with
  `"|~"` runs into the separator after it: `["a|~", "b"]` is stored as
  `"a|~|~|b"` and reads back as `["a", "~|b"]`
  (`Repository.SaveLoadOverlap`). Records never end with `'~'`, so a
  session survives a restart exactly when no record holds the separator,
  and only error records can (`Presenter.SessionSurvivesRestartExactly`).
- `a + b` runs in C#'s default unchecked context. So `"2147483647+1"`
  yields `-2147483648` (`Calculator.ExampleOverflowWraps`).

## Model

| member | source | states |
|---|---|---|
| Calculator.CalculateExpression | calc/Assets/_Main/_Core/Presenter/CalculatorPresenter.cs:62-83 | a result, when there is one, lies in the 32-bit signed range |
| Calculator.AcceptsWellFormed | calc/Assets/_Main/_Core/Presenter/CalculatorPresenter.cs:62-88 | on a non-empty digit run, one `+` and a non-empty digit run, the evaluator succeeds exactly when both operands are at most int.MaxValue, and then returns their 32-bit wrapped sum |
| Calculator.AcceptsOperands | calc/Assets/_Main/_Core/Presenter/CalculatorPresenter.cs:72-82 | the same law for `a + "+" + b`: null when either operand exceeds int.MaxValue, else the wrapped sum |
| Calculator.WellFormedHasNoBar | calc/Assets/_Main/_Core/Presenter/CalculatorPresenter.cs:65-76 | an expression the evaluator accepts holds only digits and one `+`, so no vertical bar |
| Calculator.RejectsMalformed | calc/Assets/_Main/_Core/Presenter/CalculatorPresenter.cs:65-76 | every input that is not `<digits>+<digits>` with both sides non-empty yields null |
| Calculator.SuccessIsWellFormed | calc/Assets/_Main/_Core/Presenter/CalculatorPresenter.cs:65-76 | a successful evaluation implies the input is well formed, split at the end of its first piece |
| Calculator.RejectsSecondPlus | calc/Assets/_Main/_Core/Presenter/CalculatorPresenter.cs:68-70 | two `+` anywhere in the input yield null |
| Calculator.RejectsForeignCharacter | calc/Assets/_Main/_Core/Presenter/CalculatorPresenter.cs:85-88 | any character that is neither a digit nor `+` (letter, sign, space, point) yields null |
| Calculator.ResultSignShowsOverflow | calc/Assets/_Main/_Core/Presenter/CalculatorPresenter.cs:78-81 | the result equals the true sum when it fits, and the sum minus 2^32 when it overflows |
| Calculator.ExampleSimpleSum | calc/Assets/_Main/_Core/Presenter/CalculatorPresenter.cs:78-81 | `"2+3"` yields 5 |
| Calculator.ExampleLeadingZeros | calc/Assets/_Main/_Core/Presenter/CalculatorPresenter.cs:78-81 | `"007+003"` yields 10 |
| Calculator.ExampleThirdOperand | calc/Assets/_Main/_Core/Presenter/CalculatorPresenter.cs:68-70 | `"2+3+4"` yields null |
| Calculator.ExampleMissingOperand | calc/Assets/_Main/_Core/Presenter/CalculatorPresenter.cs:65-73 | `"2+"`, `"+3"` and `""` yield null |
| Calculator.ExampleNonDigits | calc/Assets/_Main/_Core/Presenter/CalculatorPresenter.cs:75-76 | `"a+3"`, `"-2+3"`, `" 2+3"` and `"1.5+2"` yield null |
| Calculator.ExampleOverflowWraps | calc/Assets/_Main/_Core/Presenter/CalculatorPresenter.cs:80 | `"2147483647+1"` yields int.MinValue |
| Calculator.ExampleOperandTooLarge | calc/Assets/_Main/_Core/Presenter/CalculatorPresenter.cs:78-82 | `"2147483648+0"` yields null |
| Numerals.DigitsOnlyExcludesNonDigits | calc/Assets/_Main/_Core/Presenter/CalculatorPresenter.cs:85-88 | a string that passes the digit check holds no `+`, `-`, space, tab or decimal point |
| Numerals.TryParseInt32 | calc/Assets/_Main/_Core/Presenter/CalculatorPresenter.cs:78 | a parsed operand lies between 0 and int.MaxValue |
| Numerals.TryParseReadsDecimal | calc/Assets/_Main/_Core/Presenter/CalculatorPresenter.cs:78 | a parse that succeeds returns the value whose decimal text the input is, after leading zeros only; a parse that fails had an empty input, a non-digit, or a value above int.MaxValue |
| Numerals.CanonicalAfterZeros | calc/Assets/_Main/_Core/Presenter/CalculatorPresenter.cs:78 | every non-empty digit string is the decimal text of its value preceded by zeros only |
| Numerals.Wrap32 | calc/Assets/_Main/_Core/Presenter/CalculatorPresenter.cs:80 | the unchecked sum lies in the 32-bit signed range and is congruent to the true sum modulo 2^32 |
| Numerals.Wrap32OfNonNegativeSum | calc/Assets/_Main/_Core/Presenter/CalculatorPresenter.cs:80 | adding two non-negative ints overflows to a negative value exactly when the sum exceeds int.MaxValue |
| Numerals.ValueConcat | calc/Assets/_Main/_Core/Presenter/CalculatorPresenter.cs:78 | the value of a concatenation of digit strings is the first value shifted past the second plus the second |
| Numerals.LeadingZerosIgnored | calc/Assets/_Main/_Core/Presenter/CalculatorPresenter.cs:78 | leading zeros do not change an operand's value |
| Numerals.MaxInt32Digits | calc/Assets/_Main/_Core/Presenter/CalculatorPresenter.cs:78 | `"2147483647"` reads as int.MaxValue and `"2147483648"` as one more |
| Numerals.FormatNat | calc/Assets/_Main/_Core/Presenter/CalculatorPresenter.cs:47 | the text of a non-negative result is non-empty, all digits, reads back as the number, and has no leading zero |
| Numerals.FormatInt | calc/Assets/_Main/_Core/Presenter/CalculatorPresenter.cs:47 | the text of a result starts with `-` exactly for negatives; the digits after it read back as the magnitude and have no leading zero (a non-negative result starts with `0` only when it is `"0"`) |
| Numerals.CanonicalIsFormatted | calc/Assets/_Main/_Core/Presenter/CalculatorPresenter.cs:47 | a non-empty digit string without a leading zero is exactly the text `int.ToString()` gives for its value |
| Strings.Find | calc/Assets/_Main/_Core/Services/PlayerPrefsCalculatorRepository.cs:40 | the index returned is an occurrence of the separator with none before it; no index means no occurrence |
| Strings.Split | calc/Assets/_Main/_Core/Services/PlayerPrefsCalculatorRepository.cs:40 | a split yields at least one piece, and the first piece begins the input |
| Strings.Join | calc/Assets/_Main/_Core/Services/PlayerPrefsCalculatorRepository.cs:20 | joining no parts gives `""`; otherwise the result begins with the first part, followed by the separator when there are more parts |
| Strings.SplitClean | calc/Assets/_Main/_Core/Services/PlayerPrefsCalculatorRepository.cs:40 | a string without the separator's first character splits into itself alone |
| Strings.FindAfterCleanPrefix | calc/Assets/_Main/_Core/Services/PlayerPrefsCalculatorRepository.cs:40 | in `p + sep + t`, with `p` free of the separator's first character, the first occurrence is right after `p` |
| Strings.SplitAfterCleanPrefix | calc/Assets/_Main/_Core/Services/PlayerPrefsCalculatorRepository.cs:40 | splitting `p + sep + t`, with `p` free of the separator's first character, cuts off exactly `p` and goes on splitting `t` |
| Strings.SplitIsLeftmost | calc/Assets/_Main/_Core/Services/PlayerPrefsCalculatorRepository.cs:40 | every cut of a split is made at the leftmost remaining occurrence of the separator, and the last piece contains none |
| Strings.LeftmostSplitIsSplit | calc/Assets/_Main/_Core/Services/PlayerPrefsCalculatorRepository.cs:40 | any list of pieces cut at the leftmost remaining occurrences is the split's result, so leftmost cutting determines the split |
| Strings.LeftmostFirstCut | calc/Assets/_Main/_Core/Services/PlayerPrefsCalculatorRepository.cs:40 | when leftmost cutting gives several pieces, the split cuts off the first piece and splits what follows the separator |
| Strings.SplitJoinExactly | calc/Assets/_Main/_Core/Services/PlayerPrefsCalculatorRepository.cs:17-42 | join-then-split gives the parts back if and only if the separator starts inside no part except the last one (even where it would run into the separator that follows) and the last part does not contain it |
| Strings.LeftmostJoinExactly | calc/Assets/_Main/_Core/Services/PlayerPrefsCalculatorRepository.cs:17-42 | the leftmost-cut condition on a joined text holds exactly under that part-by-part condition |
| Strings.OccursInsideFirst | calc/Assets/_Main/_Core/Services/PlayerPrefsCalculatorRepository.cs:40 | an occurrence starting inside `p` in `p + sep + t` lies within `p + sep` |
| Strings.JoinSplit | calc/Assets/_Main/_Core/Services/PlayerPrefsCalculatorRepository.cs:40 | joining the pieces of a split with the separator rebuilds the input, for every input |
| Strings.SplitPiecesAreSeparatorFree | calc/Assets/_Main/_Core/Services/PlayerPrefsCalculatorRepository.cs:40 | no piece of a split contains the separator |
| Strings.SplitCount | calc/Assets/_Main/_Core/Services/PlayerPrefsCalculatorRepository.cs:40 | a split yields one piece more than the non-overlapping occurrences of the separator |
| Strings.SplitJoin | calc/Assets/_Main/_Core/Services/PlayerPrefsCalculatorRepository.cs:17-42 | splitting the join of a non-empty list of parts gives the parts back when no part holds the separator's first character |
| Strings.SplitJoinBreaks | calc/Assets/_Main/_Core/Services/PlayerPrefsCalculatorRepository.cs:17-42 | a part that contains the separator never survives join-then-split |
| Strings.JoinIsEmpty | calc/Assets/_Main/_Core/Services/PlayerPrefsCalculatorRepository.cs:20 | the joined history is empty exactly for `[]` and `[""]` |
| Repository.GetString | calc/Assets/_Main/_Core/Services/PlayerPrefsCalculatorRepository.cs:33-35 | a present key reads as its stored string and an absent key as the default |
| Repository.SaveState | calc/Assets/_Main/_Core/Services/PlayerPrefsCalculatorRepository.cs:14-28 | both keys then hold the expression (`""` for null) and the joined history (`""` for null); every other key is untouched |
| Repository.LoadState | calc/Assets/_Main/_Core/Services/PlayerPrefsCalculatorRepository.cs:30-43 | absent keys read as `""`; the history is null exactly when its string is empty, else its entries join back to the stored string, number one more than the separators, contain no separator, and are cut at the leftmost remaining separator each time |
| Repository.SaveLoadRoundTrip | calc/Assets/_Main/_Core/Services/PlayerPrefsCalculatorRepository.cs:14-43 | load-after-save returns the expression, and returns the history when its entries hold no vertical bar and it is neither `[]` nor `[""]`; those two read back as null |
| Repository.CleanCutSeparator | calc/Assets/_Main/_Core/Services/PlayerPrefsCalculatorRepository.cs:20-40 | for the calculator's separator, it starts inside an entry followed by it exactly when the entry contains it or ends with the separator's first two characters |
| Repository.NotAtLastCharacter | calc/Assets/_Main/_Core/Services/PlayerPrefsCalculatorRepository.cs:20-40 | the separator cannot start at an entry's last character when the separator follows |
| Repository.SaveLoadExactly | calc/Assets/_Main/_Core/Services/PlayerPrefsCalculatorRepository.cs:14-43 | a history other than `[]` and `[""]` comes back from load-after-save if and only if no entry contains the separator and no entry but the last ends with its first two characters |
| Repository.LoadHeldExactly | calc/Assets/_Main/_Core/Services/PlayerPrefsCalculatorRepository.cs:30-43 | the same law for any store holding the joined history |
| Repository.SaveLoadOverlap | calc/Assets/_Main/_Core/Services/PlayerPrefsCalculatorRepository.cs:14-43 | the history of the entries `a` plus the separator's first two characters, then `b`, reads back as `a` and the separator's last two characters plus `b` |
| Repository.SaveNullsLoadEmpty | calc/Assets/_Main/_Core/Services/PlayerPrefsCalculatorRepository.cs:17-26 | a null expression and a null, empty or single-empty history read back as `""` and null |
| Repository.SaveLoadSplitsEntry | calc/Assets/_Main/_Core/Services/PlayerPrefsCalculatorRepository.cs:17-42 | a history with an entry containing the separator never reads back as itself |
| Repository.LoadFresh | calc/Assets/_Main/_Core/Services/PlayerPrefsCalculatorRepository.cs:33-42 | an empty store yields `""` and a null history |
| Presenter.Record | calc/Assets/_Main/_Core/Presenter/CalculatorPresenter.cs:44-53 | a record is the draft, `=`, then `ERROR` exactly when evaluation failed, and otherwise the decimal text of the result |
| Presenter.RecordShape | calc/Assets/_Main/_Core/Presenter/CalculatorPresenter.cs:44-53 | every record contains `=`, and contains a vertical bar only if the draft did |
| Presenter.FormatIntHasNoBar | calc/Assets/_Main/_Core/Presenter/CalculatorPresenter.cs:47 | the decimal text of a result never contains a vertical bar |
| Presenter.AddToHistory | calc/Assets/_Main/_Core/Presenter/CalculatorPresenter.cs:98-109 | the record is appended at the end of the history, the whole history is pushed to the view, and the draft and the store are untouched |
| Presenter.ClearInput | calc/Assets/_Main/_Core/Presenter/CalculatorPresenter.cs:111-117 | the draft and the input field become `""`, the history is kept, and the store then holds `("", history)` with other keys untouched |
| Presenter.ShowError | calc/Assets/_Main/_Core/Presenter/CalculatorPresenter.cs:90-96 | the raw draft followed by `=ERROR` is appended, the draft and input field become `""`, exactly one error message is added to the dialogs, and the store holds the new state |
| Presenter.SaveState | calc/Assets/_Main/_Core/Presenter/CalculatorPresenter.cs:119-123 | afterwards the store holds exactly the presenter's state; nothing else changes |
| Presenter.OnExpressionChanged | calc/Assets/_Main/_Core/Presenter/CalculatorPresenter.cs:28-33 | the text becomes the draft, the history is unchanged, the view is untouched, and the store holds `(text, history)` |
| Presenter.OnCalculateClicked | calc/Assets/_Main/_Core/Presenter/CalculatorPresenter.cs:35-54 | exactly one record `draft=result` or `draft=ERROR` is appended, on both branches the draft and input field become `""` and the store holds `("", history)`; a dialog is shown exactly when evaluation failed |
| Presenter.OnErrorDialogClosed | calc/Assets/_Main/_Core/Presenter/CalculatorPresenter.cs:56-60 | no state or store change; the input field is set to the current draft |
| Presenter.Construct | calc/Assets/_Main/_Core/Presenter/CalculatorPresenter.cs:125-133 | the loaded expression becomes the draft; an empty stored history becomes `[]`; a non-empty one becomes the repository's split of it, whose entries join back to the stored string, number one more than its separators and hold no separator; both are pushed to the view; the store is not written |
| Presenter.EmptyDraftRecordsError | calc/Assets/_Main/_Core/Presenter/CalculatorPresenter.cs:38-42 | a click with an empty draft appends the literal `"=ERROR"` and shows the dialog |
| Presenter.DialogCloseAfterErrorRestoresEmpty | calc/Assets/_Main/_Core/Presenter/CalculatorPresenter.cs:56-60 | after a failed calculation, closing the dialog puts `""` in the input field, not the failed text |
| Presenter.RunAppendsOnly | calc/Assets/_Main/_Core/Presenter/CalculatorPresenter.cs:98-103 | over any run of events the old history is a prefix of the new one, which is longer by the number of calculate clicks |
| Presenter.RunKeepsPersisted | calc/Assets/_Main/_Core/Presenter/CalculatorPresenter.cs:111-123 | once the store holds the state, every later event keeps it so, and keys other than the two are untouched |
| Presenter.ConstructPersisted | calc/Assets/_Main/_Core/Presenter/CalculatorPresenter.cs:125-133 | when both keys are present, the loaded state is exactly what the store holds |
| Presenter.RestartRestoresState | calc/Assets/_Main/_Core/Presenter/CalculatorPresenter.cs:125-133 | reconstructing from a store that holds the state restores it, when no entry holds a vertical bar and the history is not `[""]` |
| Presenter.StepKeepsClean | calc/Assets/_Main/_Core/Presenter/CalculatorPresenter.cs:28-60 | when neither the draft nor any record holds a vertical bar, one event that types no vertical bar keeps it so |
| Presenter.RunKeepsClean | calc/Assets/_Main/_Core/Presenter/CalculatorPresenter.cs:28-60 | the same for any run of such events |
| Presenter.RecordEnding | calc/Assets/_Main/_Core/Presenter/CalculatorPresenter.cs:44-53 | every record ends with the `R` of `ERROR` or a digit of the result |
| Presenter.SuccessRecordHasNoBar | calc/Assets/_Main/_Core/Presenter/CalculatorPresenter.cs:44-49 | a record of a successful calculation never contains a vertical bar |
| Presenter.StepKeepsRecords | calc/Assets/_Main/_Core/Presenter/CalculatorPresenter.cs:28-60 | whatever is typed, one event keeps every record non-empty and not ending with `~`, and keeps the store holding the state once it has been written |
| Presenter.RunKeepsRecords | calc/Assets/_Main/_Core/Presenter/CalculatorPresenter.cs:28-60 | the same for any run of events |
| Presenter.NotTildeEnding | calc/Assets/_Main/_Core/Presenter/CalculatorPresenter.cs:44-53 | a record that does not end with `~` does not end with the separator's first two characters |
| Presenter.RestartExactly | calc/Assets/_Main/_Core/Presenter/CalculatorPresenter.cs:119-133 | in such a session a restart reloads exactly the draft and the history if and only if no entry contains the separator |
| Presenter.SessionSurvivesRestartExactly | calc/Assets/_Main/_Core/Presenter/CalculatorPresenter.cs:119-133 | from an empty store, after any events, a restart reloads exactly the draft and the history if and only if no record contains the separator |
| Presenter.NoBarNoSeparator | calc/Assets/_Main/_Core/Services/PlayerPrefsCalculatorRepository.cs:20-40 | text without a vertical bar cannot contain the separator |
| Presenter.SessionSurvivesRestart | calc/Assets/_Main/_Core/Presenter/CalculatorPresenter.cs:119-133 | from an empty store, after any events whose typed text holds no vertical bar, a restart reloads exactly the draft and the history |
| Scenarios.FreshStart | calc/Assets/_Main/_Core/Presenter/CalculatorPresenter.cs:125-133 | an empty store gives draft `""` and history `[]`, both shown in the view |
| Scenarios.SuccessfulCalculation | calc/Assets/_Main/_Core/Presenter/CalculatorPresenter.cs:44-49 | typing `4+5` and clicking gives history `["4+5=9"]`, an empty input field, no dialog, and the saved `("", ["4+5=9"])` |
| Scenarios.FailedCalculationThenDialogClose | calc/Assets/_Main/_Core/Presenter/CalculatorPresenter.cs:50-60 | typing `4+x`, clicking and closing the dialog gives `["4+x=ERROR"]`, one dialog and an empty input field |
| Scenarios.CalculateWithEmptyDraft | calc/Assets/_Main/_Core/Presenter/CalculatorPresenter.cs:38-42 | clicking with nothing typed gives `["=ERROR"]` |
| Scenarios.SplitErrorRecord | calc/Assets/_Main/_Core/Services/PlayerPrefsCalculatorRepository.cs:40 | the stored record made of `1`, the separator and `2=ERROR` splits into `["1", "2=ERROR"]` |
| Scenarios.SeparatorInErrorRecordSplitsOnReload | calc/Assets/_Main/_Core/Presenter/CalculatorPresenter.cs:93 | typing `1`, the separator and `2`, then clicking, stores one record that reloads as `["1", "2=ERROR"]` |

## Left out

- The Unity view, the error dialog widget, the panel resizer and the bootstrapper are not modelled: they are widgets, layout arithmetic and wiring. The view appears only as the record of the expression, history and dialog messages the presenter pushed to it. The view renders history newest first; that order is presentation only.
- `HideErrorDialog` is never called by the presenter; the dialog hides itself when closed, which is view behaviour.
- `CalculatorState` is an unused data holder.
- `Debug.Log` calls and `PlayerPrefs.Save()` (the flush to disk) have no effect on the modelled state. The preference store is an in-memory map.
- Setting the input field's text raises `OnExpressionChanged` again. This happens from inside `ClearInput`, from construction, and from `OnErrorDialogClosed` through the view's `RestoreExpression` (CalculatorView.cs:94-98). The re-entrant call is not modelled. In `ClearInput` and `OnErrorDialogClosed` it sets the draft to the value it already has and saves the same pair again. During construction it would save the loaded pair.
- The presenter and the view share one history list object. This aliasing is not modelled: the view's copy is updated at the same points the source calls `UpdateHistory`.
- Numerals.TryParseInt32: models `int.TryParse` only on digit strings. Signs, surrounding white space and culture settings, which `int.TryParse` also handles, never reach it: the digit check runs first.
- Numerals.FormatInt: writes the minus sign as `-`. The string interpolation at CalculatorPresenter.cs:47 formats with the current culture, whose negative sign can be a different character. The model fixes the invariant culture's sign.
- Strings are sequences of Unicode characters, while C# strings are sequences of UTF-16 code units, where a surrogate pair counts as two characters and a lone surrogate can occur. No behaviour modelled here depends on the difference: every test compares against the ASCII characters `+`, `0` to `9`, `|` and `~`.
- Null strings from the view are not modelled. The input field's text and the stored strings are never null. `SaveState`'s null expression and null history are modelled, through `Option`.
