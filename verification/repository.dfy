/**
 * `PlayerPrefsCalculatorRepository`: the presenter's state kept under two
 * string keys of a key/value preference store, the history joined with the
 * separator `"|~|"`. The store is modelled as a map; flushing it to disk is
 * not modelled.
 */
module Repository {
  import opened Options
  import Strings

  type Store = map<string, string>

  const ExpressionKey: string := "Calculator_CurrentExpression"
  const HistoryKey: string := "Calculator_History"
  const Separator: string := "|~|"

  /** What `LoadState` returns: the expression and a history that may be null. */
  datatype Loaded = Loaded(expression: string, history: Option<seq<string>>)

  /** `PlayerPrefs.GetString(key, default)`. */
  function GetString(store: Store, key: string, default: string): (r: string)
    ensures key in store ==> r == store[key]
    ensures key !in store ==> r == default
  {
    if key in store then store[key] else default
  }

  /** The store holds exactly this expression and this history, encoded. */
  ghost predicate Holds(store: Store, expression: string, history: seq<string>) {
    && ExpressionKey in store && store[ExpressionKey] == expression
    && HistoryKey in store && store[HistoryKey] == Strings.Join(Separator, history)
  }

  /**
   * `SaveState`: a null expression is stored as `""`; a null history is
   * stored as `""`, any other history joined with the separator.
   */
  function SaveState(store: Store, expression: Option<string>, history: Option<seq<string>>): (r: Store)
    ensures r - {ExpressionKey, HistoryKey} == store - {ExpressionKey, HistoryKey}
    ensures history.Some? ==> Holds(r, expression.GetOr(""), history.value)
    ensures history.None? ==> Holds(r, expression.GetOr(""), [])
  {
    var historyString := match history
      case Some(h) => Strings.Join(Separator, h)
      case None => "";
    store[ExpressionKey := expression.GetOr("")][HistoryKey := historyString]
  }

  /**
   * `LoadState`: absent keys read as `""`; an empty history string reads as
   * a null history, any other is split on the separator keeping empty pieces.
   */
  function LoadState(store: Store): (r: Loaded)
    ensures r.expression == GetString(store, ExpressionKey, "")
    ensures r.history.None? <==> GetString(store, HistoryKey, "") == ""
    ensures r.history.Some? ==> Strings.Join(Separator, r.history.value) == store[HistoryKey]
    ensures r.history.Some? ==>
      |r.history.value| == Strings.CountOccurrences(store[HistoryKey], Separator) + 1
    ensures r.history.Some? ==>
      forall k :: 0 <= k < |r.history.value| ==> !Strings.Contains(r.history.value[k], Separator)
    ensures r.history.Some? ==> Strings.IsLeftmostSplit(store[HistoryKey], Separator, r.history.value)
  {
    var expression := GetString(store, ExpressionKey, "");
    var historyString := GetString(store, HistoryKey, "");
    if historyString == "" then Loaded(expression, None)
    else
      Strings.JoinSplit(historyString, Separator);
      Strings.SplitCount(historyString, Separator);
      Strings.SplitPiecesAreSeparatorFree(historyString, Separator);
      Strings.SplitIsLeftmost(historyString, Separator);
      Loaded(expression, Some(Strings.Split(historyString, Separator)))
  }

  /**
   * Save then load: the expression always comes back; a history whose
   * entries hold no `'|'` comes back unchanged, except that `[]` and `[""]`
   * both come back as null.
   */
  lemma SaveLoadRoundTrip(store: Store, expression: string, history: seq<string>)
    requires forall k :: 0 <= k < |history| ==> '|' !in history[k]
    ensures LoadState(SaveState(store, Some(expression), Some(history))) ==
      Loaded(expression, if history == [] || history == [""] then None else Some(history))
  {
    Strings.JoinIsEmpty(Separator, history);
    if history != [] && history != [""] {
      Strings.SplitJoin(history, Separator);
    }
  }

  /** `e` ends with the first two characters of the separator. */
  ghost predicate EndsInBarTilde(e: string) {
    |e| >= 2 && e[|e| - 2..] == "|~"
  }

  /**
   * For `"|~|"`, the separator starts inside an entry followed by it exactly
   * when the entry contains it or ends with `"|~"`.
   */
  lemma CleanCutSeparator(p: string)
    ensures Strings.CleanCut(p, Separator) <==> !Strings.Contains(p, Separator) && !EndsInBarTilde(p)
  {
    var t := p + Separator;
    if Strings.Contains(p, Separator) {
      var j :| Strings.OccursAt(p, Separator, j);
      assert t[j..j + 3] == p[j..j + 3];
      assert Strings.OccursAt(t, Separator, j);
    }
    if EndsInBarTilde(p) {
      var j := |p| - 2;
      assert t[j..j + 3] == [p[j], p[j + 1], '|'];
      assert p[j..] == [p[j], p[j + 1]];
      assert Strings.OccursAt(t, Separator, j);
    }
    if !Strings.CleanCut(p, Separator) {
      var j :| 0 <= j < |p| && Strings.OccursAt(t, Separator, j);
      if j + 3 <= |p| {
        assert t[j..j + 3] == p[j..j + 3];
        assert Strings.OccursAt(p, Separator, j);
      } else if j == |p| - 2 {
        assert t[j..j + 3] == [p[j], p[j + 1], '|'];
        assert p[j..] == [p[j], p[j + 1]];
      } else {
        NotAtLastCharacter(p);
      }
    }
  }

  /** The separator cannot start at an entry's last character, since `'|'` is not `'~'`. */
  lemma NotAtLastCharacter(p: string)
    requires |p| > 0
    ensures !Strings.OccursAt(p + Separator, Separator, |p| - 1)
  {
    var t := p + Separator;
    assert t[|p|] == '|';
  }

  /**
   * Save then load gives back a history other than `[]` and `[""]` exactly
   * when no entry contains the separator and no entry but the last ends
   * with `"|~"`.
   */
  lemma SaveLoadExactly(store: Store, expression: string, history: seq<string>)
    requires history != [] && history != [""]
    ensures LoadState(SaveState(store, Some(expression), Some(history))).history == Some(history) <==>
      && (forall k :: 0 <= k < |history| ==> !Strings.Contains(history[k], Separator))
      && (forall k :: 0 <= k < |history| - 1 ==> !EndsInBarTilde(history[k]))
  {
    LoadHeldExactly(SaveState(store, Some(expression), Some(history)), expression, history);
  }

  /** The same law for any store that holds the history, however it came to hold it. */
  lemma LoadHeldExactly(store: Store, expression: string, history: seq<string>)
    requires Holds(store, expression, history) && history != [] && history != [""]
    ensures LoadState(store).history == Some(history) <==>
      && (forall k :: 0 <= k < |history| ==> !Strings.Contains(history[k], Separator))
      && (forall k :: 0 <= k < |history| - 1 ==> !EndsInBarTilde(history[k]))
  {
    Strings.JoinIsEmpty(Separator, history);
    Strings.SplitJoinExactly(history, Separator);
    forall k | 0 <= k < |history|
      ensures Strings.CleanCut(history[k], Separator) <==>
        !Strings.Contains(history[k], Separator) && !EndsInBarTilde(history[k])
    {
      CleanCutSeparator(history[k]);
    }
  }

  /**
   * An entry ending with `"|~"` runs into the separator after it:
   * `["a|~", "b"]` is stored as `"a|~|~|b"` and reads back as `["a", "~|b"]`.
   */
  lemma SaveLoadOverlap(store: Store, expression: string, history: seq<string>)
    requires history == ["a|~", "b"]
    ensures LoadState(SaveState(store, Some(expression), Some(history))).history == Some(["a", "~|b"])
  {
    var s := Strings.Join(Separator, history);
    assert history[1..] == ["b"];
    assert Strings.Join(Separator, history[1..]) == "b";
    assert s == "a|~" + Separator + "b";
    assert s == "a" + Separator + "~|b";
    var rest := "~|b";
    assert !Strings.Contains(rest, Separator) by {
      forall j ensures !Strings.OccursAt(rest, Separator, j) {
        if j == 0 {
          assert rest[0] != Separator[0];
        }
      }
    }
    Strings.FindAfterCleanPrefix("a", Separator, rest);
    Strings.LeftmostSplitIsSplit(rest, Separator, [rest]);
    Strings.SplitAfterCleanPrefix("a", Separator, rest);
    assert Strings.Split(s, Separator) == ["a", rest];
    var saved := SaveState(store, Some(expression), Some(history));
    assert saved[HistoryKey] == s && s != "";
  }

  /** A null history, and a null expression, are saved as empty strings. */
  lemma SaveNullsLoadEmpty(store: Store, history: Option<seq<string>>)
    requires history.None? || history == Some([]) || history == Some([""])
    ensures LoadState(SaveState(store, None, history)) == Loaded("", None)
  {
  }

  /** An entry that contains the separator never reads back as itself. */
  lemma SaveLoadSplitsEntry(store: Store, expression: string, history: seq<string>, k: int)
    requires 0 <= k < |history| && Strings.Contains(history[k], Separator)
    ensures LoadState(SaveState(store, Some(expression), Some(history))).history != Some(history)
  {
    Strings.SplitJoinBreaks(history, Separator, k);
  }

  /** With nothing saved yet the repository yields an empty expression and a null history. */
  lemma LoadFresh()
    ensures LoadState(map[]) == Loaded("", None)
  {
  }
}
