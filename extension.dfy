/**
 * The session logic of main.py: the `SnippetsExtension` object with its
 * `state`, `snippet` and `variable` fields, `reset`, and the three event
 * listeners. Launcher actions are values of `Action`; rendering a template
 * and reading preferences are inputs of the handlers.
 */
module Extension {
  import opened Strings
  import opened Snippets
  import opened Items

  /** `"select"`: choosing a snippet; `"var"`: collecting its variables. */
  datatype State = Select | Var

  /** What a listener hands back to the launcher. `Raised` is an exception
      that escapes the listener; `NoAction` is a listener returning `None`. */
  datatype Action =
    | SetUserQuery(query: string)
    | RenderResultList(items: seq<Item>)
    | ActionList(actions: seq<Action>)
    | HideWindow
    | CopyToClipboard(text: string)
    | Raised(error: string)
    | NoAction

  /** The error item shown when rendering raises. */
  function ErrorItem(message: string): Item {
    Item(None, Some(message), None, DoNothing)
  }

  /** The variables of a snippet, or none for `null`. */
  ghost function VarsOf(s: Snippet?): set<Variable> {
    if s == null then {} else s.Vars()
  }

  /** The result list of the variable prompt for `v` of `s`. */
  function Prompt(s: Snippet, v: Variable): seq<Item> {
    [Item(Some(s.icon), v.caption, None, Custom(NoType, true)), CancelItem()]
  }

  /** The action and the xsel text of an enter event that renders. */
  function Delivered(rendered: Result<string, string>, copyMode: string): (Action, Option<string>) {
    match rendered
    case Err(e) => (RenderResultList([ErrorItem(e)]), None)
    case Ok(text) => if copyMode == "xsel" then (HideWindow, Some(text)) else (CopyToClipboard(text), None)
  }

  /** Index of the variable the enter handler asks for next: the first one
      without a value, provided its dictionary is non-empty (Python treats
      an empty dictionary as false and renders instead). */
  function AsksFor(s: Snippet): (r: Option<nat>)
    reads s.Vars()
    ensures r.Some? ==> r == FirstUnset(s.variables) && r.value < |s.variables|
    // an unset variable is asked for exactly when its dictionary is non-empty
    ensures r.Some? <==> FirstUnset(s.variables).Some? && s.variables[FirstUnset(s.variables).value].Truthy()
  {
    match FirstUnset(s.variables)
    case None => None
    case Some(k) => if s.variables[k].Truthy() then Some(k) else None
  }

  class SnippetsExtension {
    var state: State
    var snippet: Snippet?
    var variable: Variable?

    /** In `"select"` no snippet is in progress; in `"var"` the variable
        being asked for belongs to the snippet in progress. */
    ghost predicate Valid()
      reads this
    {
      && (state == Select ==> snippet == null && variable == null)
      && (state == Var ==> snippet != null && variable != null && snippet.Valid() && variable in snippet.variables)
    }

    /** A new extension starts in `"select"`. */
    constructor()
      ensures state == Select && snippet == null && variable == null
      ensures Valid()
    {
      state := Select;
      snippet := null;
      variable := null;
    }

    /** `reset()`: forget the snippet and the variable, back to `"select"`. */
    method Reset()
      modifies this
      ensures state == Select && snippet == null && variable == null
      ensures Valid()
    {
      snippet := null;
      variable := null;
      state := Select;
    }

    /** The snippet an enter event continues with: the one it selects, or
        the one in progress. */
    function Target(data: EventData): Snippet?
      reads this
    {
      if data.SelectData? then data.snippet else snippet
    }

    /** The end of an enter event that renders: `finally: reset()`, then the
        outcome of the render. */
    method Deliver(rendered: Result<string, string>, copyMode: string) returns (action: Action, copied: Option<string>)
      modifies this
      ensures state == Select && snippet == null && variable == null
      ensures (action, copied) == Delivered(rendered, copyMode)
    {
      Reset();
      match rendered {
        case Err(e) =>
          return RenderResultList([ErrorItem(e)]), None;
        case Ok(text) =>
          if copyMode == "xsel" {
            return HideWindow, Some(text);
          } else {
            return CopyToClipboard(text), None;
          }
      }
    }

    /** `ItemEnterEventLister.on_event`. `keyword` and `copyMode` are the
        `snippets_keyword` and `snippets_copy_mode` preferences; `rendered`
        is what `snippet.render` returns or raises. `copied` is the text
        handed to xsel, if any. */
    method OnItemEnter(data: EventData, keyword: string, copyMode: string, rendered: Result<string, string>)
      returns (action: Action, copied: Option<string>)
      requires Valid()
      requires data.SelectData? ==> data.snippet.Valid()
      modifies this, VarsOf(snippet), if data.SelectData? then data.snippet.Vars() else {}
      ensures Valid()
      // cancel: reset, clear the query, render nothing
      ensures data == CancelData ==>
                state == Select && snippet == null && variable == null
                && action == SetUserQuery("") && copied.None?
      // no snippet to continue with: the attribute access raises
      ensures data != CancelData && old(Target(data)) == null ==>
                action.Raised? && copied.None? && unchanged(this)
      // a variable is still missing: ask for it, pre-filled with its default
      ensures data != CancelData && old(Target(data)) != null && old(AsksFor(Target(data))).Some? ==>
                var s := old(Target(data));
                var v := s.variables[old(AsksFor(Target(data))).value];
                && state == Var && snippet == s && variable == v
                && v.value == Some(StoredValue(v.default, if v.default.Some? then v.default.value else ""))
                && action == ActionList([SetUserQuery(keyword + " "), RenderResultList(Prompt(s, v))])
                && copied.None?
      // nothing left to ask: render, and reset whatever the outcome
      ensures data != CancelData && old(Target(data)) != null && old(AsksFor(Target(data))).None? ==>
                && state == Select && snippet == null && variable == null
                && (action, copied) == Delivered(rendered, copyMode)
      // no stored value changes except the one of the variable asked for
      ensures forall w :: w in old(VarsOf(snippet)) + (if data.SelectData? then data.snippet.Vars() else {}) && w != variable ==>
                w.value == old(w.value)
    {
      if data.SelectData? {
        snippet := data.snippet;
        state := Var;
      } else if data == CancelData {
        Reset();
        return SetUserQuery(""), None;
      }
      if snippet == null {
        return Raised("'NoneType' object has no attribute 'next_variable'"), None;
      }
      action, copied := Continue(keyword, copyMode, rendered);
    }

    /** The rest of an enter event once a snippet is in progress: ask for
        the next variable, or render. */
    method Continue(keyword: string, copyMode: string, rendered: Result<string, string>)
      returns (action: Action, copied: Option<string>)
      requires state == Var && snippet != null && snippet.Valid()
      modifies this, snippet.Vars()
      ensures Valid()
      ensures old(AsksFor(snippet)).Some? ==>
                var s := old(snippet);
                var v := s.variables[old(AsksFor(snippet)).value];
                && state == Var && snippet == s && variable == v
                && v.value == Some(StoredValue(v.default, if v.default.Some? then v.default.value else ""))
                && action == ActionList([SetUserQuery(keyword + " "), RenderResultList(Prompt(s, v))])
                && copied.None?
      ensures old(AsksFor(snippet)).None? ==>
                && state == Select && snippet == null && variable == null
                && (action, copied) == Delivered(rendered, copyMode)
      ensures forall w :: w in old(snippet.Vars()) && w != variable ==> w.value == old(w.value)
    {
      ghost var asks := AsksFor(snippet);
      var next := snippet.NextVariable();
      assert asks.Some? <==> next != null && next.Truthy();
      if state == Var && next != null && next.Truthy() {
        assert next == snippet.variables[asks.value];
        variable := next;
        var items := ShowVarInput(snippet, next, if next.default.Some? then next.default.value else "");
        assert items == Prompt(snippet, next);
        return ActionList([SetUserQuery(keyword + " "), RenderResultList(items)]), None;
      }
      action, copied := Deliver(rendered, copyMode);
    }

    /** `KeywordQueryEventListener.on_event`. `argument` is the text typed
        after the keyword; `root`, `files` and `fs` stand for the
        `snippets_path` preference, the templates found under it and their
        contents. */
    method OnKeywordQuery(argument: Option<string>, root: string, files: seq<string>, fs: map<string, (Header, string)>)
      returns (action: Action)
      requires Valid()
      modifies VarsOf(snippet)
      ensures Valid() && unchanged(this)
      // collecting variables: the typed text goes into the current variable
      ensures state == Var ==>
                var search := if argument.Some? then argument.value else "";
                && variable.value == Some(StoredValue(variable.default, search))
                && action == RenderResultList(Prompt(snippet, variable))
                && forall v :: v in VarsOf(snippet) && v != variable ==> v.value == old(v.value)
      // choosing: the matching snippets become the result list, or loading one raises
      ensures state == Select ==>
                var found := Fuzzy.FuzzyFind(if argument.Some? then argument.value else "", files, true);
                && (action.Raised? <==> LoadInfos(root, found, fs).Err?)
                && (!action.Raised? ==> action.RenderResultList?)
      ensures state == Select && action.Raised? ==>
                var found := Fuzzy.FuzzyFind(if argument.Some? then argument.value else "", files, true);
                LoadInfos(root, found, fs).Err? && action.error == LoadInfos(root, found, fs).error
      // the list shown is the suggestion list of the snippets its items select
      ensures state == Select && action.RenderResultList? ==>
                action.items == ShowSuggestionItems(Selected(action.items))
      ensures state == Select && action.RenderResultList? ==>
                var found := Fuzzy.FuzzyFind(if argument.Some? then argument.value else "", files, true);
                var chosen := Selected(action.items);
                && LoadInfos(root, found, fs).Ok?
                && |chosen| == |found|
                && forall k :: 0 <= k < |found| ==>
                     && fresh(chosen[k]) && fresh(chosen[k].Vars()) && chosen[k].Valid()
                     && LoadedAs(chosen[k], found[k], fs, LoadInfos(root, found, fs).value[k])
    {
      var search := if argument.Some? then argument.value else "";
      if state == Select {
        var found := GetSnippets(root, search, files, fs);
        if found.Err? {
          return Raised(found.error);
        }
        SelectedSuggestions(found.value);
        return RenderResultList(ShowSuggestionItems(found.value));
      } else {
        var items := ShowVarInput(snippet, variable, search);
        assert items == Prompt(snippet, variable);
        return RenderResultList(items);
      }
    }

    /** `SystemExitEventListener.on_event`: reset the session. */
    method OnSystemExit()
      modifies this
      ensures state == Select && snippet == null && variable == null
      ensures Valid()
    {
      Reset();
    }
  }
}
