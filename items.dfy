/**
 * The result-list builders of src/items.py: the "No snippet" placeholder,
 * one selectable item per suggested snippet, and the variable prompt, which
 * also stores the typed text into the variable being asked for.
 */
module Items {
  import opened Strings
  import opened Snippets

  /** `ICON_FILE`. */
  const IconFile: string := "images/icon.png"

  /** The custom data an item hands back when chosen: `{}`,
      `{"type": "cancel"}` or `{"type": "select", "snippet": s}`. */
  datatype EventData = NoType | CancelData | SelectData(snippet: Snippet)

  /** What choosing an item does: nothing, or send its data back to the
      extension (with the launcher window kept open or not). */
  datatype OnEnter = DoNothing | Custom(data: EventData, keepAppOpen: bool)

  /** An `ExtensionResultItem`; absent keyword arguments are `None`. */
  datatype Item = Item(icon: Option<string>, name: Option<string>, description: Option<string>, onEnter: OnEnter)

  /** `no_input_item()`: the single placeholder shown when nothing matches. */
  function NoInputItem(): (r: seq<Item>)
    ensures |r| == 1 && r[0].name == Some("No snippet") && r[0].onEnter == DoNothing
  {
    [Item(Some(IconFile), Some("No snippet"), None, DoNothing)]
  }

  /** The item offering one snippet for selection. */
  function SuggestionItem(s: Snippet): Item {
    Item(Some(s.icon), Some(s.name), Some(s.description), Custom(SelectData(s), true))
  }

  /** `show_suggestion_items(suggestions)`. */
  function ShowSuggestionItems(suggestions: seq<Snippet>): (r: seq<Item>)
    ensures suggestions == [] ==> r == NoInputItem()
    ensures suggestions != [] ==> |r| == |suggestions|
    ensures suggestions != [] ==> forall k :: 0 <= k < |r| ==>
              r[k].name == Some(suggestions[k].name) && r[k].icon == Some(suggestions[k].icon)
              && r[k].description == Some(suggestions[k].description)
  {
    if |suggestions| == 0 then NoInputItem()
    else seq(|suggestions|, k requires 0 <= k < |suggestions| => SuggestionItem(suggestions[k]))
  }

  /** The snippets the items of a list select, in list order; items that
      select nothing are skipped. */
  function Selected(items: seq<Item>): seq<Snippet> {
    if items == [] then []
    else
      var rest := Selected(items[1..]);
      match items[0].onEnter
      case Custom(SelectData(s), _) => [s] + rest
      case _ => rest
  }

  /** Choosing the items of a non-empty suggestion list selects exactly the
      suggested snippets, one each, in the same order; the placeholder of an
      empty list selects nothing. */
  lemma {:induction false} SelectedSuggestions(suggestions: seq<Snippet>)
    ensures Selected(ShowSuggestionItems(suggestions)) == suggestions
    decreases |suggestions|
  {
    if suggestions != [] {
      var items := ShowSuggestionItems(suggestions);
      if |suggestions| > 1 {
        SelectedSuggestions(suggestions[1..]);
        assert items[1..] == ShowSuggestionItems(suggestions[1..]);
      } else {
        assert items[1..] == [];
      }
    }
  }

  /** What `show_var_input` stores for the typed text `input`: the text
      stripped of surrounding whitespace, except that a lone `-` asks for
      the variable's default (or `""` without one). */
  function StoredValue(default: Option<string>, input: string): string {
    var v := Strip(input);
    if v == "-" then (if default.Some? then default.value else "") else v
  }

  /** Typed text is stored without surrounding whitespace; only the default
      can bring any in. */
  lemma StoredValueStripped(default: Option<string>, input: string)
    requires Strip(input) != "-"
    ensures var v := StoredValue(default, input);
      v == Strip(input) && (v == [] || (!IsSpace(v[0]) && !IsSpace(v[|v| - 1])))
  {
    StripShape(input);
  }

  /** Padding the typed text with whitespace changes nothing. */
  lemma StoredValuePadding(default: Option<string>, input: string)
    ensures StoredValue(default, Strip(input)) == StoredValue(default, input)
  {
    StripIdempotent(input);
  }

  /** The prompt pre-filled with the default (as the enter handler does)
      stores the stripped default, or the default itself when that strips
      to `-`; with no default it stores `""`, which leaves the variable
      unset. */
  lemma PrefilledDefault(default: Option<string>)
    ensures var d := if default.Some? then default.value else "";
      StoredValue(default, d) == (if Strip(d) == "-" then d else Strip(d))
    ensures default.None? ==> StoredValue(default, "") == ""
  {
  }

  /** The second item of every prompt: cancel the session. */
  function CancelItem(): Item {
    Item(Some(IconFile), Some("Cancel"), None, Custom(CancelData, true))
  }

  /** `show_var_input(snippet, variable, value)`: stores the typed text into
      the variable (in place, so the snippet sees it too) and returns the
      prompt: the variable's label, then "Cancel". */
  method ShowVarInput(snippet: Snippet, variable: Variable, value: string) returns (items: seq<Item>)
    modifies variable
    ensures variable.value == Some(StoredValue(variable.default, value))
    ensures items == [Item(Some(snippet.icon), variable.caption, None, Custom(NoType, true)), CancelItem()]
  {
    var v := Strip(value);
    if v == "-" {
      variable.value := Some(if variable.default.Some? then variable.default.value else "");
    } else {
      variable.value := Some(v);
    }
    items := [
      Item(Some(snippet.icon), variable.caption, None, Custom(NoType, true)),
      Item(Some(IconFile), Some("Cancel"), None, Custom(CancelData, true))
    ];
  }
}
