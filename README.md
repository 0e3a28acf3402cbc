# ulauncher-snippets, modelled in Dafny

This project models the core of the ulauncher-snippets launcher extension.
The extension lets a user search a directory of Jinja2 snippet templates,
choose one, type in the values of the variables declared in its front matter,
and get the rendered text on the clipboard. The model covers:

- **Searching** (`fuzzy.dfy`, module `Fuzzy`). `fuzzyfinder` keeps the
  candidates that contain the query as a case-insensitive subsequence. It ranks
  each one by the span and start of its shortest lookahead-regex match, then
  sorts by `(span, start, text)`. `FuzzyFinder` is the loop over the collection
  followed by the sort. It is proved against an independent reference: a
  placement of the query characters, and for newline-free strings a plain
  subsequence.
- **Snippets** (`snippets.dfy`, module `Snippets`). This covers:
  - the attributes the `Snippet` constructor derives from a path, the root
    directory and the loaded front matter and body (`Describe`);
  - the `Snippet` class whose variable dictionaries are `Variable` objects,
    so they can be changed in place;
  - `next_variable` and `get_variable`;
  - `get_snippets` over a map from file names to loaded files.
- **Result items** (`items.dfy`, module `Items`). This covers
  `no_input_item`, `show_suggestion_items`, and `show_var_input`, which strips
  the typed text and stores it into the variable in place (a lone `-` stores
  the default).
- **The session** (`extension.dfy`, module `Extension`). The
  `SnippetsExtension` class has the `state`, `snippet` and `variable` fields,
  `reset`, and the enter, keyword-query and system-exit listeners.
  - Launcher actions are values of `Action`.
  - The preferences, the render outcome and the file system are parameters.
  - Python's truthiness is kept. The enter handler asks for the first variable
    without a value only when that variable's dictionary is non-empty. An
    empty `{}` variable is falsy, so the handler renders at once instead of
    asking for it or for any later unset variable (`AsksFor`).
- **Clipboard decoding** (`clipboard.dfy`, module `Clipboard`). This models
  `convert_clipboard` with byte-wise percent-decoding, as a loop that is
  proved against a `split`/`join` specification.
- **HTML to text** (`html_to_text.dfy`, module `HtmlToText`). The
  `HTMLToText` handler object appends to its buffer. It is driven by an
  explicit sequence of parser callbacks (`Event`). `Run` specifies a whole
  feed, including the 252-entry `name2codepoint` table and `int`/`chr` for
  character references.
- **Filters**: `camelcase`, `pascalcase`, `snakecase` and `kebabcase`
  (`filters.dfy`, module `Filters`), and the sample user filter
  `replace_with_symbol` with its `filters` dictionary (`user_filters.dfy`,
  module `UserFilters`).
- **Python string primitives** (`strings.dfy`, module `Strings`): `isspace`,
  ASCII `lower`/`upper`, `strip`, `split()`, `split(sep)`/`join`,
  `startswith`, slicing, and code-point ordering.

### Behaviour worth noting

- **Clipboard lines.** `convert_clipboard` decodes every line after the first
  two, empty ones included.
- **Unreadable template.** A template file that cannot be read or lies outside
  the root makes the whole `get_snippets` call raise. It is not skipped.
- **Reset.** `reset` only drops the extension's references to the snippet and
  the variable. It clears no stored values: every search builds fresh
  snippets.

## Model

| member | source | states |
|---|---|---|
| `Fuzzy.PlaceFromSound` | src/functions.py:175-180 | the lazy pattern's earliest placement of the query is a genuine placement ending where computed |
| `Fuzzy.PlaceFromComplete` | src/functions.py:175-180 | if any placement exists the earliest one exists and ends no later than it |
| `Fuzzy.MatchAtSpec` | src/functions.py:177-180 | a lookahead match at a start exists iff an anchored placement exists there, and its end is the minimal such end |
| `Fuzzy.BestFrom` | src/functions.py:180-185 | no match is recorded iff no start has a match; otherwise the recorded match is a real match at its start |
| `Fuzzy.BestFromMinimal` | src/functions.py:183 | the recorded span is the shortest over all starts, and every earlier start has a strictly longer one (`min` keeps the first) |
| `Fuzzy.Best` | src/functions.py:180-185 | the recorded span is at least the query length and the match lies inside the candidate |
| `Fuzzy.BestSpec` | src/functions.py:180-185 | a candidate is ranked iff some anchored placement exists; the rank is realised by one and is minimal, with ties going to the earliest start |
| `Fuzzy.QualifiesIsSubsequence` | src/functions.py:175-181 | for text without newlines a candidate qualifies iff the query is a case-insensitive subsequence of it |
| `Fuzzy.Insert` | src/functions.py:187-190 | inserting adds exactly the new tuple (multiset) |
| `Fuzzy.InsertSorted` | src/functions.py:187-190 | inserting into a sorted list keeps it sorted |
| `Fuzzy.Sort` | src/functions.py:187-190 | `sorted` returns an ordered permutation of the tuples |
| `Fuzzy.SortTexts` | src/functions.py:187-190 | sorting keeps the same multiset of candidate strings |
| `Fuzzy.SuggestionsAreRanks` | src/functions.py:179-185 | the appended tuples are exactly the qualifying candidates in collection order, each with its own rank |
| `Fuzzy.FuzzyFindMembers` | src/functions.py:179-190 | the result holds each qualifying candidate as often as the collection does, and nothing else; non-matches are dropped |
| `Fuzzy.FuzzyFindSorted` | src/functions.py:187-190 | the result is ordered by span, then start, then (when `sort_results`) text |
| `Fuzzy.EmptyQuery` | src/functions.py:175-188 | an empty query returns the whole collection as a permutation in alphabetical order |
| `Fuzzy.RankOfEmpty` | src/functions.py:175-185 | against the empty query every candidate has span 0 at start 0 |
| `Fuzzy.FuzzyFinder` | src/functions.py:149-190 | the loop and sort compute the specified result: exactly the qualifying candidates, ranked |
| `Fuzzy.NoMatch` | src/functions.py:179-181 | a candidate lacking the first query character is dropped |
| `Fuzzy.ExampleRanks` | src/functions.py:180-185 | "hallo" and "false" both rank as span 2 at start 1 for "al" |
| `Fuzzy.ExampleSuggestions` | src/functions.py:179-185 | only "hallo" and "false" are kept for "al", in collection order |
| `Fuzzy.Example` | src/functions.py:170-171 | `fuzzyfinder("al", ["hi","hu","hallo","false"])` is `["false","hallo"]` |
| `Clipboard.Unquote` | src/functions.py:238 | percent-decoding never lengthens the text |
| `Clipboard.UnquoteQuote` | src/functions.py:238 | byte-wise decoding undoes full percent-encoding of any string of characters below 256 (an ASCII string for Python, whose `unquote` also decodes UTF-8; see "## Left out") |
| `Clipboard.UnquoteLiteral` | src/functions.py:238 | text without `%` passes through decoding unchanged |
| `Clipboard.ConvertClipboard` | src/functions.py:229-241 | the loop's result is the third and later lines, scheme-stripped and decoded, joined by newlines; input without the marker is returned unchanged; fewer than three lines give `""` |
| `Clipboard.TerminatedJoin` | src/functions.py:237-239 | appending line-plus-newline and cutting the last character equals joining with newlines |
| `Clipboard.ConvertedLines` | src/functions.py:236-239 | splitting the output at newlines gives back the decoded lines |
| `Clipboard.TwoEntries` | src/functions.py:234-239 | marker, header and two entries give the two decoded entries on two lines |
| `Clipboard.ScreenshotDecodes` | src/functions.py:231-232 | a Nautilus screenshot entry decodes to its path |
| `Clipboard.Example` | src/functions.py:231-232 | the doctest decodes to the two `/home/root/Screenshot …` paths |
| `Snippets.PathJoinShape` | src/functions.py:79-84 | `os.path.join` ends with its second part, and starts with the first when the second is relative |
| `Snippets.RelativeTo` | src/functions.py:86 | the root itself gives `.`; any other remainder under a non-empty root is shorter than the path |
| `Snippets.RelativeToJoin` | src/functions.py:86 | the remainder `relative_to` returns, joined back onto the root, gives the path again |
| `Snippets.RelativeToRaises` | src/functions.py:86 | `relative_to` raises only when the path is not the root and no relative path joined onto the root gives it |
| `Snippets.RelativeJoin` | src/functions.py:79-86 | a relative file joined onto the root is found again relative to the root |
| `Snippets.StripSuffix3` | src/functions.py:87 | `file_name[:-3]` drops the last three characters, or gives `""` |
| `Snippets.Describe` | src/functions.py:74-89 | the constructor raises iff the path is not under the root; otherwise it keeps the path, takes `name` and `description` from the front matter when present, and joins `globals.py` and `filters.py` onto the root |
| `Snippets.NameOfTemplate` | src/functions.py:86-87 | without a `name` key, `root/stem.j2` is named `stem` |
| `Snippets.DescriptionOfBody` | src/functions.py:89 | without a `description` key the description is exactly `content[:40]`: the first 40 characters, or the whole of a shorter body |
| `Snippets.IconChoice` | src/functions.py:76-81 | without a non-empty `icon` key the default icon is used, otherwise `os.path.join(root, icon)` |
| `Snippets.Variable.constructor` | src/functions.py:85 | a variable dictionary holds the declared label, default and value |
| `Snippets.Snippet.constructor` | src/functions.py:74-89 | the attributes come from the constructor's inputs; one fresh, distinct dictionary per declared variable, in declaration order |
| `Snippets.FirstUnset` | src/functions.py:119-123 | the first variable, in order, whose value is missing or empty, or none when all are set |
| `Snippets.IndexOf` | src/functions.py:126 | `dict.get` finds the first entry with the key, and none iff the key is absent |
| `Snippets.Snippet.NextVariable` | src/functions.py:119-123 | the loop returns the first unset variable, or `None` when every variable has a value |
| `Snippets.Snippet.GetVariable` | src/functions.py:125-129 | the lookup fails (Python raises) exactly for an undeclared name; a stored value is returned as is, even an empty one, otherwise the default or `""` |
| `Snippets.ResolvedLookup` | src/functions.py:119-129 | once nothing is left to ask, every lookup yields the non-empty value given |
| `Snippets.DefaultLookup` | src/functions.py:125-129 | a variable without a value reads as its default, or `""` |
| `Snippets.DoctestReplay` | src/functions.py:50-62 | the doctest: `name` is asked first, then `other_var`; lookups give `"Set"` and `"Hi"` |
| `Snippets.LoadInfosOk` | src/functions.py:268-271 | loading succeeds iff every found file is readable and lies under the root |
| `Snippets.LoadInfosValues` | src/functions.py:74-89 | each loaded entry is what the constructor derives from its own file |
| `Snippets.LoadInfosErr` | src/functions.py:268-271 | the first failing file decides the error |
| `Snippets.Load` | src/functions.py:74-89 | one file of the comprehension: a missing file raises, a file outside the root raises the constructor's error, otherwise a fresh snippet with the derived attributes that holds the file's `vars` as fresh, distinct dictionaries, in order, with the declared label, default and value |
| `Snippets.LoadAll` | src/functions.py:268-271 | one fresh snippet per found file, in order, with the derived attributes and fresh dictionaries holding the file's declared `vars`, or the first error |
| `Snippets.GetSnippets` | src/functions.py:259-271 | the search is ranked by `fuzzyfinder`, and each match is loaded into a fresh snippet with fresh variable dictionaries holding the declared values, or the first loading error is raised |
| `Items.NoInputItem` | src/items.py:17-21 | the placeholder is one "No snippet" item that does nothing |
| `Items.ShowSuggestionItems` | src/items.py:47-63 | an empty list gives the placeholder; otherwise one item per snippet, in order, with its name, icon and description |
| `Items.SelectedSuggestions` | src/items.py:52-63 | choosing the items selects exactly the suggested snippets, in order |
| `Items.StoredValueStripped` | src/items.py:25-30 | typed text is stored stripped of surrounding whitespace |
| `Items.StoredValuePadding` | src/items.py:25 | padding the typed text with whitespace stores the same value |
| `Items.PrefilledDefault` | src/items.py:27-28 | the pre-filled default stores itself stripped, and no default stores `""` |
| `Items.ShowVarInput` | src/items.py:24-44 | the variable now holds the stripped text (or its default for `-`); the prompt is the variable's label and then "Cancel" |
| `Extension.AsksFor` | main.py:45-46 | the enter handler asks for a variable iff the first unset one has a non-empty dictionary, and then for that one |
| `Extension.SnippetsExtension.constructor` | main.py:19-25 | a new extension starts in `"select"` with no snippet |
| `Extension.SnippetsExtension.Reset` | main.py:27-30 | reset clears the snippet and variable and returns to `"select"` |
| `Extension.SnippetsExtension.Deliver` | main.py:54-68 | after rendering the session is reset whatever the outcome; an error becomes one message item, success is copied (xsel or clipboard action) |
| `Extension.SnippetsExtension.OnItemEnter` | main.py:33-68 | cancel resets and clears the query; no snippet raises; an unset variable is asked for with its default pre-filled; otherwise render and reset; no stored value changes except the asked variable's |
| `Extension.SnippetsExtension.Continue` | main.py:45-68 | with a snippet in progress: ask for the next variable, or render and reset; no other variable's value changes |
| `Extension.SnippetsExtension.OnKeywordQuery` | main.py:71-85 | in `"var"` the typed text goes into the current variable only; in `"select"` the list shown is `show_suggestion_items` of the loaded matches (the "No snippet" item when there are none), or loading raises the loading error; each shown snippet is fresh, satisfies `Valid()` and holds its file's declared `vars` in fresh dictionaries |
| `Extension.SnippetsExtension.OnSystemExit` | main.py:88-90 | exit resets the session |
| `HtmlToText.Chr` | src/html_to_text.py:31-36 | `chr` succeeds exactly on scalar values and yields that code point |
| `HtmlToText.ParseNat` | src/html_to_text.py:35 | `int` succeeds exactly on a non-empty run of digits of the base |
| `HtmlToText.ParseShow` | src/html_to_text.py:35 | `int` reads back every canonical numeral (no leading zeros, lower-case hexadecimal) in both bases |
| `HtmlToText.DecodeCharRef` | src/html_to_text.py:35-36 | a reference with no digits or with a non-digit fails; otherwise the result is `chr` of the parsed number, failing out of range |
| `HtmlToText.CharRefExamples` | src/html_to_text.py:35-36 | `x41` and `65` both decode to `A`; `X41` fails |
| `HtmlToText.HexCharRefOfChar` | src/html_to_text.py:35-36 | every character round-trips through its hexadecimal reference |
| `HtmlToText.DecimalCharRefOfChar` | src/html_to_text.py:35-36 | every character round-trips through its decimal reference |
| `HtmlToText.Emit` | src/html_to_text.py:14-36 | each callback appends at most one fragment, and only a bad character reference raises |
| `HtmlToText.RunAppends` | src/html_to_text.py:9-36 | handlers only append: a run extends its starting buffer |
| `HtmlToText.RunConcat` | src/html_to_text.py:14-36 | feeding two event runs one after the other equals feeding them together |
| `HtmlToText.RunFrom` | src/html_to_text.py:9-36 | the starting buffer only sits in front of what a run appends |
| `HtmlToText.DataVerbatim` | src/html_to_text.py:11-12 | character data comes out verbatim and in order in `text()` |
| `HtmlToText.ParagraphExample` | src/html_to_text.py:14-27 | `<p>Hi<br/>there</p>` yields `Hi`, newline, `there`, newline |
| `HtmlToText.HTMLToText.constructor` | src/html_to_text.py:7-9 | a fresh parser has an empty buffer |
| `HtmlToText.HTMLToText.HandleStartTag` | src/html_to_text.py:14-16 | `br` appends one newline; any other tag appends nothing |
| `HtmlToText.HTMLToText.HandleStartEndTag` | src/html_to_text.py:18-20 | `br` appends one newline; any other tag appends nothing |
| `HtmlToText.HTMLToText.HandleEndTag` | src/html_to_text.py:22-24 | closing `p` appends one newline; any other tag appends nothing |
| `HtmlToText.HTMLToText.HandleData` | src/html_to_text.py:26-27 | data is appended verbatim |
| `HtmlToText.HTMLToText.HandleEntityRef` | src/html_to_text.py:29-32 | a known entity appends its character; an unknown one appends nothing |
| `HtmlToText.HTMLToText.HandleCharRef` | src/html_to_text.py:34-36 | the decoded character is appended; a bad reference raises and leaves the buffer as it was |
| `HtmlToText.HTMLToText.Dispatch` | src/html_to_text.py:14-36 | each callback goes to its handler, which appends what `Emit` specifies |
| `HtmlToText.HTMLToText.Feed` | src/html_to_text.py:47 | feeding callbacks leaves the buffer that `Run` specifies; a raised error leaves exactly what the events before the failing one appended |
| `Filters.Capitalized` | src/filters.py:12-15 | a later word keeps its length, with its first character upper-cased and the rest unchanged |
| `Filters.CamelCase` | src/filters.py:1-16 | the loop with the `first` flag computes the camel-case specification |
| `Filters.CamelBlank` | src/filters.py:6-16 | text that is empty or only whitespace is returned unchanged |
| `Filters.CamelCaseInsensitive` | src/filters.py:6-15 | apart from letter case, the result is the input with its whitespace removed |
| `Filters.CamelShape` | src/filters.py:6-15 | the result holds no whitespace and does not start with an upper-case letter |
| `Filters.CamelExample` | src/filters.py:3-4 | `camelcase("A Test title") == "aTestTitle"` |
| `Filters.PascalCase` | src/filters.py:19-31 | the camel-case result with its first character upper-cased; empty stays empty |
| `Filters.PascalExample` | src/filters.py:21-22 | `pascalcase("A Test title") == "ATestTitle"` |
| `Filters.SnakeCaseSpec` | src/filters.py:34-41 | same length; spaces, and only spaces, become `_`; everything else is lower-cased |
| `Filters.SnakeCaseIdempotent` | src/filters.py:39-41 | `snakecase` is idempotent |
| `Filters.SnakeExample` | src/filters.py:36-37 | `snakecase("A Test title") == "a_test_title"` |
| `Filters.KebabCaseSpec` | src/filters.py:44-49 | same length; spaces and underscores become `-`; everything else is lower-cased |
| `Filters.KebabCaseIdempotent` | src/filters.py:49 | `kebabcase` is idempotent |
| `Filters.KebabExample` | src/filters.py:46-47 | `kebabcase("A Test title") == "a-test-title"` |
| `UserFilters.ReplaceWithSymbolLength` | test-snippets/filters.py:1-2 | the output is `len(text) * len(symbol)` long, so empty text gives `""` |
| `UserFilters.ReplaceWithSymbolAppend` | test-snippets/filters.py:2 | masking distributes over concatenation, one symbol copy per character |
| `UserFilters.ReplaceWithSymbolOne` | test-snippets/filters.py:2 | one character becomes exactly one copy of the symbol |
| `UserFilters.ReplaceWithSymbolLengthOnly` | test-snippets/filters.py:2 | the output depends only on the length of the text |
| `UserFilters.ReplaceWithChar` | test-snippets/filters.py:2 | with a one-character symbol the output is that character repeated, once per input character |
| `UserFilters.FiltersContents` | test-snippets/filters.py:5-7 | the dictionary has the single key `replace_with_symbol`, bound to the filter |

## Left out

- Template rendering (`Snippet.render`, jinja2, the filter and global plugin
  loading through `import_file`) is not modelled. It relies on a foreign
  template engine and on executing user code. The render outcome is a
  parameter of the enter handler.
- `date`, `random_int`, `random_item` and `random_uuid` are not modelled.
  They depend on the clock, randomness and dateparser.
- Clipboard input and output (xsel subprocesses, GTK) are not modelled. Only
  the pure decoding is. The text handed to xsel is returned as an
  out-parameter.
- The file system is replaced by values: the glob result is a list
  parameter, and `frontmatter.load` is a map from readable paths to an
  already-parsed front matter (`Header`) and body. YAML parsing is not
  modelled. Keys other than `name`, `description`, `icon` and `vars`, and
  variable keys other than `label`, `default` and `value`, are dropped.
- A `null` YAML value is not distinguished from a missing key, and all values
  are strings.
- Before the first reset the Python object has no `snippet` attribute at all.
  The model starts with `null`, which raises on the same path.
- The preferences (`snippets_keyword`, `snippets_copy_mode`,
  `snippets_path`) are parameters.
- The ulauncher action and item objects are plain records.
- The stdlib HTML tokeniser and `html_to_text()`'s `close()` are not part of
  the model. The handlers are driven by an explicit event sequence.
- Case mapping is ASCII-only. This applies to `lower`/`upper` in the
  filters and to `re.IGNORECASE`. Unicode case folding is not modelled.
- `unquote` decodes each `%XX` to the character with that code. Multi-byte
  UTF-8 sequences are not recombined.
- `chr` of a lone surrogate is treated as an error, because a Dafny `char`
  cannot hold one.
- `int()` is modelled on bare ASCII digit runs only. Python also accepts
  surrounding whitespace, signs, `_` separators, a `0x`/`0X` prefix in base 16
  (so `&#x0x41;` gives `A` in Python but raises in the model) and non-ASCII
  decimal digits. None of these is modelled, and `HtmlToText.ParseNat`
  states the model's reading, not Python's.
- `Path.relative_to` is modelled on the path text. Normalisation of `..`,
  repeated or trailing slashes is not modelled.
- HtmlToText.HTMLToText.Feed: on a raised error the contract does not say
  which error message is returned.
- RelativeTo: a doubled slash right after the root stays in the remainder
  (root `a/` and path `a//b` give `/b`). Python's path normalisation gives
  `b`.
- Fuzzy.FuzzyFind: `accessor` is fixed to the identity. The launcher only
  passes plain file names.
- Fuzzy.Sort: with `sort_results=False` Python's stable sort keeps
  collection order among equal `(span, start)` keys. The contract states
  the order by `(span, start)` and the permutation, but not that tie order.
- With `HTMLParser`'s default `convert_charrefs=True` the tokeniser resolves
  references itself and never calls `handle_entityref` or
  `handle_charref`. The model still states what those handlers do.
- A variable declared with only `null` values or with keys other than
  `label`, `default` and `value` is a non-empty dictionary in Python. Python
  therefore asks for it. The model drops such keys and values, so its
  `Truthy()` is false and the enter handler renders instead. A variable
  whose whole entry is `null` (`vars: {x: null}`) makes Python's
  `next_variable` raise when it calls `.get` on `None`. The model reads that
  entry as an empty dictionary and renders.
- The variable names of a `vars` mapping are not required to be distinct.
  A YAML mapping cannot repeat a key, and `IndexOf` reads the first entry
  with a name, which is then the only one.
