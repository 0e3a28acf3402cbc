/**
 * The built-in case-conversion filters of src/filters.py: `camelcase`,
 * `pascalcase`, `snakecase` and `kebabcase`. Case mapping is ASCII-only.
 */
module Filters {
  import opened Strings

  /** A later word of a camel-cased text: first character upper-cased, the
      rest unchanged (`word[:1].upper() + word[1:]`). */
  function Capitalized(w: string): (r: string)
    ensures |r| == |w|
    ensures w != [] ==> r[0] == Upper(w[0]) && r[1..] == w[1..]
  {
    if w == [] then [] else [Upper(w[0])] + w[1..]
  }

  /** The words glued together: the first lower-cased, the others capitalised. */
  function CamelWords(ws: seq<string>): (r: string)
    requires ws != []
    decreases |ws|
  {
    if |ws| == 1 then ToLower(ws[0]) else CamelWords(ws[..|ws| - 1]) + Capitalized(ws[|ws| - 1])
  }

  /** What `camelcase(text)` returns. */
  function Camel(text: string): string {
    var ws := Words(text);
    if ws == [] then text else CamelWords(ws)
  }

  /** `camelcase`: the loop over the words of `text`, with the `first` flag. */
  method CamelCase(text: string) returns (r: string)
    ensures r == Camel(text)
  {
    var words := Words(text);
    var first := false;
    r := text;
    for i := 0 to |words|
      invariant first <==> i > 0
      invariant i > 0 ==> r == CamelWords(words[..i])
      invariant i == 0 ==> r == text
    {
      var word := words[i];
      if !first {
        CamelWordsFirst(words);
        r := ToLower(word);
        first := true;
      } else {
        var piece := "";
        if |word| > 1 {
          piece := [Upper(word[0])] + word[1..];
        } else if |word| == 1 {
          piece := [Upper(word[0])];
        }
        assert piece == Capitalized(word);
        CamelWordsSnoc(words, i);
        r := r + piece;
      }
    }
    if words != [] {
      assert words[..|words|] == words;
    }
  }

  /** A text made only of whitespace has no words and comes back unchanged. */
  lemma CamelBlank(text: string)
    requires forall i :: 0 <= i < |text| ==> IsSpace(text[i])
    ensures Camel(text) == text
  {
    WordsEmpty(text);
  }

  lemma CamelWordsFirst(ws: seq<string>)
    requires ws != []
    ensures CamelWords(ws[..1]) == ToLower(ws[0])
  {
    assert ws[..1] == [ws[0]];
  }

  lemma CamelWordsSnoc(ws: seq<string>, i: nat)
    requires 0 < i < |ws|
    ensures CamelWords(ws[..i + 1]) == CamelWords(ws[..i]) + Capitalized(ws[i])
  {
    assert ws[..i + 1][..i] == ws[..i];
  }

  /** Camel-casing only changes letter case and drops whitespace: lower-cased,
      the result equals the lower-cased input with its whitespace removed. */
  lemma {:induction false} CamelCaseInsensitive(text: string)
    requires Words(text) != []
    ensures ToLower(Camel(text)) == ToLower(RemoveSpace(text))
  {
    var ws := Words(text);
    CamelWordsLower(ws);
    WordsConcat(text);
  }

  lemma {:induction false} CamelWordsLower(ws: seq<string>)
    requires ws != []
    ensures ToLower(CamelWords(ws)) == ToLower(Concat(ws))
    decreases |ws|
  {
    if |ws| == 1 {
      LowerIdempotent(ws[0]);
      assert Concat(ws) == ws[0] + Concat([]);
    } else {
      var init, last := ws[..|ws| - 1], ws[|ws| - 1];
      CamelWordsLower(init);
      ConcatAppend(init, [last]);
      assert init + [last] == ws;
      assert Concat([last]) == last + Concat([]);
      ToLowerAppend(CamelWords(init), Capitalized(last));
      ToLowerAppend(Concat(init), last);
      assert ToLower(Capitalized(last)) == ToLower(last);
    }
  }

  lemma ToLowerAppend(a: string, b: string)
    ensures ToLower(a + b) == ToLower(a) + ToLower(b)
  {
    assert forall i :: 0 <= i < |a + b| ==> ToLower(a + b)[i] == (ToLower(a) + ToLower(b))[i];
  }

  /** A camel-cased text with at least one word holds no whitespace, and its
      first character is not an upper-case letter. */
  lemma CamelShape(text: string)
    requires Words(text) != []
    ensures NoSpace(Camel(text))
    ensures Camel(text) != [] && !('A' <= Camel(text)[0] <= 'Z')
  {
    var ws := Words(text);
    WordsShape(text);
    CamelWordsShape(ws);
  }

  lemma {:induction false} CamelWordsShape(ws: seq<string>)
    requires ws != [] && forall k :: 0 <= k < |ws| ==> ws[k] != [] && NoSpace(ws[k])
    ensures NoSpace(CamelWords(ws))
    ensures CamelWords(ws) != [] && CamelWords(ws)[0] == Lower(ws[0][0])
    decreases |ws|
  {
    if |ws| > 1 {
      var init := ws[..|ws| - 1];
      CamelWordsShape(init);
      var c := Capitalized(ws[|ws| - 1]);
      assert c[0] == Upper(ws[|ws| - 1][0]);
    }
  }

  /** Three words separated by single spaces split back into those words. */
  lemma ThreeWords(a: string, b: string, c: string)
    requires a != [] && NoSpace(a) && b != [] && NoSpace(b) && c != [] && NoSpace(c)
    ensures Words(a + ([' '] + (b + ([' '] + c)))) == [a, b, c]
  {
    WordsTake(c, []);
    assert c + [] == c;
    WordsSkip(' ', c);
    WordsTake(b, [' '] + c);
    WordsSkip(' ', b + ([' '] + c));
    WordsTake(a, [' '] + (b + ([' '] + c)));
  }

  /** `camelcase("A Test title") == "aTestTitle"` */
  lemma CamelExample(text: string)
    requires text == "A Test title"
    ensures Camel(text) == "aTestTitle"
  {
    assert "A" + ([' '] + ("Test" + ([' '] + "title"))) == text;
    CamelOfThree(text, "A", "Test", "title");
    ExamplePieces();
  }

  lemma ExamplePieces()
    ensures ToLower("A") + Capitalized("Test") + Capitalized("title") == "aTestTitle"
  {
    assert ToLower("A") == "a";
    assert Capitalized("title") == "Title";
  }

  lemma CamelOfThree(text: string, a: string, b: string, c: string)
    requires a != [] && NoSpace(a) && b != [] && NoSpace(b) && c != [] && NoSpace(c)
    requires text == a + ([' '] + (b + ([' '] + c)))
    ensures Camel(text) == ToLower(a) + Capitalized(b) + Capitalized(c)
  {
    ThreeWords(a, b, c);
    var ws := [a, b, c];
    assert ws[..2] == [a, b] && ws[..2][..1] == [a];
    assert CamelWords(ws) == CamelWords([a, b]) + Capitalized(c);
    assert CamelWords([a, b]) == CamelWords([a]) + Capitalized(b);
  }

  /** `pascalcase`: `camelcase` with its first character upper-cased. */
  function PascalCase(text: string): (r: string)
    ensures |r| == |Camel(text)|
    ensures r != [] ==> r[0] == Upper(Camel(text)[0]) && r[1..] == Camel(text)[1..]
  {
    var c := Camel(text);
    if |c| > 1 then [Upper(c[0])] + c[1..]
    else if |c| == 1 then [Upper(c[0])]
    else c
  }

  /** `pascalcase("A Test title") == "ATestTitle"` */
  lemma PascalExample(text: string)
    requires text == "A Test title"
    ensures PascalCase(text) == "ATestTitle"
  {
    CamelExample(text);
    var c := Camel(text);
    assert c[1..] == "TestTitle";
  }

  /** `snakecase`: lower-case, then every space becomes `_`. */
  function SnakeCase(text: string): (r: string)
  {
    Replace(ToLower(text), ' ', '_')
  }

  /** Snake-casing keeps the length, leaves no space and no upper-case letter,
      and maps each character on its own. */
  lemma SnakeCaseSpec(text: string)
    ensures var r := SnakeCase(text);
      && |r| == |text|
      && ' ' !in r
      && (forall i :: 0 <= i < |r| ==> !('A' <= r[i] <= 'Z'))
      && (forall i :: 0 <= i < |r| ==> (text[i] == ' ' ==> r[i] == '_') && (text[i] != ' ' ==> r[i] == Lower(text[i])))
  {
    var r := SnakeCase(text);
    assert forall i :: 0 <= i < |r| ==> r[i] != ' ';
  }

  lemma SnakeCaseIdempotent(text: string)
    ensures SnakeCase(SnakeCase(text)) == SnakeCase(text)
  {
    var r := SnakeCase(text);
    SnakeCaseSpec(text);
    SnakeCaseSpec(r);
    assert forall i :: 0 <= i < |r| ==> SnakeCase(r)[i] == r[i];
  }

  /** `snakecase("A Test title") == "a_test_title"` */
  lemma SnakeExample()
    ensures SnakeCase("A Test title") == "a_test_title"
  {
  }

  /** `kebabcase`: `snakecase`, then every `_` (also those already in the
      input) becomes `-`. */
  function KebabCase(text: string): (r: string)
  {
    Replace(SnakeCase(text), '_', '-')
  }

  /** Kebab-casing keeps the length and leaves no space, no underscore and
      no upper-case letter. */
  lemma KebabCaseSpec(text: string)
    ensures var r := KebabCase(text);
      && |r| == |text|
      && ' ' !in r && '_' !in r
      && (forall i :: 0 <= i < |r| ==> !('A' <= r[i] <= 'Z'))
      && (forall i :: 0 <= i < |r| ==> (text[i] in " _" ==> r[i] == '-') && (text[i] !in " _" ==> r[i] == Lower(text[i])))
  {
    var r := KebabCase(text);
    SnakeCaseSpec(text);
    assert forall i :: 0 <= i < |r| ==> r[i] != ' ' && r[i] != '_';
  }

  lemma KebabCaseIdempotent(text: string)
    ensures KebabCase(KebabCase(text)) == KebabCase(text)
  {
    var r := KebabCase(text);
    KebabCaseSpec(text);
    KebabCaseSpec(r);
    assert forall i :: 0 <= i < |r| ==> KebabCase(r)[i] == r[i];
  }

  /** `kebabcase("A Test title") == "a-test-title"` */
  lemma KebabExample()
    ensures KebabCase("A Test title") == "a-test-title"
  {
  }
}
