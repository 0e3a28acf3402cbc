/**
 * The user-supplied filter module shipped with the sample snippets
 * (test-snippets/filters.py): `replace_with_symbol` and the `filters`
 * dictionary that exposes it to the template engine.
 */
module UserFilters {

  /** `symbol * len(text)`: the symbol repeated once per character of `text`. */
  function ReplaceWithSymbol(text: string, symbol: string): (r: string)
    decreases |text|
  {
    if text == [] then [] else ReplaceWithSymbol(text[1..], symbol) + symbol
  }

  /** The result is `len(text)` copies of the symbol long. */
  lemma {:induction false} ReplaceWithSymbolLength(text: string, symbol: string)
    ensures |ReplaceWithSymbol(text, symbol)| == |text| * |symbol|
    decreases |text|
  {
    if text != [] {
      ReplaceWithSymbolLength(text[1..], symbol);
      calc {
        |ReplaceWithSymbol(text, symbol)|;
        |ReplaceWithSymbol(text[1..], symbol)| + |symbol|;
        (|text| - 1) * |symbol| + |symbol|;
        { assert (|text| - 1) * |symbol| + |symbol| == |text| * |symbol|; }
        |text| * |symbol|;
      }
    }
  }

  /** Masking distributes over concatenation: each character of the text
      contributes one copy of the symbol, in order. */
  lemma {:induction false} ReplaceWithSymbolAppend(a: string, b: string, symbol: string)
    ensures ReplaceWithSymbol(a + b, symbol) == ReplaceWithSymbol(b, symbol) + ReplaceWithSymbol(a, symbol)
    decreases |a|
  {
    if a == [] {
      assert a + b == b;
    } else {
      var r, t := ReplaceWithSymbol, a[1..];
      calc {
        r(a + b, symbol);
        { assert (a + b)[1..] == t + b; }
        r(t + b, symbol) + symbol;
        { ReplaceWithSymbolAppend(t, b, symbol); }
        (r(b, symbol) + r(t, symbol)) + symbol;
        r(b, symbol) + (r(t, symbol) + symbol);
      }
    }
  }

  /** One character is replaced by exactly one copy of the symbol. */
  lemma ReplaceWithSymbolOne(c: char, symbol: string)
    ensures ReplaceWithSymbol([c], symbol) == symbol
  {
    assert [c][1..] == [];
  }

  /** Masking depends only on the length of the text, never on its characters. */
  lemma {:induction false} ReplaceWithSymbolLengthOnly(a: string, b: string, symbol: string)
    requires |a| == |b|
    ensures ReplaceWithSymbol(a, symbol) == ReplaceWithSymbol(b, symbol)
    decreases |a|
  {
    if a != [] {
      ReplaceWithSymbolLengthOnly(a[1..], b[1..], symbol);
    }
  }

  /** Masking with a single character keeps the length and leaves nothing but
      that character, so none of the original text can be read back. */
  lemma {:induction false} ReplaceWithChar(text: string, c: char)
    ensures ReplaceWithSymbol(text, [c]) == seq(|text|, _ => c)
    decreases |text|
  {
    if text != [] {
      ReplaceWithChar(text[1..], c);
      assert seq(|text|, _ => c) == seq(|text| - 1, _ => c) + [c];
    }
  }

  /** The `filters` dictionary: the name the templates use, bound to the filter. */
  const Filters: map<string, (string, string) -> string> := map["replace_with_symbol" := ReplaceWithSymbol]

  lemma FiltersContents()
    ensures Filters.Keys == {"replace_with_symbol"}
    ensures forall text, symbol :: Filters["replace_with_symbol"](text, symbol) == ReplaceWithSymbol(text, symbol)
  {
  }
}
