/**
 * The handler side of src/html_to_text.py: an `HTMLToText` parser object
 * whose callbacks append text fragments to a buffer, and `text()`, which
 * joins the buffer. The tokeniser of the standard library that issues the
 * callbacks is not part of this model; its output is an explicit sequence
 * of `Event`s instead.
 */
module HtmlToText {
  import opened Strings

  /** A code point `chr` accepts and a Dafny `char` can hold: anything up to
      0x10FFFF except the surrogate block. */
  predicate IsScalar(n: int) {
    0 <= n < 0xD800 || 0xE000 <= n <= 0x10FFFF
  }

  type CodePoint = n: int | IsScalar(n)

  /** Python's `html.entities.name2codepoint`: the 252 named character
      references of HTML 4. */
  const Name2Codepoint: map<string, CodePoint> := map[
      "quot" := 34, "amp" := 38, "lt" := 60, "gt" := 62, "nbsp" := 160, "iexcl" := 161,
      "cent" := 162, "pound" := 163, "curren" := 164, "yen" := 165, "brvbar" := 166, "sect" := 167,
      "uml" := 168, "copy" := 169, "ordf" := 170, "laquo" := 171, "not" := 172, "shy" := 173,
      "reg" := 174, "macr" := 175, "deg" := 176, "plusmn" := 177, "sup2" := 178, "sup3" := 179,
      "acute" := 180, "micro" := 181, "para" := 182, "middot" := 183, "cedil" := 184, "sup1" := 185,
      "ordm" := 186, "raquo" := 187, "frac14" := 188, "frac12" := 189, "frac34" := 190, "iquest" := 191,
      "Agrave" := 192, "Aacute" := 193, "Acirc" := 194, "Atilde" := 195, "Auml" := 196, "Aring" := 197,
      "AElig" := 198, "Ccedil" := 199, "Egrave" := 200, "Eacute" := 201, "Ecirc" := 202, "Euml" := 203,
      "Igrave" := 204, "Iacute" := 205, "Icirc" := 206, "Iuml" := 207, "ETH" := 208, "Ntilde" := 209,
      "Ograve" := 210, "Oacute" := 211, "Ocirc" := 212, "Otilde" := 213, "Ouml" := 214, "times" := 215,
      "Oslash" := 216, "Ugrave" := 217, "Uacute" := 218, "Ucirc" := 219, "Uuml" := 220, "Yacute" := 221,
      "THORN" := 222, "szlig" := 223, "agrave" := 224, "aacute" := 225, "acirc" := 226, "atilde" := 227,
      "auml" := 228, "aring" := 229, "aelig" := 230, "ccedil" := 231, "egrave" := 232, "eacute" := 233,
      "ecirc" := 234, "euml" := 235, "igrave" := 236, "iacute" := 237, "icirc" := 238, "iuml" := 239,
      "eth" := 240, "ntilde" := 241, "ograve" := 242, "oacute" := 243, "ocirc" := 244, "otilde" := 245,
      "ouml" := 246, "divide" := 247, "oslash" := 248, "ugrave" := 249, "uacute" := 250, "ucirc" := 251,
      "uuml" := 252, "yacute" := 253, "thorn" := 254, "yuml" := 255, "OElig" := 338, "oelig" := 339,
      "Scaron" := 352, "scaron" := 353, "Yuml" := 376, "fnof" := 402, "circ" := 710, "tilde" := 732,
      "Alpha" := 913, "Beta" := 914, "Gamma" := 915, "Delta" := 916, "Epsilon" := 917, "Zeta" := 918,
      "Eta" := 919, "Theta" := 920, "Iota" := 921, "Kappa" := 922, "Lambda" := 923, "Mu" := 924,
      "Nu" := 925, "Xi" := 926, "Omicron" := 927, "Pi" := 928, "Rho" := 929, "Sigma" := 931,
      "Tau" := 932, "Upsilon" := 933, "Phi" := 934, "Chi" := 935, "Psi" := 936, "Omega" := 937,
      "alpha" := 945, "beta" := 946, "gamma" := 947, "delta" := 948, "epsilon" := 949, "zeta" := 950,
      "eta" := 951, "theta" := 952, "iota" := 953, "kappa" := 954, "lambda" := 955, "mu" := 956,
      "nu" := 957, "xi" := 958, "omicron" := 959, "pi" := 960, "rho" := 961, "sigmaf" := 962,
      "sigma" := 963, "tau" := 964, "upsilon" := 965, "phi" := 966, "chi" := 967, "psi" := 968,
      "omega" := 969, "thetasym" := 977, "upsih" := 978, "piv" := 982, "ensp" := 8194, "emsp" := 8195,
      "thinsp" := 8201, "zwnj" := 8204, "zwj" := 8205, "lrm" := 8206, "rlm" := 8207, "ndash" := 8211,
      "mdash" := 8212, "lsquo" := 8216, "rsquo" := 8217, "sbquo" := 8218, "ldquo" := 8220, "rdquo" := 8221,
      "bdquo" := 8222, "dagger" := 8224, "Dagger" := 8225, "bull" := 8226, "hellip" := 8230, "permil" := 8240,
      "prime" := 8242, "Prime" := 8243, "lsaquo" := 8249, "rsaquo" := 8250, "oline" := 8254, "frasl" := 8260,
      "euro" := 8364, "image" := 8465, "weierp" := 8472, "real" := 8476, "trade" := 8482, "alefsym" := 8501,
      "larr" := 8592, "uarr" := 8593, "rarr" := 8594, "darr" := 8595, "harr" := 8596, "crarr" := 8629,
      "lArr" := 8656, "uArr" := 8657, "rArr" := 8658, "dArr" := 8659, "hArr" := 8660, "forall" := 8704,
      "part" := 8706, "exist" := 8707, "empty" := 8709, "nabla" := 8711, "isin" := 8712, "notin" := 8713,
      "ni" := 8715, "prod" := 8719, "sum" := 8721, "minus" := 8722, "lowast" := 8727, "radic" := 8730,
      "prop" := 8733, "infin" := 8734, "ang" := 8736, "and" := 8743, "or" := 8744, "cap" := 8745,
      "cup" := 8746, "int" := 8747, "there4" := 8756, "sim" := 8764, "cong" := 8773, "asymp" := 8776,
      "ne" := 8800, "equiv" := 8801, "le" := 8804, "ge" := 8805, "sub" := 8834, "sup" := 8835,
      "nsub" := 8836, "sube" := 8838, "supe" := 8839, "oplus" := 8853, "otimes" := 8855, "perp" := 8869,
      "sdot" := 8901, "lceil" := 8968, "rceil" := 8969, "lfloor" := 8970, "rfloor" := 8971, "lang" := 9001,
      "rang" := 9002, "loz" := 9674, "spades" := 9824, "clubs" := 9827, "hearts" := 9829, "diams" := 9830
    ]

  /** `chr(n)`. Values past 0x10FFFF raise `ValueError`; lone surrogates,
      which Python can hold in a `str` but a Dafny `char` cannot, are refused
      here as well. */
  function Chr(n: int): (r: Result<char, string>)
    ensures r.Ok? <==> IsScalar(n)
    ensures r.Ok? ==> r.value as int == n
  {
    if IsScalar(n) then Ok(n as char) else Err("chr() arg not in range")
  }

  // ---------------------------------------------------------------- int(s) and int(s, 16)

  /** The value of one digit in base 10 or 16 (either letter case). */
  function DigitValue(c: char, base: nat): (r: Option<nat>)
    requires base == 10 || base == 16
    ensures r.Some? ==> r.value < base
    ensures ('0' <= c <= '9') ==> r == Some(c as nat - '0' as nat)
  {
    if '0' <= c <= '9' then Some(c as nat - '0' as nat)
    else if base == 16 && 'a' <= c <= 'f' then Some(c as nat - 'a' as nat + 10)
    else if base == 16 && 'A' <= c <= 'F' then Some(c as nat - 'A' as nat + 10)
    else None
  }

  /** `int(s, base)` for a run of digits: `None` (Python raises `ValueError`)
      when the run is empty or holds a character that is not a digit. */
  function ParseNat(s: string, base: nat): (r: Option<nat>)
    requires base == 10 || base == 16
    ensures s == [] ==> r == None
    // it succeeds exactly on a non-empty run of digits of the base
    ensures r.Some? <==> s != [] && forall i :: 0 <= i < |s| ==> DigitValue(s[i], base).Some?
    decreases |s|
  {
    if s == [] then None
    else
      var d := DigitValue(s[|s| - 1], base);
      if d.None? then None
      else if |s| == 1 then d
      else
        match ParseNat(s[..|s| - 1], base)
        case None => None
        case Some(v) => Some(v * base + d.value)
  }

  /** The digit of value `d`, lower case for hexadecimal. */
  function DigitChar(d: nat): (c: char)
    requires d < 16
  {
    if d < 10 then ('0' as nat + d) as char else ('a' as nat + d - 10) as char
  }

  /** The digits of `n` in `base`, most significant first, without leading zeros. */
  function Show(n: nat, base: nat): (s: string)
    requires base == 10 || base == 16
    ensures s != []
    decreases n
  {
    if n < base then [DigitChar(n)] else Show(n / base, base) + [DigitChar(n % base)]
  }

  /** `int` reads back every number written out in decimal or hexadecimal. */
  lemma {:induction false} ParseShow(n: nat, base: nat)
    requires base == 10 || base == 16
    ensures ParseNat(Show(n, base), base) == Some(n)
    decreases n
  {
    if n >= base {
      var s, p, c := Show(n, base), Show(n / base, base), DigitChar(n % base);
      assert s == p + [c];
      ParseShow(n / base, base);
      assert s[..|s| - 1] == p && s[|s| - 1] == c && |s| > 1;
      assert DigitValue(c, base) == Some(n % base);
    } else {
      assert DigitValue(DigitChar(n), base) == Some(n);
    }
  }

  /** Whether a character reference is hexadecimal: it starts with `x`. */
  predicate IsHexRef(name: string) {
    StartsWith(name, "x")
  }

  /** The digits of a character reference, after the `x` of a hexadecimal one. */
  function RefDigits(name: string): string {
    if IsHexRef(name) then name[1..] else name
  }

  function RefBase(name: string): nat {
    if IsHexRef(name) then 16 else 10
  }

  /** What `handle_charref(name)` decodes: hexadecimal after a leading `x`,
      decimal otherwise, then `chr`. Each failure is a raised `ValueError`. */
  function DecodeCharRef(name: string): (r: Result<char, string>)
    ensures name == [] ==> r.Err?
    // no digits, or a character that is not a digit of the base: `int` raises
    ensures RefDigits(name) == [] ==> r.Err?
    ensures (exists i :: 0 <= i < |RefDigits(name)| && DigitValue(RefDigits(name)[i], RefBase(name)).None?) ==> r.Err?
    // otherwise `chr` of the parsed number, which raises out of range
    ensures ParseNat(RefDigits(name), RefBase(name)).Some? ==> r == Chr(ParseNat(RefDigits(name), RefBase(name)).value)
  {
    match ParseNat(RefDigits(name), RefBase(name))
    case None => Err("invalid literal for int()")
    case Some(n) => Chr(n)
  }

  /** `&#x41;` and `&#65;` both decode to `A`. */
  lemma CharRefExamples()
    ensures DecodeCharRef("x41") == Ok('A')
    ensures DecodeCharRef("65") == Ok('A')
    ensures DecodeCharRef("X41").Err?
  {
    assert "x41"[1..] == "41";
    assert "41"[..1] == "4";
    assert "65"[..1] == "6";
    assert "X41"[..2] == "X4" && "X4"[..1] == "X";
  }

  /** Every character round-trips through its hexadecimal and its decimal
      character reference. */
  lemma HexCharRefOfChar(c: char)
    ensures DecodeCharRef("x" + Show(c as nat, 16)) == Ok(c)
  {
    var h := Show(c as nat, 16);
    ParseShow(c as nat, 16);
    assert StartsWith("x" + h, "x");
    assert ("x" + h)[1..] == h;
  }

  lemma DecimalCharRefOfChar(c: char)
    ensures DecodeCharRef(Show(c as nat, 10)) == Ok(c)
  {
    var d := Show(c as nat, 10);
    ParseShow(c as nat, 10);
    assert d[0] != 'x' by {
      ShowDigits(c as nat, 10);
    }
    assert !StartsWith(d, "x");
  }

  /** Decimal output holds decimal digits only. */
  lemma {:induction false} ShowDigits(n: nat, base: nat)
    requires base == 10
    ensures forall k :: 0 <= k < |Show(n, base)| ==> '0' <= Show(n, base)[k] <= '9'
    decreases n
  {
    if n >= base {
      ShowDigits(n / base, base);
    }
  }

  // ---------------------------------------------------------------- events and handlers

  /** The callbacks the tokeniser issues. Attributes are carried but unused. */
  datatype Event =
    | StartTag(tag: string, attrs: seq<(string, Option<string>)>)
    | StartEndTag(tag: string, attrs: seq<(string, Option<string>)>)
    | EndTag(tag: string)
    | Data(data: string)
    | EntityRef(name: string)
    | CharRef(name: string)

  /** The fragments one callback appends, or the error it raises. */
  function Emit(e: Event): (r: Result<seq<string>, string>)
    ensures r.Ok? ==> |r.value| <= 1
    ensures r.Err? <==> e.CharRef? && DecodeCharRef(e.name).Err?
  {
    match e
    case StartTag(tag, _) => Ok(if tag == "br" then ["\n"] else [])
    case StartEndTag(tag, _) => Ok(if tag == "br" then ["\n"] else [])
    case EndTag(tag) => Ok(if tag == "p" then ["\n"] else [])
    case Data(data) => Ok([data])
    case EntityRef(name) =>
      if name in Name2Codepoint then Ok([[Name2Codepoint[name] as char]]) else Ok([])
    case CharRef(name) =>
      match DecodeCharRef(name)
      case Ok(c) => Ok([[c]])
      case Err(msg) => Err(msg)
  }

  /** The buffer after a run of callbacks from `buf`; the first raised error
      stops the run. */
  function Run(buf: seq<string>, events: seq<Event>): (r: Result<seq<string>, string>)
    decreases |events|
  {
    if events == [] then Ok(buf)
    else
      match Emit(events[0])
      case Err(msg) => Err(msg)
      case Ok(frags) => Run(buf + frags, events[1..])
  }

  /** Handlers only ever append: a successful run extends the buffer it started from. */
  lemma {:induction false} RunAppends(buf: seq<string>, events: seq<Event>)
    requires Run(buf, events).Ok?
    ensures buf <= Run(buf, events).value
    decreases |events|
  {
    if events != [] {
      var frags := Emit(events[0]).value;
      RunAppends(buf + frags, events[1..]);
    }
  }

  /** A run over two event sequences is the run over the second started from
      the buffer the first left behind. */
  lemma {:induction false} RunConcat(buf: seq<string>, a: seq<Event>, b: seq<Event>)
    ensures Run(buf, a + b) == (match Run(buf, a) case Ok(mid) => Run(mid, b) case Err(m) => Err(m))
    decreases |a|
  {
    if a == [] {
      assert a + b == b;
    } else {
      assert (a + b)[0] == a[0] && (a + b)[1..] == a[1..] + b;
      match Emit(a[0])
      case Err(_) =>
      case Ok(frags) => RunConcat(buf + frags, a[1..], b);
    }
  }

  /** The starting buffer only ever sits in front: the run from `buf` is `buf`
      followed by the run from an empty buffer. */
  lemma {:induction false} RunFrom(buf: seq<string>, events: seq<Event>)
    ensures Run(buf, events).Ok? <==> Run([], events).Ok?
    ensures Run(buf, events).Ok? ==> Run(buf, events).value == buf + Run([], events).value
    decreases |events|
  {
    if events != [] {
      match Emit(events[0])
      case Err(_) =>
      case Ok(frags) =>
        RunFrom(buf + frags, events[1..]);
        RunFrom(frags, events[1..]);
        assert [] + frags == frags;
    }
  }

  /** Character data comes out verbatim: a run of data events yields the
      concatenation of the data, in order. */
  function DataText(events: seq<Event>): string
    requires forall k :: 0 <= k < |events| ==> events[k].Data?
  {
    if events == [] then "" else events[0].data + DataText(events[1..])
  }

  lemma {:induction false} DataVerbatim(events: seq<Event>)
    requires forall k :: 0 <= k < |events| ==> events[k].Data?
    ensures Run([], events).Ok? && Concat(Run([], events).value) == DataText(events)
    decreases |events|
  {
    if events != [] {
      var d := events[0].data;
      DataVerbatim(events[1..]);
      RunFrom([d], events[1..]);
      assert [] + [d] == [d];
      var rest := Run([], events[1..]).value;
      assert Concat([d] + rest) == d + Concat(rest) by {
        assert ([d] + rest)[1..] == rest;
      }
    }
  }

  /** `<p>Hi<br/>there</p>` becomes `Hi\nthere\n`. */
  lemma ParagraphExample()
    ensures var events := [StartTag("p", []), Data("Hi"), StartEndTag("br", []), Data("there"), EndTag("p")];
      Run([], events) == Ok(["Hi", "\n", "there", "\n"])
  {
    var events := [StartTag("p", []), Data("Hi"), StartEndTag("br", []), Data("there"), EndTag("p")];
    var nl := "\n";
    var out := ["Hi", nl, "there", nl];
    assert Run(out, events[5..]) == Ok(out);
    assert events[4..][1..] == events[5..] && ["Hi", nl, "there"] + [nl] == out;
    assert Run(["Hi", nl, "there"], events[4..]) == Ok(out);
    assert events[3..][1..] == events[4..] && ["Hi", nl] + ["there"] == ["Hi", nl, "there"];
    assert Run(["Hi", nl], events[3..]) == Ok(out);
    assert events[2..][1..] == events[3..] && ["Hi"] + [nl] == ["Hi", nl];
    assert Run(["Hi"], events[2..]) == Ok(out);
    assert events[1..][1..] == events[2..] && [] + ["Hi"] == ["Hi"];
    assert Run([], events[1..]) == Ok(out);
    var none: seq<string> := [];
    assert none + [] == none;
  }

  // ---------------------------------------------------------------- the parser object

  /** One more callback: the run of the first `i + 1` events continues the
      run of the first `i` with what event `i` emits. */
  lemma RunSnoc(buf: seq<string>, events: seq<Event>, i: nat)
    requires i < |events|
    ensures Run(buf, events[..i + 1]) ==
              match Run(buf, events[..i])
              case Err(m) => Err(m)
              case Ok(b) => (match Emit(events[i]) case Ok(f) => Ok(b + f) case Err(m) => Err(m))
  {
    RunConcat(buf, events[..i], [events[i]]);
    assert events[..i + 1] == events[..i] + [events[i]];
    assert [events[i]][1..] == [];
  }

  /** A run that fails on a prefix of the events fails on all of them. */
  lemma RunStops(buf: seq<string>, events: seq<Event>, n: nat)
    requires n <= |events| && Run(buf, events[..n]).Err?
    ensures Run(buf, events).Err?
  {
    RunConcat(buf, events[..n], events[n..]);
    assert events[..n] + events[n..] == events;
  }

  class HTMLToText {
    /** The fragments appended so far, in arrival order. */
    var buf: seq<string>

    constructor()
      ensures buf == []
    {
      buf := [];
    }

    /** `text()`: the fragments joined with nothing between them. */
    function Text(): string
      reads this
    {
      Concat(buf)
    }

    method HandleStartTag(tag: string, attrs: seq<(string, Option<string>)>)
      modifies this
      ensures buf == old(buf) + Emit(StartTag(tag, attrs)).value
      ensures tag == "br" ==> Text() == old(Text()) + "\n"
      ensures tag != "br" ==> buf == old(buf)
    {
      if tag == "br" {
        buf := buf + ["\n"];
        ConcatAppend(old(buf), ["\n"]);
      }
    }

    method HandleStartEndTag(tag: string, attrs: seq<(string, Option<string>)>)
      modifies this
      ensures buf == old(buf) + Emit(StartEndTag(tag, attrs)).value
      ensures tag == "br" ==> Text() == old(Text()) + "\n"
      ensures tag != "br" ==> buf == old(buf)
    {
      if tag == "br" {
        buf := buf + ["\n"];
        ConcatAppend(old(buf), ["\n"]);
      }
    }

    method HandleEndTag(tag: string)
      modifies this
      ensures buf == old(buf) + Emit(EndTag(tag)).value
      ensures tag == "p" ==> Text() == old(Text()) + "\n"
      ensures tag != "p" ==> buf == old(buf)
    {
      if tag == "p" {
        buf := buf + ["\n"];
        ConcatAppend(old(buf), ["\n"]);
      }
    }

    method HandleData(data: string)
      modifies this
      ensures buf == old(buf) + [data]
      ensures Text() == old(Text()) + data
    {
      buf := buf + [data];
      ConcatAppend(old(buf), [data]);
    }

    method HandleEntityRef(name: string)
      modifies this
      ensures buf == old(buf) + Emit(EntityRef(name)).value
      ensures name in Name2Codepoint ==> Text() == old(Text()) + [Name2Codepoint[name] as char]
      ensures name !in Name2Codepoint ==> buf == old(buf)
    {
      if name in Name2Codepoint {
        var c := Name2Codepoint[name] as char;
        buf := buf + [[c]];
        ConcatAppend(old(buf), [[c]]);
      }
    }

    /** Raises (returns the error, buffer untouched) when `name` does not
        parse or is not a code point. */
    method HandleCharRef(name: string) returns (error: Option<string>)
      modifies this
      ensures error.Some? <==> DecodeCharRef(name).Err?
      ensures DecodeCharRef(name).Ok? ==> buf == old(buf) + [[DecodeCharRef(name).value]]
      ensures DecodeCharRef(name).Ok? ==> Text() == old(Text()) + [DecodeCharRef(name).value]
      ensures DecodeCharRef(name).Err? ==> buf == old(buf)
    {
      var n: Option<nat>;
      if StartsWith(name, "x") {
        n := ParseNat(name[1..], 16);
      } else {
        n := ParseNat(name, 10);
      }
      if n.None? {
        return Some("invalid literal for int()");
      }
      var c := Chr(n.value);
      if c.Err? {
        return Some(c.error);
      }
      buf := buf + [[c.value]];
      ConcatAppend(old(buf), [[c.value]]);
      error := None;
    }

    /** Hands one callback to its handler. */
    method Dispatch(ev: Event) returns (error: Option<string>)
      modifies this
      ensures error.Some? <==> Emit(ev).Err?
      ensures error.None? ==> buf == old(buf) + Emit(ev).value
      ensures error.Some? ==> buf == old(buf)
    {
      error := None;
      match ev {
        case StartTag(tag, attrs) => HandleStartTag(tag, attrs);
        case StartEndTag(tag, attrs) => HandleStartEndTag(tag, attrs);
        case EndTag(tag) => HandleEndTag(tag);
        case Data(data) => HandleData(data);
        case EntityRef(name) => HandleEntityRef(name);
        case CharRef(name) => error := HandleCharRef(name);
      }
    }

    /** Delivers `events` to the handlers in order, stopping at the first
        raised error, as `feed` does. */
    method Feed(events: seq<Event>) returns (error: Option<string>)
      modifies this
      ensures error.None? <==> Run(old(buf), events).Ok?
      ensures error.None? ==> buf == Run(old(buf), events).value
      // a raised error leaves exactly what the events before the failing one appended
      ensures error.Some? ==> exists n :: 0 <= n < |events| && Run(old(buf), events[..n]) == Ok(buf) && Emit(events[n]).Err?
      ensures old(buf) <= buf
    {
      for i := 0 to |events|
        invariant Run(old(buf), events[..i]) == Ok(buf)
        invariant old(buf) <= buf
      {
        RunSnoc(old(buf), events, i);
        var e := Dispatch(events[i]);
        if e.Some? {
          RunStops(old(buf), events, i + 1);
          assert Run(old(buf), events[..i]) == Ok(buf) && Emit(events[i]).Err?;
          return e;
        }
      }
      assert events[..|events|] == events;
      error := None;
    }
  }
}
