/**
 * `convert_clipboard` (src/functions.py): when the clipboard holds a file list
 * copied from the Nautilus file manager, turn it into plain paths.
 *
 * Percent-decoding (`urllib.parse.unquote`) is modelled byte-wise: every
 * `%XX` with two hexadecimal digits becomes the character with code `XX`.
 */
module Clipboard {
  import opened Strings

  const Marker := "x-special/nautilus-clipboard"

  /** Length of the URI scheme prefix each file line starts with (`file://`). */
  const SchemeLength := 7

  predicate IsHexDigit(c: char) {
    ('0' <= c <= '9') || ('a' <= c <= 'f') || ('A' <= c <= 'F')
  }

  function HexValue(c: char): (v: nat)
    requires IsHexDigit(c)
    ensures v < 16
  {
    if '0' <= c <= '9' then c as int - '0' as int
    else if 'a' <= c <= 'f' then c as int - 'a' as int + 10
    else c as int - 'A' as int + 10
  }

  /** True when `s` starts with a `%XX` escape. */
  predicate EscapeAt(s: string) {
    |s| >= 3 && s[0] == '%' && IsHexDigit(s[1]) && IsHexDigit(s[2])
  }

  /** `unquote(s)`: each valid `%XX` escape becomes one character, everything
      else (including a `%` not followed by two hex digits) is kept. */
  function Unquote(s: string): (r: string)
    ensures |r| <= |s|
  {
    if s == [] then ""
    else if EscapeAt(s) then [(16 * HexValue(s[1]) + HexValue(s[2])) as char] + Unquote(s[3..])
    else [s[0]] + Unquote(s[1..])
  }

  /** Percent-encode every character of `s` (the inverse direction). */
  function Quote(s: string): (r: string)
    requires forall i :: 0 <= i < |s| ==> s[i] as int < 256
  {
    if s == [] then ""
    else [ '%', HexDigit(s[0] as int / 16), HexDigit(s[0] as int % 16) ] + Quote(s[1..])
  }

  function HexDigit(n: nat): (c: char)
    requires n < 16
    ensures IsHexDigit(c) && HexValue(c) == n
  {
    if n < 10 then ('0' as int + n) as char else ('A' as int + n - 10) as char
  }

  /** Decoding undoes encoding, for every string of 8-bit characters. */
  lemma {:induction false} UnquoteQuote(s: string)
    requires forall i :: 0 <= i < |s| ==> s[i] as int < 256
    ensures Unquote(Quote(s)) == s
  {
    if s != [] {
      var e := Quote(s);
      assert EscapeAt(e);
      assert e[3..] == Quote(s[1..]);
      UnquoteQuote(s[1..]);
      assert [s[0]] + s[1..] == s;
    }
  }

  /** One file line: drop the scheme prefix, then percent-decode. */
  function DecodeLine(line: string): string {
    Unquote(Drop(line, SchemeLength))
  }

  function DecodeLines(lines: seq<string>): (r: seq<string>)
    ensures |r| == |lines| && forall k :: 0 <= k < |lines| ==> r[k] == DecodeLine(lines[k])
  {
    seq(|lines|, k requires 0 <= k < |lines| => DecodeLine(lines[k]))
  }

  /** What `convert_clipboard` returns: the input unchanged without the marker;
      with it, the lines from the third on, decoded, joined by newlines. */
  function Converted(text: string): string {
    if StartsWith(text, Marker) then
      Join(DecodeLines(Drop(Split(text, '\n'), 2)), '\n')
    else text
  }

  /** Every part followed by a newline, concatenated. */
  function Terminated(parts: seq<string>): string {
    if parts == [] then "" else Terminated(parts[..|parts| - 1]) + parts[|parts| - 1] + "\n"
  }

  lemma {:induction false} TerminatedJoin(parts: seq<string>)
    requires parts != []
    ensures Terminated(parts) == Join(parts, '\n') + "\n"
  {
    if |parts| > 1 {
      var init := parts[..|parts| - 1];
      TerminatedJoin(init);
      JoinSnoc(init, parts[|parts| - 1], '\n');
      assert init + [parts[|parts| - 1]] == parts;
    }
  }

  lemma {:induction false} JoinSnoc(parts: seq<string>, last: string, sep: char)
    requires parts != []
    ensures Join(parts + [last], sep) == Join(parts, sep) + [sep] + last
  {
    if |parts| > 1 {
      JoinSnoc(parts[1..], last, sep);
      assert (parts + [last])[1..] == parts[1..] + [last];
    }
  }

  /** `convert_clipboard`: the loop appends each decoded line and a newline,
      then the last newline is cut off. */
  method ConvertClipboard(text: string) returns (r: string)
    ensures r == Converted(text)
    ensures !StartsWith(text, Marker) ==> r == text
    ensures StartsWith(text, Marker) && |Split(text, '\n')| < 3 ==> r == ""
  {
    if StartsWith(text, Marker) {
      var out := "";
      var lines := Drop(Split(text, '\n'), 2);
      for i := 0 to |lines|
        invariant out == Terminated(DecodeLines(lines[..i]))
      {
        assert DecodeLines(lines[..i + 1])[..i] == DecodeLines(lines[..i]);
        out := out + DecodeLine(lines[i]) + "\n";
      }
      assert lines[..|lines|] == lines;
      if lines == [] {
        r := "";
      } else {
        TerminatedJoin(DecodeLines(lines));
        r := out[..|out| - 1];
      }
    } else {
      r := text;
    }
  }

  /** With the marker, splitting the result at newlines gives back the decoded
      lines one by one, as long as no decoded line itself holds a newline. */
  lemma ConvertedLines(text: string)
    requires StartsWith(text, Marker)
    requires |Split(text, '\n')| >= 3
    requires forall k :: 2 <= k < |Split(text, '\n')| ==> '\n' !in DecodeLine(Split(text, '\n')[k])
    ensures Split(Converted(text), '\n') == DecodeLines(Split(text, '\n')[2..])
  {
    var lines := Split(text, '\n');
    var d := DecodeLines(lines[2..]);
    assert Drop(lines, 2) == lines[2..];
    assert forall k :: 0 <= k < |d| ==> d[k] == DecodeLine(lines[k + 2]);
    SplitJoin(d, '\n');
  }

  /** Text without `%` is left as it is, and decoding continues after it. */
  lemma {:induction false} UnquoteLiteral(a: string, b: string)
    requires '%' !in a
    ensures Unquote(a + b) == a + Unquote(b)
    decreases |a|
  {
    if a == [] {
      assert a + b == b;
    } else {
      var ab := a + b;
      assert ab[0] == a[0] && ab[1..] == a[1..] + b;
      assert !EscapeAt(ab);
      calc {
        Unquote(ab);
        [a[0]] + Unquote(a[1..] + b);
        { UnquoteLiteral(a[1..], b); }
        [a[0]] + (a[1..] + Unquote(b));
        { assert [a[0]] + a[1..] == a; }
        a + Unquote(b);
      }
    }
  }

  lemma UnquoteSpace(b: string)
    ensures Unquote("%20" + b) == " " + Unquote(b)
  {
    assert EscapeAt("%20" + b);
    assert ("%20" + b)[3..] == b;
  }

  lemma DecodeScheme(x: string)
    ensures DecodeLine("file://" + x) == Unquote(x)
  {
    assert ("file://" + x)[7..] == x;
  }

  /** Literal text, an escaped space, then the rest of the line. */
  lemma UnquoteWordSpace(a: string, b: string)
    requires '%' !in a
    ensures Unquote(a + ("%20" + b)) == a + (" " + Unquote(b))
  {
    UnquoteLiteral(a, "%20" + b);
    UnquoteSpace(b);
  }

  /** Four pieces without `%`, separated by escaped spaces, decode to the
      same pieces separated by spaces. */
  lemma DecodeSpaced(p: string, q: string, d: string, t: string)
    requires '%' !in p && '%' !in q && '%' !in d && '%' !in t
    ensures Unquote(p + ("%20" + (q + ("%20" + (d + ("%20" + t))))))
         == p + (" " + (q + (" " + (d + (" " + t)))))
  {
    UnquoteWordSpace(d, t);
    UnquoteLiteral(t, "");
    assert t + "" == t;
    UnquoteWordSpace(q, d + ("%20" + t));
    UnquoteWordSpace(p, q + ("%20" + (d + ("%20" + t))));
  }

  /** "file:///home/root/Screenshot%20on%20<d>%20<t>.png" decodes to
      "/home/root/Screenshot on <d> <t>.png" when <d> and <t> hold no '%'. */
  lemma DecodeScreenshot(d: string, t: string)
    requires '%' !in d && '%' !in t
    ensures Unquote("/home/root/Screenshot" + ("%20" + ("on" + ("%20" + (d + ("%20" + (t + ".png")))))))
         == "/home/root/Screenshot" + (" " + ("on" + (" " + (d + (" " + (t + ".png"))))))
  {
    assert '%' !in t + ".png";
    DecodeSpaced("/home/root/Screenshot", "on", d, t + ".png");
  }

  /** The file entry Nautilus puts on the clipboard for a screenshot taken
      on day `d` at time `t`, and the path it stands for. */
  function ScreenshotEntry(d: string, t: string): string {
    "file://" + ("/home/root/Screenshot" + ("%20" + ("on" + ("%20" + (d + ("%20" + (t + ".png")))))))
  }

  function ScreenshotPath(d: string, t: string): string {
    "/home/root/Screenshot" + (" " + ("on" + (" " + (d + (" " + (t + ".png"))))))
  }

  lemma ScreenshotDecodes(d: string, t: string)
    requires '%' !in d && '%' !in t && '\n' !in d && '\n' !in t
    ensures DecodeLine(ScreenshotEntry(d, t)) == ScreenshotPath(d, t)
    ensures '\n' !in ScreenshotEntry(d, t)
  {
    assert '\n' !in "file://" + "/home/root/Screenshot" + "%20" + "on" + "%20" + "%20" + ".png";
    DecodeScheme("/home/root/Screenshot" + ("%20" + ("on" + ("%20" + (d + ("%20" + (t + ".png")))))));
    DecodeScreenshot(d, t);
  }

  /** With the marker, a header line and two entry lines, the result is the
      two decoded entries on two lines. */
  lemma TwoEntries(h: string, l1: string, l2: string)
    requires '\n' !in h && '\n' !in l1 && '\n' !in l2
    ensures Converted(Marker + "\n" + h + "\n" + l1 + "\n" + l2) == DecodeLine(l1) + "\n" + DecodeLine(l2)
  {
    var text := Marker + "\n" + h + "\n" + l1 + "\n" + l2;
    var parts := [Marker, h, l1, l2];
    assert text == Join(parts, '\n') by {
      assert parts[1..] == [h, l1, l2] && parts[1..][1..] == [l1, l2] && [l1, l2][1..] == [l2];
      assert Join([l1, l2], '\n') == l1 + "\n" + l2;
      assert Join([h, l1, l2], '\n') == h + "\n" + (l1 + "\n" + l2);
    }
    assert '\n' !in Marker;
    SplitJoin(parts, '\n');
    assert Drop(parts, 2) == [l1, l2];
    assert StartsWith(text, Marker);
    assert DecodeLines([l1, l2]) == [DecodeLine(l1), DecodeLine(l2)];
    assert Join([DecodeLine(l1), DecodeLine(l2)], '\n') == DecodeLine(l1) + "\n" + DecodeLine(l2) by {
      assert [DecodeLine(l1), DecodeLine(l2)][1..] == [DecodeLine(l2)];
    }
  }

  /** The shape of the doctest: the marker line, the `copy` line and two file
      entries decode to the two paths on two lines. */
  lemma TwoScreenshots(d1: string, t1: string, d2: string, t2: string)
    requires '%' !in d1 && '%' !in t1 && '%' !in d2 && '%' !in t2
    requires '\n' !in d1 && '\n' !in t1 && '\n' !in d2 && '\n' !in t2
    ensures Converted(Marker + "\n" + "copy" + "\n" + ScreenshotEntry(d1, t1) + "\n" + ScreenshotEntry(d2, t2))
         == ScreenshotPath(d1, t1) + "\n" + ScreenshotPath(d2, t2)
  {
    ScreenshotDecodes(d1, t1);
    ScreenshotDecodes(d2, t2);
    TwoEntries("copy", ScreenshotEntry(d1, t1), ScreenshotEntry(d2, t2));
  }

  /** The doctest: two Nautilus file entries decode to two paths,
      `/home/root/Screenshot on 2020-11-22 13-22-51.png` and
      `/home/root/Screenshot on 2020-11-20 20-07-20.png`. */
  lemma Example()
    ensures Converted(Marker + "\n" + "copy" + "\n"
                      + ScreenshotEntry("2020-11-22", "13-22-51") + "\n"
                      + ScreenshotEntry("2020-11-20", "20-07-20"))
         == ScreenshotPath("2020-11-22", "13-22-51") + "\n" + ScreenshotPath("2020-11-20", "20-07-20")
  {
    TwoScreenshots("2020-11-22", "13-22-51", "2020-11-20", "20-07-20");
  }
}
