/**
 * `fuzzyfinder` (src/functions.py): filter a collection of strings down to the
 * ones that contain the query as a case-insensitive subsequence, and rank them
 * by the shortest such match, then by where it starts, then alphabetically.
 *
 * `fuzzyfinder` builds the regular expression `(?=(q0.*?q1.*?...))` with
 * IGNORECASE and takes, over all positions where it matches, the match whose
 * group is shortest (the first one on a tie). Here a match anchored at a
 * start position is computed by `MatchAt`, which places every next query
 * character at its earliest occurrence; since `.` does not match a newline,
 * a gap between two matched characters never holds one.
 */
module Fuzzy {
  import opened Strings

  /** Case-insensitive character equality (ASCII case mapping). */
  predicate EqI(a: char, b: char) {
    Lower(a) == Lower(b)
  }

  lemma EqINewline(a: char, b: char)
    requires EqI(a, b) && a == '\n'
    ensures b == '\n'
  {
  }

  // ------------------------------------------------------------------
  // Placements: the reference notion of "the query occurs here"

  /** `pos` places the characters of `q`, in order, at increasing positions of
      `s`, the first one at `i` or later, with no newline skipped over between
      `i` and the first position or between two consecutive positions. */
  ghost predicate PlacedFrom(s: string, q: string, i: nat, pos: seq<nat>)
    decreases |q|
  {
    && |pos| == |q|
    && (q != [] ==>
          && i <= pos[0] < |s|
          && EqI(s[pos[0]], q[0])
          && '\n' !in s[i..pos[0]]
          && PlacedFrom(s, q[1..], pos[0] + 1, pos[1..]))
  }

  /** One past the last placed position (or `i` when nothing is placed). */
  function EndOf(pos: seq<nat>, i: nat): nat {
    if pos == [] then i else pos[|pos| - 1] + 1
  }

  /** A placement that starts exactly at `p`: one group of the lookahead
      regular expression matching at position `p`. */
  ghost predicate Anchored(s: string, q: string, p: nat, pos: seq<nat>) {
    PlacedFrom(s, q, p, pos) && (q != [] ==> pos[0] == p)
  }

  // ------------------------------------------------------------------
  // The lazy regex: earliest placement

  /** The end (exclusive) of the placement of `q` that, from `i` on, puts each
      character at its earliest possible position; `None` when a newline or the
      end of `s` comes first. */
  function PlaceFrom(s: string, q: string, i: nat): (r: Option<nat>)
    requires i <= |s|
    ensures r.Some? ==> i + |q| <= r.value <= |s|
    decreases |s| - i
  {
    if q == [] then Some(i)
    else if i == |s| then None
    else if EqI(s[i], q[0]) then PlaceFrom(s, q[1..], i + 1)
    else if s[i] == '\n' then None
    else PlaceFrom(s, q, i + 1)
  }

  /** The end of the match of the lookahead group at start `p`, if any. */
  function MatchAt(s: string, q: string, p: nat): (r: Option<nat>)
    requires p <= |s|
    ensures r.Some? ==> p + |q| <= r.value <= |s|
  {
    if q == [] then Some(p)
    else if p == |s| || !EqI(s[p], q[0]) then None
    else PlaceFrom(s, q[1..], p + 1)
  }

  lemma PlacedFromWiden(s: string, q: string, i: nat, j: nat, pos: seq<nat>)
    requires i <= j <= |s| && '\n' !in s[i..j]
    requires PlacedFrom(s, q, j, pos)
    ensures PlacedFrom(s, q, i, pos)
  {
    if q != [] {
      assert s[i..pos[0]] == s[i..j] + s[j..pos[0]];
    }
  }

  /** The earliest placement is a placement. */
  lemma {:induction false} PlaceFromSound(s: string, q: string, i: nat) returns (pos: seq<nat>)
    requires i <= |s| && PlaceFrom(s, q, i).Some?
    ensures PlacedFrom(s, q, i, pos) && EndOf(pos, i) == PlaceFrom(s, q, i).value
    decreases |s| - i
  {
    if q == [] {
      pos := [];
    } else if EqI(s[i], q[0]) {
      var rest := PlaceFromSound(s, q[1..], i + 1);
      pos := [i] + rest;
      assert pos[1..] == rest;
    } else {
      pos := PlaceFromSound(s, q, i + 1);
      assert s[i..pos[0]] == [s[i]] + s[i + 1..pos[0]];
    }
  }

  /** The earliest placement exists whenever any placement does, and it ends
      no later than any of them. */
  lemma {:induction false} PlaceFromComplete(s: string, q: string, i: nat, pos: seq<nat>)
    requires i <= |s| && PlacedFrom(s, q, i, pos)
    ensures PlaceFrom(s, q, i).Some? && PlaceFrom(s, q, i).value <= EndOf(pos, i)
    decreases |s| - i
  {
    if q != [] {
      if EqI(s[i], q[0]) {
        var j := pos[0] + 1;
        if pos[0] > i {
          assert s[i] in s[i..pos[0]];
          assert s[pos[0]] != '\n' by {
            if s[pos[0]] == '\n' {
              EqINewline(s[pos[0]], q[0]);
              EqINewline(q[0], s[i]);
            }
          }
          assert s[i + 1..j] == s[i + 1..pos[0]] + [s[pos[0]]];
        }
        PlacedFromWiden(s, q[1..], i + 1, j, pos[1..]);
        PlaceFromComplete(s, q[1..], i + 1, pos[1..]);
      } else {
        assert pos[0] > i;
        assert s[i] in s[i..pos[0]];
        assert s[i + 1..pos[0]] == s[i..pos[0]][1..];
        PlaceFromComplete(s, q, i + 1, pos);
      }
    }
  }

  /** `MatchAt` finds a match at `p` exactly when an anchored placement at `p`
      exists, and its end is the smallest such end: for a fixed start the
      lazy pattern yields the shortest group. */
  lemma MatchAtSpec(s: string, q: string, p: nat)
    requires p <= |s|
    ensures MatchAt(s, q, p).Some? <==> exists pos :: Anchored(s, q, p, pos)
    ensures forall pos :: Anchored(s, q, p, pos) ==> MatchAt(s, q, p).value <= EndOf(pos, p)
    ensures MatchAt(s, q, p).Some? ==>
              exists pos :: Anchored(s, q, p, pos) && EndOf(pos, p) == MatchAt(s, q, p).value
  {
    if q == [] {
      assert Anchored(s, q, p, []);
    } else {
      if MatchAt(s, q, p).Some? {
        var rest := PlaceFromSound(s, q[1..], p + 1);
        var pos := [p] + rest;
        assert pos[1..] == rest;
        assert Anchored(s, q, p, pos);
      }
      forall pos | Anchored(s, q, p, pos)
        ensures MatchAt(s, q, p).Some? && MatchAt(s, q, p).value <= EndOf(pos, p)
      {
        PlaceFromComplete(s, q[1..], p + 1, pos[1..]);
      }
    }
  }

  // ------------------------------------------------------------------
  // The best match of a candidate

  /** The recorded rank of a candidate: span and start of its best match. */
  datatype Match = Match(span: nat, start: nat)

  /** The best match among the starts `p..|s|`: the shortest span, and the
      earliest start among those of that span (`min` keeps the first). */
  function BestFrom(s: string, q: string, p: nat): (r: Option<Match>)
    requires p <= |s|
    ensures r.None? <==> forall k :: p <= k <= |s| ==> MatchAt(s, q, k).None?
    ensures r.Some? ==>
              && p <= r.value.start <= |s|
              && MatchAt(s, q, r.value.start) == Some(r.value.start + r.value.span)
    decreases |s| - p
  {
    var rest := if p < |s| then BestFrom(s, q, p + 1) else None;
    match MatchAt(s, q, p)
    case None => rest
    case Some(e) =>
      if rest.Some? && rest.value.span < e - p then rest else Some(Match(e - p, p))
  }

  /** The recorded match is no longer than the match at any start from `p`
      on, and strictly shorter than the match at any earlier start. */
  lemma BestFromMinimal(s: string, q: string, p: nat)
    requires p <= |s| && BestFrom(s, q, p).Some?
    ensures var m := BestFrom(s, q, p).value;
      && (forall k :: p <= k <= |s| && MatchAt(s, q, k).Some? ==> m.span <= MatchAt(s, q, k).value - k)
      && (forall k :: p <= k < m.start && MatchAt(s, q, k).Some? ==> m.span < MatchAt(s, q, k).value - k)
  {
    BestFromShortest(s, q, p);
    BestFromFirst(s, q, p);
  }

  lemma {:induction false} BestFromShortest(s: string, q: string, p: nat)
    requires p <= |s| && BestFrom(s, q, p).Some?
    ensures forall k :: p <= k <= |s| && MatchAt(s, q, k).Some? ==>
              BestFrom(s, q, p).value.span <= MatchAt(s, q, k).value - k
    decreases |s| - p
  {
    var m := BestFrom(s, q, p).value;
    forall k | p <= k <= |s| && MatchAt(s, q, k).Some?
      ensures m.span <= MatchAt(s, q, k).value - k
    {
      if k > p {
        // a later start matches, so a match is recorded from `p + 1` on
        assert BestFrom(s, q, p + 1).Some?;
        BestFromShortest(s, q, p + 1);
      }
    }
  }

  lemma {:induction false} BestFromFirst(s: string, q: string, p: nat)
    requires p <= |s| && BestFrom(s, q, p).Some?
    ensures forall k :: p <= k < BestFrom(s, q, p).value.start && MatchAt(s, q, k).Some? ==>
              BestFrom(s, q, p).value.span < MatchAt(s, q, k).value - k
    decreases |s| - p
  {
    var m := BestFrom(s, q, p).value;
    forall k | p <= k < m.start && MatchAt(s, q, k).Some?
      ensures m.span < MatchAt(s, q, k).value - k
    {
      // the match at `p` lost to the one recorded from `p + 1` on
      assert BestFrom(s, q, p + 1) == Some(m);
      if k > p {
        BestFromFirst(s, q, p + 1);
      }
    }
  }

  /** The rank of `s` against query `q`, or `None` when `s` does not match. */
  function Best(s: string, q: string): (r: Option<Match>)
    ensures r.Some? ==> |q| <= r.value.span <= |s| && r.value.start + r.value.span <= |s|
  {
    BestFrom(s, q, 0)
  }

  /** A candidate qualifies exactly when the query can be placed in it. */
  predicate Qualifies(q: string, s: string) {
    Best(s, q).Some?
  }

  /** The recorded rank is realised by an anchored placement, is no longer
      than any match at any start, and every earlier start matches only with
      a strictly longer span. */
  lemma {:induction false} BestSpec(s: string, q: string)
    ensures Best(s, q).Some? <==> exists p: nat, pos :: p <= |s| && Anchored(s, q, p, pos)
    ensures Best(s, q).Some? ==>
              var m := Best(s, q).value;
              && (exists pos :: Anchored(s, q, m.start, pos) && EndOf(pos, m.start) == m.start + m.span)
              && (forall p: nat, pos :: p <= |s| && Anchored(s, q, p, pos) ==> m.span <= EndOf(pos, p) - p)
              && (forall p: nat, pos :: p < m.start && Anchored(s, q, p, pos) ==> m.span < EndOf(pos, p) - p)
  {
    var b := Best(s, q);
    if b.Some? {
      BestFromMinimal(s, q, 0);
    }
    forall p: nat, pos | p <= |s| && Anchored(s, q, p, pos)
      ensures b.Some? && b.value.span <= EndOf(pos, p) - p
      ensures p < b.value.start ==> b.value.span < EndOf(pos, p) - p
    {
      MatchAtSpec(s, q, p);
    }
    if b.Some? {
      var m := b.value;
      MatchAtSpec(s, q, m.start);
      var pos :| Anchored(s, q, m.start, pos) && EndOf(pos, m.start) == MatchAt(s, q, m.start).value;
      assert Anchored(s, q, m.start, pos);
    }
  }

  // ------------------------------------------------------------------
  // Reference: case-insensitive subsequence

  /** `q` occurs in `s` as a case-insensitive, not necessarily contiguous,
      subsequence (any choice of positions). */
  ghost predicate Subsequence(q: string, s: string)
    decreases |s|
  {
    q == [] || (s != [] && ((EqI(s[0], q[0]) && Subsequence(q[1..], s[1..])) || Subsequence(q, s[1..])))
  }

  lemma {:induction false} SubsequenceShift(s: string, q: string, i: nat, pos: seq<nat>)
    requires i <= |s| && '\n' !in s
    ensures PlacedFrom(s, q, i, pos) ==> Subsequence(q, s[i..])
    ensures Subsequence(q, s[i..]) ==> PlaceFrom(s, q, i).Some?
    decreases |s| - i, |q|
  {
    if q != [] && i < |s| {
      assert s[i..][1..] == s[i + 1..];
      if PlacedFrom(s, q, i, pos) {
        if pos[0] == i {
          SubsequenceShift(s, q[1..], i + 1, pos[1..]);
        } else {
          assert '\n' !in s[i + 1..pos[0]] by { assert s[i + 1..pos[0]] == s[i..pos[0]][1..]; }
          SubsequenceShift(s, q, i + 1, pos);
        }
      }
      if Subsequence(q, s[i..]) {
        if EqI(s[i], q[0]) {
          if Subsequence(q[1..], s[i + 1..]) {
            SubsequenceShift(s, q[1..], i + 1, []);
          } else {
            SubsequenceShift(s, q, i + 1, []);
            var later := PlaceFromSound(s, q, i + 1);
            PlacedFromWiden(s, q, i, i + 1, later);
            PlaceFromComplete(s, q, i, later);
          }
        } else {
          SubsequenceShift(s, q, i + 1, []);
        }
      }
    }
  }

  /** For a string without newlines, a candidate qualifies exactly when the
      query is a case-insensitive subsequence of it. */
  lemma QualifiesIsSubsequence(q: string, s: string)
    requires '\n' !in s
    ensures Qualifies(q, s) <==> Subsequence(q, s)
  {
    BestSpec(s, q);
    assert s[0..] == s;
    if Qualifies(q, s) {
      var p: nat, pos :| p <= |s| && Anchored(s, q, p, pos);
      assert '\n' !in s[0..p];
      PlacedFromWiden(s, q, 0, p, pos);
      SubsequenceShift(s, q, 0, pos);
    }
    if Subsequence(q, s) {
      SubsequenceShift(s, q, 0, []);
      var pos := PlaceFromSound(s, q, 0);
      if q != [] {
        var p := pos[0];
        assert Anchored(s, q, p, pos) by {
          assert s[p..p] == [];
        }
      } else {
        assert Anchored(s, q, 0, []);
      }
    }
  }

  // ------------------------------------------------------------------
  // Ranking and sorting

  /** The tuple `fuzzyfinder` appends for a qualifying candidate; with the
      identity accessor the string and the item are the same value. */
  datatype Suggestion = Suggestion(span: nat, start: nat, text: string)

  /** Python's tuple order on suggestions: `(span, start, text)` when
      `full`, only `(span, start)` when the alphabetical tie-breaker is off. */
  predicate RankLe(a: Suggestion, b: Suggestion, full: bool) {
    || a.span < b.span
    || (a.span == b.span && a.start < b.start)
    || (a.span == b.span && a.start == b.start && (!full || StrLe(a.text, b.text)))
  }

  lemma RankLeTotal(a: Suggestion, b: Suggestion, full: bool)
    ensures RankLe(a, b, full) || RankLe(b, a, full)
  {
    StrLeTotal(a.text, b.text);
  }

  lemma RankLeTransitive(a: Suggestion, b: Suggestion, c: Suggestion, full: bool)
    requires RankLe(a, b, full) && RankLe(b, c, full)
    ensures RankLe(a, c, full)
  {
    if full && a.span == b.span == c.span && a.start == b.start == c.start {
      StrLeTransitive(a.text, b.text, c.text);
    }
  }

  predicate SortedBy(xs: seq<Suggestion>, full: bool) {
    forall i, j :: 0 <= i < j < |xs| ==> RankLe(xs[i], xs[j], full)
  }

  /** Insert `x` before the first element it does not rank after. */
  function Insert(x: Suggestion, xs: seq<Suggestion>, full: bool): (r: seq<Suggestion>)
    ensures multiset(r) == multiset(xs) + multiset{x}
  {
    if xs == [] then [x]
    else if RankLe(x, xs[0], full) then [x] + xs
    else
      assert xs == [xs[0]] + xs[1..];
      [xs[0]] + Insert(x, xs[1..], full)
  }

  lemma {:induction false} InsertSorted(x: Suggestion, xs: seq<Suggestion>, full: bool)
    requires SortedBy(xs, full)
    ensures SortedBy(Insert(x, xs, full), full)
  {
    if xs == [] {
    } else if RankLe(x, xs[0], full) {
      forall j | 0 <= j < |xs| ensures RankLe(x, xs[j], full) {
        if j > 0 {
          RankLeTransitive(x, xs[0], xs[j], full);
        }
      }
      SortedCons(x, xs, full);
    } else {
      var rest := xs[1..];
      InsertSorted(x, rest, full);
      RankLeTotal(x, xs[0], full);
      assert forall j :: 0 <= j < |rest| ==> RankLe(xs[0], rest[j], full) by {
        assert forall j :: 0 <= j < |rest| ==> rest[j] == xs[j + 1];
      }
      InsertLowerBound(xs[0], x, rest, full);
      SortedCons(xs[0], Insert(x, rest, full), full);
    }
  }

  /** An element ranked no later than `x` and every element of `xs` is ranked
      no later than any element of `Insert(x, xs)`. */
  lemma {:induction false} InsertLowerBound(b: Suggestion, x: Suggestion, xs: seq<Suggestion>, full: bool)
    requires RankLe(b, x, full) && forall j :: 0 <= j < |xs| ==> RankLe(b, xs[j], full)
    ensures forall j :: 0 <= j < |Insert(x, xs, full)| ==> RankLe(b, Insert(x, xs, full)[j], full)
  {
    if xs != [] && !RankLe(x, xs[0], full) {
      var rest := xs[1..];
      assert forall j :: 0 <= j < |rest| ==> rest[j] == xs[j + 1];
      InsertLowerBound(b, x, rest, full);
      var r := Insert(x, xs, full);
      assert forall j :: 0 < j < |r| ==> r[j] == Insert(x, rest, full)[j - 1];
    }
  }

  /** A sorted list stays sorted when an element ranked no later than all of
      it is put in front. */
  lemma SortedCons(b: Suggestion, xs: seq<Suggestion>, full: bool)
    requires SortedBy(xs, full) && forall j :: 0 <= j < |xs| ==> RankLe(b, xs[j], full)
    ensures SortedBy([b] + xs, full)
  {
    var r := [b] + xs;
    forall i, j | 0 <= i < j < |r| ensures RankLe(r[i], r[j], full) {
      assert r[j] == xs[j - 1];
      if i > 0 {
        assert r[i] == xs[i - 1];
      }
    }
  }

  /** Python's `sorted`: an insertion sort, stable on ties. */
  function Sort(xs: seq<Suggestion>, full: bool): (r: seq<Suggestion>)
    ensures SortedBy(r, full)
    ensures multiset(r) == multiset(xs)
  {
    if xs == [] then []
    else
      assert xs == [xs[0]] + xs[1..];
      var rest := Sort(xs[1..], full);
      InsertSorted(xs[0], rest, full);
      Insert(xs[0], rest, full)
  }

  /** The tuples the loop over the collection appends, in collection order. */
  function Suggestions(q: string, collection: seq<string>): (r: seq<Suggestion>)
  {
    if collection == [] then []
    else
      var s := collection[|collection| - 1];
      var prefix := Suggestions(q, collection[..|collection| - 1]);
      match Best(s, q)
      case None => prefix
      case Some(m) => prefix + [Suggestion(m.span, m.start, s)]
  }

  /** The rank tuple of a candidate (meaningful only for qualifying ones). */
  function RankOf(q: string, s: string): Suggestion {
    match Best(s, q)
    case Some(m) => Suggestion(m.span, m.start, s)
    case None => Suggestion(0, 0, s)
  }

  /** The candidates that qualify, in collection order. */
  function Qualifying(q: string, collection: seq<string>): (r: seq<string>)
  {
    if collection == [] then []
    else
      var s := collection[|collection| - 1];
      Qualifying(q, collection[..|collection| - 1]) + if Qualifies(q, s) then [s] else []
  }

  function Texts(xs: seq<Suggestion>): (r: seq<string>)
    ensures |r| == |xs| && forall i :: 0 <= i < |xs| ==> r[i] == xs[i].text
  {
    seq(|xs|, i requires 0 <= i < |xs| => xs[i].text)
  }

  /** `fuzzyfinder(q, collection, sort_results=full)` as a value. */
  function FuzzyFind(q: string, collection: seq<string>, full: bool): seq<string> {
    Texts(Sort(Suggestions(q, collection), full))
  }

  lemma {:induction false} SuggestionsAreRanks(q: string, collection: seq<string>)
    ensures Texts(Suggestions(q, collection)) == Qualifying(q, collection)
    ensures forall x :: x in Suggestions(q, collection) ==> x == RankOf(q, x.text) && Qualifies(q, x.text)
  {
    if collection != [] {
      SuggestionsAreRanks(q, collection[..|collection| - 1]);
    }
  }

  lemma TextsAppend(a: seq<Suggestion>, b: seq<Suggestion>)
    ensures Texts(a + b) == Texts(a) + Texts(b)
  {
    assert forall i :: 0 <= i < |a + b| ==> Texts(a + b)[i] == (Texts(a) + Texts(b))[i];
  }

  lemma {:induction false} InsertTexts(x: Suggestion, xs: seq<Suggestion>, full: bool)
    ensures multiset(Texts(Insert(x, xs, full))) == multiset(Texts(xs)) + multiset{x.text}
  {
    if xs == [] {
      assert Texts([x]) == [x.text];
    } else if RankLe(x, xs[0], full) {
      TextsAppend([x], xs);
      assert Texts([x]) == [x.text];
    } else {
      InsertTexts(x, xs[1..], full);
      TextsAppend([xs[0]], Insert(x, xs[1..], full));
      TextsAppend([xs[0]], xs[1..]);
      assert xs == [xs[0]] + xs[1..];
      assert Texts([xs[0]]) == [xs[0].text];
    }
  }

  lemma {:induction false} SortTexts(xs: seq<Suggestion>, full: bool)
    ensures multiset(Texts(Sort(xs, full))) == multiset(Texts(xs))
  {
    if xs != [] {
      var rest := Sort(xs[1..], full);
      assert Sort(xs, full) == Insert(xs[0], rest, full);
      InsertTexts(xs[0], rest, full);
      SortTexts(xs[1..], full);
      TextsCons(xs);
    }
  }

  lemma TextsCons(xs: seq<Suggestion>)
    requires xs != []
    ensures multiset(Texts(xs)) == multiset(Texts(xs[1..])) + multiset{xs[0].text}
  {
    TextsAppend([xs[0]], xs[1..]);
    assert [xs[0]] + xs[1..] == xs;
    assert Texts([xs[0]]) == [xs[0].text];
  }

  /** The result holds exactly the qualifying candidates, each as often as it
      occurs in the collection; the others are dropped, not placed last. */
  lemma FuzzyFindMembers(q: string, collection: seq<string>, full: bool)
    ensures multiset(FuzzyFind(q, collection, full)) == multiset(Qualifying(q, collection))
    ensures forall s :: s in FuzzyFind(q, collection, full) <==> s in collection && Qualifies(q, s)
  {
    var sug := Suggestions(q, collection);
    SuggestionsAreRanks(q, collection);
    SortTexts(sug, full);
    QualifyingMembers(q, collection);
    forall s ensures s in FuzzyFind(q, collection, full) <==> s in Qualifying(q, collection) {
      assert s in FuzzyFind(q, collection, full) <==> s in multiset(FuzzyFind(q, collection, full));
      assert s in Qualifying(q, collection) <==> s in multiset(Qualifying(q, collection));
    }
  }

  lemma {:induction false} QualifyingMembers(q: string, collection: seq<string>)
    ensures forall s :: s in Qualifying(q, collection) <==> s in collection && Qualifies(q, s)
  {
    if collection != [] {
      var init := collection[..|collection| - 1];
      QualifyingMembers(q, init);
      assert collection == init + [collection[|collection| - 1]];
    }
  }

  /** The result is ordered by span, then start, then (when `full`) text. */
  lemma FuzzyFindSorted(q: string, collection: seq<string>, full: bool)
    ensures var r := FuzzyFind(q, collection, full);
      forall i, j :: 0 <= i < j < |r| ==> RankLe(RankOf(q, r[i]), RankOf(q, r[j]), full)
  {
    var sug := Suggestions(q, collection);
    var sorted := Sort(sug, full);
    SuggestionsAreRanks(q, collection);
    forall k | 0 <= k < |sorted| ensures sorted[k] == RankOf(q, sorted[k].text) {
      assert sorted[k] in multiset(sug);
    }
  }

  /** An empty query ranks every candidate with span 0 at start 0, so the
      result is the whole collection in alphabetical order. */
  lemma EmptyQuery(collection: seq<string>)
    ensures multiset(FuzzyFind("", collection, true)) == multiset(collection)
    ensures var r := FuzzyFind("", collection, true);
      forall i, j :: 0 <= i < j < |r| ==> StrLe(r[i], r[j])
  {
    EmptyQueryQualifies(collection);
    FuzzyFindMembers("", collection, true);
    FuzzyFindSorted("", collection, true);
    var r := FuzzyFind("", collection, true);
    forall i, j | 0 <= i < j < |r| ensures StrLe(r[i], r[j]) {
      RankOfEmpty(r[i]);
      RankOfEmpty(r[j]);
    }
  }

  /** Against the empty query every candidate ranks as span 0 at start 0. */
  lemma RankOfEmpty(s: string)
    ensures RankOf("", s) == Suggestion(0, 0, s)
  {
    assert MatchAt(s, "", 0) == Some(0);
    BestFromMinimal(s, "", 0);
  }

  lemma {:induction false} EmptyQueryQualifies(collection: seq<string>)
    ensures Qualifying("", collection) == collection
  {
    if collection != [] {
      var s := collection[|collection| - 1];
      EmptyQueryQualifies(collection[..|collection| - 1]);
      assert MatchAt(s, "", 0).Some?;
    }
  }

  // ------------------------------------------------------------------
  // The loop of `fuzzyfinder`

  /** `fuzzyfinder`: one pass over the collection appending a rank tuple for
      every qualifying candidate, then a sort of the tuples. */
  method FuzzyFinder(query: string, collection: seq<string>, sortResults: bool) returns (result: seq<string>)
    ensures result == FuzzyFind(query, collection, sortResults)
    ensures multiset(result) == multiset(Qualifying(query, collection))
    ensures forall s :: s in result <==> s in collection && Qualifies(query, s)
    ensures forall i, j :: 0 <= i < j < |result| ==>
              RankLe(RankOf(query, result[i]), RankOf(query, result[j]), sortResults)
  {
    var suggestions: seq<Suggestion> := [];
    for i := 0 to |collection|
      invariant suggestions == Suggestions(query, collection[..i])
    {
      var item := collection[i];
      assert collection[..i + 1][..i] == collection[..i];
      var r := Best(item, query);
      if r.Some? {
        suggestions := suggestions + [Suggestion(r.value.span, r.value.start, item)];
      }
    }
    assert collection[..|collection|] == collection;
    result := Texts(Sort(suggestions, sortResults));
    FuzzyFindMembers(query, collection, sortResults);
    FuzzyFindSorted(query, collection, sortResults);
  }

  lemma NoMatch(s: string, q: string)
    requires q != [] && forall i :: 0 <= i < |s| ==> !EqI(s[i], q[0])
    ensures Best(s, q) == None
  {
    forall k | 0 <= k <= |s| ensures MatchAt(s, q, k).None? {
    }
  }

  /** "hallo" and "false" both match "al" with span 2 at start 1. */
  lemma ExampleRanks()
    ensures Best("hallo", "al") == Some(Match(2, 1))
    ensures Best("false", "al") == Some(Match(2, 1))
  {
    assert MatchAt("hallo", "al", 5) == None;
    assert MatchAt("hallo", "al", 4) == None;
    assert MatchAt("hallo", "al", 3) == None;
    assert MatchAt("hallo", "al", 2) == None;
    assert MatchAt("hallo", "al", 1) == Some(3);
    assert MatchAt("hallo", "al", 0) == None;
    assert BestFrom("hallo", "al", 2) == None;
    assert BestFrom("hallo", "al", 1) == Some(Match(2, 1));
    assert MatchAt("false", "al", 5) == None;
    assert MatchAt("false", "al", 4) == None;
    assert MatchAt("false", "al", 3) == None;
    assert MatchAt("false", "al", 2) == None;
    assert MatchAt("false", "al", 1) == Some(3);
    assert MatchAt("false", "al", 0) == None;
    assert BestFrom("false", "al", 2) == None;
    assert BestFrom("false", "al", 1) == Some(Match(2, 1));
  }

  lemma ExampleSuggestions()
    ensures Suggestions("al", ["hi", "hu", "hallo", "false"])
         == [Suggestion(2, 1, "hallo"), Suggestion(2, 1, "false")]
  {
    var c := ["hi", "hu", "hallo", "false"];
    NoMatch("hi", "al");
    NoMatch("hu", "al");
    ExampleRanks();
    assert c[..3][..2] == ["hi", "hu"] && c[..3] == ["hi", "hu", "hallo"];
    assert c[..2][..1] == ["hi"];
    assert Suggestions("al", ["hi"]) == [];
    assert Suggestions("al", ["hi", "hu"]) == [];
    assert Suggestions("al", c[..3]) == [Suggestion(2, 1, "hallo")];
  }

  /** The doctest: `fuzzyfinder("al", ["hi", "hu", "hallo", "false"])` is
      `['false', 'hallo']`. */
  lemma Example()
    ensures FuzzyFind("al", ["hi", "hu", "hallo", "false"], true) == ["false", "hallo"]
  {
    var a, b := Suggestion(2, 1, "hallo"), Suggestion(2, 1, "false");
    ExampleSuggestions();
    assert !StrLe("hallo", "false") by {
      assert "hallo"[0] > "false"[0];
    }
    SortSwap(a, b, true);
    assert Texts([b, a]) == ["false", "hallo"];
  }

  /** Two suggestions out of order are swapped. */
  lemma SortSwap(a: Suggestion, b: Suggestion, full: bool)
    requires !RankLe(a, b, full)
    ensures Sort([a, b], full) == [b, a]
  {
    assert Sort([b], full) == [b] by {
      assert [b][1..] == [];
    }
    assert Insert(a, [b], full) == [b, a];
    assert [a, b][1..] == [b];
  }
}
