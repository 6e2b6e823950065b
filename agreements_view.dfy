/** The agreements-and-documents view: locating a clause's text in its document's source text
    (exactly, then with white space collapsed, then ignoring ASCII case), cutting the text into
    plain and highlighted segments, filtering the document list, and the list updates after a
    clause is edited or deleted. */
module AgreementsView {
  import opened Wrappers
  import Text
  import Sorting
  import JsAgreements

  // ---------------------------------------------------------------------------------------
  // White-space normalisation

  /** `s.replace(/\s+/g, ' ')`: every maximal run of white space becomes one space. */
  function Collapse(s: string): (r: string)
    ensures r == [] <==> s == []
    ensures r != [] ==> (r[|r| - 1] == ' ' <==> Text.IsJsSpace(s[|s| - 1]))
    decreases |s|
  {
    if s == [] then []
    else
      var p := Collapse(s[..|s| - 1]);
      var c := s[|s| - 1];
      if !Text.IsJsSpace(c) then p + [c]
      else if |s| > 1 && Text.IsJsSpace(s[|s| - 2]) then p
      else p + " "
  }

  /** `normalizeWhitespace`: collapse the runs, then trim. */
  function NormalizeWhitespace(s: string): string {
    Text.TrimJs(Collapse(s))
  }

  /** A leading space dropped, as the loop below never starts its output with one. */
  function DropLeadingSpace(t: string): string {
    if t != [] && t[0] == ' ' then t[1..] else t
  }

  /** The normalised source text and, for each of its characters, the position in the source
      it was taken from (`normalizedSource` and `positionMap`). */
  datatype Normalized = Normalized(text: string, positions: seq<nat>)

  /** What the scanning loop of `findTextWithNormalizedMatch` has built after reading `s`:
      a white-space character adds one space only when the previous character was not
      white space and something has been written already; any other character is copied
      together with its position. */
  function NormalizeSource(s: string): (r: Normalized)
    ensures |r.text| == |r.positions|
    decreases |s|
  {
    if s == [] then Normalized([], [])
    else
      var prev := NormalizeSource(s[..|s| - 1]);
      var i := |s| - 1;
      var c := s[i];
      if Text.IsJsSpace(c) then
        if !(i > 0 && Text.IsJsSpace(s[i - 1])) && |prev.text| > 0 then
          Normalized(prev.text + " ", prev.positions + [i])
        else prev
      else
        Normalized(prev.text + [c], prev.positions + [i])
  }

  /** `positionMap` increases strictly and points into the source. */
  lemma {:induction false} NormalizePositions(s: string)
    ensures forall k :: 0 <= k < |NormalizeSource(s).positions| ==> NormalizeSource(s).positions[k] < |s|
    ensures forall k, l :: 0 <= k < l < |NormalizeSource(s).positions| ==>
              NormalizeSource(s).positions[k] < NormalizeSource(s).positions[l]
    decreases |s|
  {
    if s != [] {
      NormalizePositions(s[..|s| - 1]);
    }
  }

  /** Each character of `r.text` is the character of `s` at its position, or a space standing
      for a white-space character there. */
  predicate TakenFrom(s: string, r: Normalized)
    requires |r.text| == |r.positions|
  {
    forall k :: 0 <= k < |r.text| ==>
      r.positions[k] < |s| &&
      (if Text.IsJsSpace(s[r.positions[k]]) then r.text[k] == ' ' else r.text[k] == s[r.positions[k]])
  }

  lemma {:induction false} NormalizeChars(s: string)
    ensures TakenFrom(s, NormalizeSource(s))
    decreases |s|
  {
    NormalizePositions(s);
    if s != [] {
      var init := s[..|s| - 1];
      NormalizeChars(init);
      var prev := NormalizeSource(init);
      var r := NormalizeSource(s);
      forall k | 0 <= k < |r.text|
        ensures if Text.IsJsSpace(s[r.positions[k]]) then r.text[k] == ' ' else r.text[k] == s[r.positions[k]]
      {
        if k < |prev.text| {
          assert r.text[k] == prev.text[k] && r.positions[k] == prev.positions[k];
          assert s[prev.positions[k]] == init[prev.positions[k]];
        }
      }
    }
  }

  /** No space at the front and never two spaces in a row. */
  predicate SingleSpaced(t: string) {
    && (t != [] ==> t[0] != ' ')
    && (forall k :: 0 <= k < |t| - 1 ==> !(t[k] == ' ' && t[k + 1] == ' '))
  }

  lemma SingleSpacedAppend(p: string, c: char)
    requires SingleSpaced(p)
    requires c == ' ' ==> p != [] && p[|p| - 1] != ' '
    ensures SingleSpaced(p + [c])
  {
    var t := p + [c];
    forall k | 0 <= k < |t| - 1 ensures !(t[k] == ' ' && t[k + 1] == ' ') {
      if k + 1 < |p| {
        assert t[k] == p[k] && t[k + 1] == p[k + 1];
      } else {
        assert t[k] == p[|p| - 1] && t[k + 1] == c;
      }
    }
  }

  /** The normalised source never starts with a space, never has two spaces in a row, and ends
      with a space exactly when it is non-empty and the source ends with white space. */
  lemma {:induction false} NormalizeSpaces(s: string)
    ensures SingleSpaced(NormalizeSource(s).text)
    ensures var t := NormalizeSource(s).text;
            t != [] ==> (t[|t| - 1] == ' ' <==> Text.IsJsSpace(s[|s| - 1]))
    decreases |s|
  {
    if s != [] {
      var init := s[..|s| - 1];
      NormalizeSpaces(init);
      var i := |s| - 1;
      var c := s[i];
      var t := NormalizeSource(s).text;
      var p := NormalizeSource(init).text;
      if Text.IsJsSpace(c) {
        if !(i > 0 && Text.IsJsSpace(s[i - 1])) && |p| > 0 {
          assert init[|init| - 1] == s[i - 1];
          SingleSpacedAppend(p, ' ');
          assert t == p + [' '];
        } else if p != [] {
          assert t == p;
          assert init[|init| - 1] == s[i - 1];
        }
      } else {
        assert t == p + [c];
        SingleSpacedAppend(p, c);
      }
    }
  }

  /** The loop's output is the regular-expression collapse of the source without its leading
      space: the two formulations of the normalisation agree. */
  lemma {:induction false} NormalizeSourceIsCollapse(s: string)
    ensures NormalizeSource(s).text == DropLeadingSpace(Collapse(s))
    decreases |s|
  {
    if s != [] {
      var init := s[..|s| - 1];
      NormalizeSourceIsCollapse(init);
      var p := Collapse(init);
      var c := s[|s| - 1];
      if !Text.IsJsSpace(c) {
        if p != [] && p[0] == ' ' {
          assert (p + [c])[1..] == p[1..] + [c];
        }
      } else if !(|s| > 1 && Text.IsJsSpace(s[|s| - 2])) {
        if p != [] && p[0] == ' ' {
          assert (p + " ")[1..] == p[1..] + " ";
        }
      }
    }
  }

  /** Trimming does not see the dropped leading space, so the normalised source, trimmed, is
      exactly the normalised form `normalizeWhitespace` gives the source. */
  lemma NormalizeSourceTrimmed(s: string)
    ensures Text.TrimJs(NormalizeSource(s).text) == NormalizeWhitespace(s)
  {
    NormalizeSourceIsCollapse(s);
    var t := Collapse(s);
    if t != [] && t[0] == ' ' {
      assert Text.IsJsSpace(' ');
    }
  }

  // ---------------------------------------------------------------------------------------
  // Locating a clause

  /** What `findTextWithNormalizedMatch` returns: nothing, a range `[start, end)` of the
      source, or, when the normalised search text is empty, an object whose `end` is computed
      from `positionMap[-1]` and is therefore not a number. */
  datatype Match = NotFound | Span(start: nat, end: nat) | Degenerate

  /** A normalised match of `len` characters at `k`, mapped back to source positions. */
  function MapBack(positions: seq<nat>, k: nat, len: nat): Match {
    if len > 0 && k + len <= |positions| then Span(positions[k], positions[k + len - 1] + 1) else Degenerate
  }

  /** The exact match first; then the collapsed search text in the normalised source; then
      the same ignoring case; otherwise nothing. */
  function FindMatch(source: string, search: string): Match {
    match Text.IndexOf(source, search)
    case Some(i) => Span(i, i + |search|)
    case None => FindNormalized(source, search)
  }

  /** The second and third searches, on the normalised texts. */
  function FindNormalized(source: string, search: string): Match {
    var q := NormalizeWhitespace(search);
    var n := NormalizeSource(source);
    match Text.IndexOf(n.text, q)
    case Some(k) => MapBack(n.positions, k, |q|)
    case None =>
      match Text.IndexOf(Text.Lower(n.text), Text.Lower(q))
      case Some(k) => MapBack(n.positions, k, |q|)
      case None => NotFound
  }

  /** `findTextWithNormalizedMatch(sourceText, searchText)`. */
  method FindTextWithNormalizedMatch(sourceText: string, searchText: string) returns (r: Match)
    ensures r == FindMatch(sourceText, searchText)
  {
    var index := Text.IndexOf(sourceText, searchText);
    if index.Some? {
      return Span(index.value, index.value + |searchText|);
    }
    var normalizedSearch := NormalizeWhitespace(searchText);

    var normalizedSource: string := [];
    var positionMap: seq<nat> := [];
    var lastWasSpace := false;
    for i := 0 to |sourceText|
      invariant Normalized(normalizedSource, positionMap) == NormalizeSource(sourceText[..i])
      invariant lastWasSpace == (i > 0 && Text.IsJsSpace(sourceText[i - 1]))
    {
      assert sourceText[..i + 1][..i] == sourceText[..i];
      var ch := sourceText[i];
      if Text.IsJsSpace(ch) {
        if !lastWasSpace && |normalizedSource| > 0 {
          normalizedSource := normalizedSource + " ";
          positionMap := positionMap + [i];
        }
        lastWasSpace := true;
      } else {
        normalizedSource := normalizedSource + [ch];
        positionMap := positionMap + [i];
        lastWasSpace := false;
      }
    }
    assert sourceText[..|sourceText|] == sourceText;

    var normalizedIndex := Text.IndexOf(normalizedSource, normalizedSearch);
    if normalizedIndex.Some? {
      return MapBack(positionMap, normalizedIndex.value, |normalizedSearch|);
    }
    var lowerSearch := Text.Lower(normalizedSearch);
    var lowerNormalizedSource := Text.Lower(normalizedSource);
    var lowerIndex := Text.IndexOf(lowerNormalizedSource, lowerSearch);
    if lowerIndex.Some? {
      return MapBack(positionMap, lowerIndex.value, |lowerSearch|);
    }
    return NotFound;
  }

  /** A text that occurs exactly is found at its first occurrence, with its own length. */
  lemma ExactMatchFirst(source: string, search: string, i: nat)
    requires Text.OccursAt(source, search, i)
    ensures FindMatch(source, search).Span?
    ensures FindMatch(source, search).start <= i
    ensures FindMatch(source, search).end - FindMatch(source, search).start == |search|
    ensures Text.OccursAt(source, search, FindMatch(source, search).start)
  {
  }

  /** The normalised search text neither starts nor ends with a space. */
  lemma NormalizeWhitespaceEnds(s: string)
    ensures var q := NormalizeWhitespace(s);
            q != [] ==> q[0] != ' ' && q[|q| - 1] != ' '
  {
    var t := Text.TrimStart(Collapse(s), Text.IsJsSpace);
    var q := Text.TrimEnd(t, Text.IsJsSpace);
    assert Text.IsJsSpace(' ');
    if q != [] {
      assert q[0] == t[0];
    }
  }

  /** A character of the normalised source other than a space comes from a source character
      that is not white space. */
  lemma TakenNonSpace(s: string, k: nat)
    requires k < |NormalizeSource(s).text| && NormalizeSource(s).text[k] != ' '
    ensures NormalizeSource(s).positions[k] < |s| && !Text.IsJsSpace(s[NormalizeSource(s).positions[k]])
  {
    NormalizeChars(s);
  }

  /** ASCII lowering maps only a space to a space. */
  lemma LowerNotSpace(a: char, b: char)
    requires Text.LowerChar(a) == Text.LowerChar(b) && b != ' '
    ensures a != ' '
  {
  }

  /** A range, if `m` is one, that is non-empty, lies inside `s`, and starts and ends on
      characters that are not white space. */
  predicate TrimmedSpan(s: string, m: Match) {
    m.Span? ==> m.start < m.end <= |s| && !Text.IsJsSpace(s[m.start]) && !Text.IsJsSpace(s[m.end - 1])
  }

  /** A normalised match whose first and last characters are not spaces maps back to a
      non-empty range of the source that starts and ends on characters that are not white
      space. */
  lemma MapBackEnds(s: string, len: nat, k: nat)
    requires 0 < len && k + len <= |NormalizeSource(s).text|
    requires NormalizeSource(s).text[k] != ' ' && NormalizeSource(s).text[k + len - 1] != ' '
    ensures MapBack(NormalizeSource(s).positions, k, len).Span?
    ensures TrimmedSpan(s, MapBack(NormalizeSource(s).positions, k, len))
  {
    NormalizePositions(s);
    var n := NormalizeSource(s);
    if len > 1 {
      assert n.positions[k] < n.positions[k + len - 1];
    }
    TakenNonSpace(s, k);
    TakenNonSpace(s, k + len - 1);
  }

  lemma OccursEnds(t: string, q: string, k: nat)
    requires Text.OccursAt(t, q, k) && q != []
    ensures t[k] == q[0] && t[k + |q| - 1] == q[|q| - 1]
  {
    assert t[k..k + |q|][0] == q[0];
    assert t[k..k + |q|][|q| - 1] == q[|q| - 1];
  }

  /** A found range lies inside the source, and it is empty only for an empty search text. */
  lemma MatchBounds(source: string, search: string)
    ensures FindMatch(source, search).Span? ==>
              FindMatch(source, search).start <= FindMatch(source, search).end <= |source|
    ensures FindMatch(source, search).Span? && FindMatch(source, search).start == FindMatch(source, search).end
            ==> search == ""
  {
    var n := NormalizeSource(source);
    var q := NormalizeWhitespace(search);
    if Text.IndexOf(source, search).None? {
      var k: nat;
      if Text.IndexOf(n.text, q).Some? {
        k := Text.IndexOf(n.text, q).value;
      } else if Text.IndexOf(Text.Lower(n.text), Text.Lower(q)).Some? {
        k := Text.IndexOf(Text.Lower(n.text), Text.Lower(q)).value;
      } else {
        return;
      }
      NormalizePositions(source);
      if |q| > 0 && k + |q| <= |n.positions| && |q| > 1 {
        assert n.positions[k] < n.positions[k + |q| - 1];
      }
    }
  }

  /** An exact hit of a search text without spaces at its ends. */
  lemma ExactHitEnds(t: string, q: string, k: nat)
    requires q != [] && q[0] != ' ' && q[|q| - 1] != ' ' && Text.IndexOf(t, q) == Some(k)
    ensures k + |q| <= |t| && t[k] != ' ' && t[k + |q| - 1] != ' '
  {
    OccursEnds(t, q, k);
  }

  /** A hit ignoring case of a search text without spaces at its ends. */
  lemma LowerHitEnds(t: string, q: string, k: nat)
    requires q != [] && q[0] != ' ' && q[|q| - 1] != ' ' && Text.IndexOf(Text.Lower(t), Text.Lower(q)) == Some(k)
    ensures k + |q| <= |t| && t[k] != ' ' && t[k + |q| - 1] != ' '
  {
    var lt, lq := Text.Lower(t), Text.Lower(q);
    OccursEnds(lt, lq, k);
    assert Text.LowerChar(t[k]) == Text.LowerChar(q[0]);
    assert Text.LowerChar(t[k + |q| - 1]) == Text.LowerChar(q[|q| - 1]);
    LowerNotSpace(t[k], q[0]);
    LowerNotSpace(t[k + |q| - 1], q[|q| - 1]);
  }

  /** A hit at `k`, in the normalised source, of a search text that does not start or end
      with a space maps back to a trimmed range of the source. */
  lemma ExactHitSpan(source: string, q: string, k: nat)
    requires q != [] && q[0] != ' ' && q[|q| - 1] != ' '
    requires Text.IndexOf(NormalizeSource(source).text, q) == Some(k)
    ensures TrimmedSpan(source, MapBack(NormalizeSource(source).positions, k, |q|))
  {
    ExactHitEnds(NormalizeSource(source).text, q, k);
    MapBackEnds(source, |q|, k);
  }

  /** The same for a hit that ignores case. */
  lemma LowerHitSpan(source: string, q: string, k: nat)
    requires q != [] && q[0] != ' ' && q[|q| - 1] != ' '
    requires Text.IndexOf(Text.Lower(NormalizeSource(source).text), Text.Lower(q)) == Some(k)
    ensures TrimmedSpan(source, MapBack(NormalizeSource(source).positions, k, |q|))
  {
    LowerHitEnds(NormalizeSource(source).text, q, k);
    MapBackEnds(source, |q|, k);
  }

  /** The normalised searches find, if anything, a non-empty range of the source that starts
      and ends on characters that are not white space. */
  lemma FindNormalizedEnds(source: string, search: string)
    ensures TrimmedSpan(source, FindNormalized(source, search))
  {
    var n := NormalizeSource(source);
    var q := NormalizeWhitespace(search);
    if q != [] {
      NormalizeWhitespaceEnds(search);
      var exact := Text.IndexOf(n.text, q);
      var lower := Text.IndexOf(Text.Lower(n.text), Text.Lower(q));
      if exact.Some? {
        var k := exact.value;
        ExactHitSpan(source, q, k);
      } else if lower.Some? {
        var k := lower.value;
        LowerHitSpan(source, q, k);
      }
    }
  }

  /** A range found through the normalised source, with or without case, is non-empty and
      starts and ends on characters of the source that are not white space. */
  lemma NormalizedMatchEnds(source: string, search: string)
    requires Text.IndexOf(source, search).None?
    ensures TrimmedSpan(source, FindMatch(source, search))
  {
    assert FindMatch(source, search) == FindNormalized(source, search);
    FindNormalizedEnds(source, search);
  }

  /** The degenerate result comes exactly from a search text that does not occur verbatim and
      is nothing but white space. */
  lemma DegenerateMatch(source: string, search: string)
    ensures FindMatch(source, search) == Degenerate
            <==> Text.IndexOf(source, search).None? && NormalizeWhitespace(search) == ""
  {
    var n := NormalizeSource(source);
    var q := NormalizeWhitespace(search);
    if q == "" {
      Text.EmptyOccurs(n.text);
    }
    if Text.IndexOf(source, search).None? && q != "" {
      if Text.IndexOf(n.text, q).Some? {
        assert Text.OccursAt(n.text, q, Text.IndexOf(n.text, q).value);
      } else if Text.IndexOf(Text.Lower(n.text), Text.Lower(q)).Some? {
        assert Text.OccursAt(Text.Lower(n.text), Text.Lower(q), Text.IndexOf(Text.Lower(n.text), Text.Lower(q)).value);
      }
    }
  }

  /** Nothing is found only when none of the three searches succeeds anywhere. */
  lemma NotFoundMeansAbsent(source: string, search: string)
    requires FindMatch(source, search) == NotFound
    ensures forall i: nat :: !Text.OccursAt(source, search, i)
    ensures forall k: nat :: !Text.OccursAt(NormalizeSource(source).text, NormalizeWhitespace(search), k)
    ensures forall k: nat ::
              !Text.OccursAt(Text.Lower(NormalizeSource(source).text), Text.Lower(NormalizeWhitespace(search)), k)
  {
    var n := NormalizeSource(source);
    var q := NormalizeWhitespace(search);
    if q == "" {
      Text.EmptyOccurs(n.text);
    }
  }

  // ---------------------------------------------------------------------------------------
  // Quote stripping

  predicate IsQuote(c: char) {
    c == '"' || c == '\''
  }

  /** `clauseText.replace(/^["']|["']$/g, '')`: one quote at the very start and one at the very
      end are removed; a text that is a single quote becomes empty. */
  function StripQuotes(s: string): (r: string)
    ensures |s| - 2 <= |r| <= |s|
    ensures s != [] && !IsQuote(s[0]) && !IsQuote(s[|s| - 1]) ==> r == s
  {
    var t := if s != [] && IsQuote(s[0]) then s[1..] else s;
    if t != [] && IsQuote(t[|t| - 1]) then t[..|t| - 1] else t
  }

  /** A text wrapped in a pair of quotes gets exactly that text back, whatever quotes it holds
      itself. */
  lemma StripQuotesRoundTrip(t: string, open: char, close: char)
    requires IsQuote(open) && IsQuote(close)
    ensures StripQuotes([open] + t + [close]) == t
  {
    var w := [open] + t + [close];
    assert w[1..] == t + [close];
    assert (t + [close])[..|t|] == t;
  }

  /** Only the outermost characters are ever removed: the result sits in the source text at
      position 0 or 1. */
  lemma StripQuotesInside(s: string)
    ensures var r := StripQuotes(s);
            Text.OccursAt(s, r, if s != [] && IsQuote(s[0]) then 1 else 0)
  {
  }

  // ---------------------------------------------------------------------------------------
  // Highlight segmentation

  /** The clause fields the view reads. */
  datatype ViewClause = ViewClause(id: int, clauseType: string, clauseText: Option<string>, sectionRef: Option<string>)

  /** A located clause: `{ start, end, clause }`. */
  datatype Highlight = Highlight(start: nat, end: nat, clause: ViewClause)

  /** A rendered segment: plain text, or the text of a highlighted clause tagged with its id. */
  datatype Part = Plain(text: string) | Marked(text: string, clauseId: int)

  /** `String.prototype.slice` for non-negative bounds: both are clamped to the length and an
      empty string results when the start is not below the end. */
  function Slice(s: string, from: nat, to: nat): (r: string)
    ensures from <= to <= |s| ==> r == s[from..to]
    ensures to <= from ==> r == []
  {
    var a := if from < |s| then from else |s|;
    var b := if to < |s| then to else |s|;
    if a < b then s[a..b] else []
  }

  /** The segments from `last` on: before each highlight the plain text from `last` when the
      highlight starts later, then the highlighted slice, after which `last` is its end; the
      rest of the text after the final highlight. */
  function Segments(text: string, hs: seq<Highlight>, last: nat): seq<Part>
    decreases |hs|
  {
    if hs == [] then (if last < |text| then [Plain(text[last..])] else [])
    else Lead(text, hs[0], last) + Segments(text, hs[1..], hs[0].end)
  }

  /** The parts pushed for one highlight: the plain text since `last`, if any, then the mark. */
  function Lead(text: string, h: Highlight, last: nat): seq<Part> {
    (if h.start > last then [Plain(Slice(text, last, h.start))] else [])
    + [Marked(Slice(text, h.start, h.end), h.clause.id)]
  }

  /** The text shown by a sequence of segments. */
  function Shown(parts: seq<Part>): string
    decreases |parts|
  {
    if parts == [] then [] else parts[0].text + Shown(parts[1..])
  }

  lemma {:induction false} ShownAppend(a: seq<Part>, b: seq<Part>)
    ensures Shown(a + b) == Shown(a) + Shown(b)
    decreases |a|
  {
    if a == [] {
      assert a + b == b;
    } else {
      assert (a + b)[1..] == a[1..] + b;
      ShownAppend(a[1..], b);
    }
  }

  /** The highlighted segments only, as (text, clause id) pairs. */
  function Marks(parts: seq<Part>): seq<(string, int)>
    decreases |parts|
  {
    if parts == [] then []
    else (if parts[0].Marked? then [(parts[0].text, parts[0].clauseId)] else []) + Marks(parts[1..])
  }

  lemma {:induction false} MarksAppend(a: seq<Part>, b: seq<Part>)
    ensures Marks(a + b) == Marks(a) + Marks(b)
    decreases |a|
  {
    if a == [] {
      assert a + b == b;
    } else {
      assert (a + b)[1..] == a[1..] + b;
      MarksAppend(a[1..], b);
    }
  }

  /** Each highlight ends before the next one starts. */
  predicate NonOverlapping(hs: seq<Highlight>) {
    forall k :: 0 <= k < |hs| - 1 ==> hs[k].end <= hs[k + 1].start
  }

  /** Highlights that do not overlap, in order, inside the text, none starting before `last`. */
  predicate Chained(text: string, hs: seq<Highlight>, last: nat) {
    && (forall k :: 0 <= k < |hs| ==> hs[k].start <= hs[k].end <= |text|)
    && (forall k :: 0 <= k < |hs| - 1 ==> hs[k].end <= hs[k + 1].start)
    && (hs != [] ==> last <= hs[0].start)
  }

  /** Without overlaps, the segments show exactly the text from `last` on: nothing is lost and
      nothing is shown twice. */
  lemma {:induction false} SegmentsCover(text: string, hs: seq<Highlight>, last: nat)
    requires last <= |text|
    requires Chained(text, hs, last)
    ensures Shown(Segments(text, hs, last)) == text[last..]
    decreases |hs|
  {
    if hs == [] {
      if last < |text| {
        ShownOne(Plain(text[last..]));
      }
    } else {
      var h := hs[0];
      assert last <= h.start <= h.end <= |text|;
      ChainedTail(text, hs, last);
      SegmentsCover(text, hs[1..], h.end);
      SegmentsShown(text, hs, last);
      SplitAt(text, last, h.start, h.end);
    }
  }

  lemma SplitAt(s: string, a: nat, b: nat, c: nat)
    requires a <= b <= c <= |s|
    ensures s[a..] == s[a..b] + s[b..c] + s[c..]
  {
  }

  lemma ShownOne(p: Part)
    ensures Shown([p]) == p.text
  {
    assert Shown([p]) == p.text + Shown([]);
  }

  /** The text shown for the first highlight, and for the ones after it. */
  lemma SegmentsShown(text: string, hs: seq<Highlight>, last: nat)
    requires hs != [] && last <= hs[0].start <= hs[0].end <= |text|
    ensures Shown(Segments(text, hs, last))
            == text[last..hs[0].start] + text[hs[0].start..hs[0].end] + Shown(Segments(text, hs[1..], hs[0].end))
  {
    var h := hs[0];
    var pre := if h.start > last then [Plain(Slice(text, last, h.start))] else [];
    var mid := [Marked(Slice(text, h.start, h.end), h.clause.id)];
    ShownAppend(pre + mid, Segments(text, hs[1..], h.end));
    ShownAppend(pre, mid);
    ShownOne(mid[0]);
    if h.start > last {
      ShownOne(pre[0]);
    }
  }

  lemma ChainedTail(text: string, hs: seq<Highlight>, last: nat)
    requires hs != [] && Chained(text, hs, last)
    ensures Chained(text, hs[1..], hs[0].end)
  {
    forall k | 0 <= k < |hs[1..]| - 1 ensures hs[1..][k].end <= hs[1..][k + 1].start {
      assert hs[1..][k] == hs[k + 1] && hs[1..][k + 1] == hs[k + 2];
    }
  }

  /** The (text, clause id) pairs the highlights should show, in order. */
  function HighlightMarks(text: string, hs: seq<Highlight>): seq<(string, int)>
    decreases |hs|
  {
    if hs == [] then [] else [(Slice(text, hs[0].start, hs[0].end), hs[0].clause.id)] + HighlightMarks(text, hs[1..])
  }

  /** Whatever the highlights, overlapping or not, each one is shown once, in order, as its own
      slice of the text and tagged with its clause. */
  lemma {:induction false} SegmentsMarks(text: string, hs: seq<Highlight>, last: nat)
    ensures Marks(Segments(text, hs, last)) == HighlightMarks(text, hs)
    decreases |hs|
  {
    if hs != [] {
      var h := hs[0];
      var pre := if h.start > last then [Plain(Slice(text, last, h.start))] else [];
      var mid := [Marked(Slice(text, h.start, h.end), h.clause.id)];
      SegmentsMarks(text, hs[1..], h.end);
      MarksAppend(pre + mid, Segments(text, hs[1..], h.end));
      MarksAppend(pre, mid);
      assert Marks(pre) == [] by {
        if h.start > last {
          assert Marks(pre) == [] + Marks([]);
        }
      }
      assert Marks(mid) == [(mid[0].text, mid[0].clauseId)] + Marks([]);
    }
  }

  /** Overlapping highlights make `lastIndex` move backwards, and the text between the second
      highlight's end and the first one's end is shown twice. */
  lemma OverlapRepeatsText()
    ensures var c := ViewClause(1, "Management Fee", None, None);
            var d := ViewClause(2, "Fee Step-Down", None, None);
            Shown(Segments("abcdef", [Highlight(0, 4, c), Highlight(1, 2, d)], 0)) == "abcdbcdef"
  {
    var text := "abcdef";
    var c := ViewClause(1, "Management Fee", None, None);
    var d := ViewClause(2, "Fee Step-Down", None, None);
    var hs := [Highlight(0, 4, c), Highlight(1, 2, d)];
    assert hs[1..] == [Highlight(1, 2, d)] && hs[1..][1..] == [];
    var last := Segments(text, [], 2);
    assert last == [Plain("cdef")] by { assert text[2..] == "cdef"; }
    var second := Segments(text, hs[1..], 4);
    assert second == [Marked(Slice(text, 1, 2), 2)] + last;
    assert Slice(text, 1, 2) == "b" by { assert text[1..2] == "b"; }
    var all := Segments(text, hs, 0);
    assert all == [Marked(Slice(text, 0, 4), 1)] + second;
    assert Slice(text, 0, 4) == "abcd" by { assert text[0..4] == "abcd"; }
    ShownAppend([Marked("abcd", 1)], second);
    ShownAppend([Marked("b", 2)], last);
    ShownOne(Marked("abcd", 1));
    ShownOne(Marked("b", 2));
    ShownOne(Plain("cdef"));
  }

  /** The comparator `a.start - b.start` returns a negative number. */
  predicate StartsBefore(a: Highlight, b: Highlight) {
    a.start < b.start
  }

  lemma StartsBeforeIsStrictWeakOrder()
    ensures Sorting.StrictWeakOrder(StartsBefore)
  {
  }

  /** The clauses `forEach` pushes a highlight for: those with a non-empty text that is found
      as a range in the document text. A degenerate match is not pushed here. */
  function Highlights(text: string, clauses: seq<ViewClause>): (hs: seq<Highlight>)
    ensures |hs| <= |clauses|
    ensures forall k :: 0 <= k < |hs| ==> hs[k].start <= hs[k].end <= |text|
    decreases |clauses|
  {
    if clauses == [] then []
    else
      var c := clauses[|clauses| - 1];
      Highlights(text, clauses[..|clauses| - 1])
      + if c.clauseText.Some? && c.clauseText.value != "" then
          var m := FindMatch(text, StripQuotes(c.clauseText.value));
          MatchBounds(text, StripQuotes(c.clauseText.value));
          if m.Span? then [Highlight(m.start, m.end, c)] else []
        else []
  }

  /** What `renderHighlightedText` renders: the whole text when there is no text or no clause;
      otherwise the segments of the highlights sorted by start. */
  function Render(text: string, clauses: seq<ViewClause>): seq<Part> {
    if text == [] || clauses == [] then [Plain(text)]
    else Segments(text, Sorting.Sort(Highlights(text, clauses), StartsBefore), 0)
  }

  /** Reordering keeps every highlight inside the text. */
  lemma PermutedInBounds(text: string, hs: seq<Highlight>, sorted: seq<Highlight>)
    requires forall k :: 0 <= k < |hs| ==> hs[k].start <= hs[k].end <= |text|
    requires multiset(sorted) == multiset(hs)
    ensures forall k :: 0 <= k < |sorted| ==> sorted[k].start <= sorted[k].end <= |text|
  {
    forall k | 0 <= k < |sorted| ensures sorted[k].start <= sorted[k].end <= |text| {
      assert sorted[k] in multiset(hs);
      var j :| 0 <= j < |hs| && hs[j] == sorted[k];
    }
  }

  /** Highlights inside the text that, once sorted, do not overlap are shown as the text. */
  lemma SortedSegmentsCover(text: string, hs: seq<Highlight>, sorted: seq<Highlight>)
    requires forall k :: 0 <= k < |hs| ==> hs[k].start <= hs[k].end <= |text|
    requires multiset(sorted) == multiset(hs)
    requires NonOverlapping(sorted)
    ensures Shown(Segments(text, sorted, 0)) == text
  {
    PermutedInBounds(text, hs, sorted);
    assert Chained(text, sorted, 0);
    SegmentsCover(text, sorted, 0);
    assert text[0..] == text;
  }

  /** Every highlight lies inside the text, so when the sorted highlights do not overlap the page
      shows the document text exactly. */
  lemma RenderCovers(text: string, clauses: seq<ViewClause>)
    requires NonOverlapping(Sorting.Sort(Highlights(text, clauses), StartsBefore))
    ensures Shown(Render(text, clauses)) == text
  {
    if text == [] || clauses == [] {
      ShownOne(Plain(text));
    } else {
      var hs := Highlights(text, clauses);
      SortedSegmentsCover(text, hs, Sorting.Sort(hs, StartsBefore));
    }
  }

  /** The highlighted segments follow the clauses' positions: sorted by start, clauses at the
      same start in their list order. */
  lemma RenderOrder(text: string, clauses: seq<ViewClause>)
    requires text != [] && clauses != []
    ensures var sorted := Sorting.Sort(Highlights(text, clauses), StartsBefore);
            && Sorting.Ordered(sorted, StartsBefore)
            && Marks(Render(text, clauses)) == HighlightMarks(text, sorted)
  {
    StartsBeforeIsStrictWeakOrder();
    var sorted := Sorting.Sort(Highlights(text, clauses), StartsBefore);
    Sorting.SortOrdered(Highlights(text, clauses), StartsBefore);
    SegmentsMarks(text, sorted, 0);
  }

  /** The `forEach` over the clauses that collects the highlights. */
  method CollectHighlights(text: string, clauses: seq<ViewClause>) returns (highlights: seq<Highlight>)
    ensures highlights == Highlights(text, clauses)
  {
    highlights := [];
    for i := 0 to |clauses|
      invariant highlights == Highlights(text, clauses[..i])
    {
      assert clauses[..i + 1][..i] == clauses[..i];
      var clause := clauses[i];
      if clause.clauseText.Some? && clause.clauseText.value != "" {
        var cleanClauseText := StripQuotes(clause.clauseText.value);
        var found := FindTextWithNormalizedMatch(text, cleanClauseText);
        if found.Span? {
          highlights := highlights + [Highlight(found.start, found.end, clause)];
        }
      }
    }
    assert clauses[..|clauses|] == clauses;
  }

  lemma SegmentsStep(text: string, hs: seq<Highlight>, i: nat, last: nat, before: seq<Part>)
    requires i < |hs|
    ensures before + Lead(text, hs[i], last) + Segments(text, hs[i + 1..], hs[i].end)
            == before + Segments(text, hs[i..], last)
  {
    assert hs[i..][1..] == hs[i + 1..];
  }

  /** The `forEach` over the sorted highlights that pushes the parts with the running
      `lastIndex`, and the remaining text after it. */
  method PushParts(text: string, highlights: seq<Highlight>) returns (parts: seq<Part>)
    ensures parts == Segments(text, highlights, 0)
  {
    parts := [];
    var lastIndex: nat := 0;
    for i := 0 to |highlights|
      invariant parts + Segments(text, highlights[i..], lastIndex) == Segments(text, highlights, 0)
    {
      var highlight := highlights[i];
      SegmentsStep(text, highlights, i, lastIndex, parts);
      ghost var pushed := parts + Lead(text, highlight, lastIndex);
      if highlight.start > lastIndex {
        parts := parts + [Plain(Slice(text, lastIndex, highlight.start))];
      }
      parts := parts + [Marked(Slice(text, highlight.start, highlight.end), highlight.clause.id)];
      assert parts == pushed;
      lastIndex := highlight.end;
    }
    if lastIndex < |text| {
      parts := parts + [Plain(text[lastIndex..])];
    }
  }

  /** `renderHighlightedText(text, clauses)`. */
  method RenderHighlightedText(text: string, clauses: seq<ViewClause>) returns (parts: seq<Part>)
    ensures parts == Render(text, clauses)
  {
    if text == [] || clauses == [] {
      return [Plain(text)];
    }
    var highlights := CollectHighlights(text, clauses);
    highlights := Sorting.Sort(highlights, StartsBefore);
    parts := PushParts(text, highlights);
  }

  // ---------------------------------------------------------------------------------------
  // The document list

  /** The document fields the view reads; `clauses` may be missing. */
  datatype ViewDocument = ViewDocument(id: int, investorId: int, title: string, docType: string,
                                       clauses: Option<seq<ViewClause>>)

  /** The investor drop-down: 'all', or an investor's id. */
  datatype InvestorFilter = AllInvestors | OnlyInvestor(id: int)

  predicate MatchesSearch(d: ViewDocument, query: string) {
    query == "" || Text.Contains(Text.Lower(d.title), Text.Lower(query))
    || Text.Contains(Text.Lower(d.docType), Text.Lower(query))
  }

  predicate MatchesInvestor(d: ViewDocument, f: InvestorFilter) {
    f.AllInvestors? || d.investorId == f.id
  }

  /** The filter's callback. */
  function Listed(query: string, f: InvestorFilter): ViewDocument -> bool {
    (d: ViewDocument) => MatchesSearch(d, query) && MatchesInvestor(d, f)
  }

  /** `filteredDocuments`. */
  function FilteredDocuments(documents: seq<ViewDocument>, query: string, f: InvestorFilter): seq<ViewDocument> {
    JsAgreements.Filter(documents, Listed(query, f))
  }

  /** A document is listed exactly when the query is empty or occurs, ignoring ASCII case, in its
      title or type, and the investor filter is 'all' or names its investor. */
  lemma FilteredDocumentsMember(documents: seq<ViewDocument>, query: string, f: InvestorFilter, d: ViewDocument)
    ensures d in FilteredDocuments(documents, query, f) <==>
            d in documents
            && (query == "" || (exists i: nat :: Text.OccursAt(Text.Lower(d.title), Text.Lower(query), i))
                || (exists i: nat :: Text.OccursAt(Text.Lower(d.docType), Text.Lower(query), i)))
            && (f.AllInvestors? || d.investorId == f.id)
  {
    JsAgreements.FilterMember(documents, Listed(query, f), d);
    Text.ContainsIff(Text.Lower(d.title), Text.Lower(query));
    Text.ContainsIff(Text.Lower(d.docType), Text.Lower(query));
  }

  /** With nothing to filter by, every document is listed, in its order. */
  lemma NoFilterListsAll(documents: seq<ViewDocument>)
    ensures FilteredDocuments(documents, "", AllInvestors) == documents
  {
    JsAgreements.FilterAll(documents, Listed("", AllInvestors));
  }

  /** `list.map(x => x.id === updated.id ? updated : x)`. */
  function ReplaceById<T>(s: seq<T>, id: T -> int, updated: T): (r: seq<T>)
    ensures |r| == |s|
    ensures forall k :: 0 <= k < |s| ==> r[k] == if id(s[k]) == id(updated) then updated else s[k]
  {
    seq(|s|, k requires 0 <= k < |s| => if id(s[k]) == id(updated) then updated else s[k])
  }

  /** Replacing is idempotent, and the ids are those of the original list. */
  lemma ReplaceByIdIdempotent<T>(s: seq<T>, id: T -> int, updated: T)
    ensures ReplaceById(ReplaceById(s, id, updated), id, updated) == ReplaceById(s, id, updated)
    ensures forall k :: 0 <= k < |s| ==> id(ReplaceById(s, id, updated)[k]) == id(s[k])
  {
  }

  function ClauseId(c: ViewClause): int { c.id }

  function DocumentId(d: ViewDocument): int { d.id }

  /** The selected document after `handleUpdateClause`: its clauses mapped, a missing list
      becoming empty. */
  function WithUpdatedClause(d: ViewDocument, updated: ViewClause): (r: ViewDocument)
    ensures r.id == d.id && r.investorId == d.investorId && r.title == d.title && r.docType == d.docType
    ensures r.clauses.Some?
    ensures d.clauses.None? ==> r.clauses.value == []
    ensures d.clauses.Some? ==> r.clauses.value == ReplaceById(d.clauses.value, ClauseId, updated)
  {
    d.(clauses := Some(if d.clauses.Some? then ReplaceById(d.clauses.value, ClauseId, updated) else []))
  }

  /** The delete's filter callback. */
  function OtherThan(clauseId: int): ViewClause -> bool {
    (c: ViewClause) => c.id != clauseId
  }

  /** The selected document after `handleDeleteClause`: the clauses with another id. */
  function WithoutClause(d: ViewDocument, clauseId: int): (r: ViewDocument)
    ensures r.id == d.id && r.investorId == d.investorId && r.title == d.title && r.docType == d.docType
    ensures r.clauses.Some?
    ensures d.clauses.None? ==> r.clauses.value == []
  {
    d.(clauses := Some(if d.clauses.Some? then JsAgreements.Filter(d.clauses.value, OtherThan(clauseId)) else []))
  }

  /** Deleting keeps exactly the clauses with another id and is idempotent. */
  lemma WithoutClauseMember(d: ViewDocument, clauseId: int, c: ViewClause)
    ensures c in WithoutClause(d, clauseId).clauses.value <==>
            d.clauses.Some? && c in d.clauses.value && c.id != clauseId
    ensures WithoutClause(WithoutClause(d, clauseId), clauseId) == WithoutClause(d, clauseId)
  {
    if d.clauses.Some? {
      var keep := OtherThan(clauseId);
      var r := JsAgreements.Filter(d.clauses.value, keep);
      JsAgreements.FilterMember(d.clauses.value, keep, c);
      forall k | 0 <= k < |r| ensures keep(r[k]) {
        JsAgreements.FilterMember(d.clauses.value, keep, r[k]);
      }
      JsAgreements.FilterAll(r, keep);
    }
  }

  /** `setDocuments(prev => prev.map(d => d.id === updatedDoc.id ? updatedDoc : d))` after a
      clause is edited. */
  function DocumentsAfterUpdate(documents: seq<ViewDocument>, selected: ViewDocument, updated: ViewClause): seq<ViewDocument> {
    ReplaceById(documents, DocumentId, WithUpdatedClause(selected, updated))
  }

  /** The same after a clause is deleted. */
  function DocumentsAfterDelete(documents: seq<ViewDocument>, selected: ViewDocument, clauseId: int): seq<ViewDocument> {
    ReplaceById(documents, DocumentId, WithoutClause(selected, clauseId))
  }

  /** Editing a clause replaces only the documents with the selected one's id, and in the new
      selected document only the clauses with the edited one's id. */
  lemma UpdateTouchesOnlyThatClause(documents: seq<ViewDocument>, selected: ViewDocument, updated: ViewClause)
    ensures var r := DocumentsAfterUpdate(documents, selected, updated);
            && |r| == |documents|
            && (forall k :: 0 <= k < |documents| && documents[k].id != selected.id ==> r[k] == documents[k])
            && (forall k :: 0 <= k < |documents| && documents[k].id == selected.id ==>
                  r[k].clauses.Some? && |r[k].clauses.value| == |selected.clauses.GetOr([])|)
            && (forall k, j :: 0 <= k < |documents| && documents[k].id == selected.id && selected.clauses.Some?
                  && 0 <= j < |selected.clauses.value| && selected.clauses.value[j].id != updated.id
                  ==> r[k].clauses.value[j] == selected.clauses.value[j])
  {
  }

  /** Deleting a clause replaces only the documents with the selected one's id, which then hold
      no clause with the deleted id. */
  lemma DeleteTouchesOnlyThatClause(documents: seq<ViewDocument>, selected: ViewDocument, clauseId: int)
    ensures var r := DocumentsAfterDelete(documents, selected, clauseId);
            && |r| == |documents|
            && (forall k :: 0 <= k < |documents| && documents[k].id != selected.id ==> r[k] == documents[k])
            && (forall k, c :: 0 <= k < |documents| && documents[k].id == selected.id && c in r[k].clauses.value
                  ==> c.id != clauseId && c in selected.clauses.GetOr([]))
  {
    forall c ensures c in WithoutClause(selected, clauseId).clauses.value ==> c.id != clauseId && c in selected.clauses.GetOr([]) {
      WithoutClauseMember(selected, clauseId, c);
    }
  }
}
