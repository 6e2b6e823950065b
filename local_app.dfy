/** The browser-only tracker (`app.js`). One `state` object holds investors, agreements (each
    with its clauses) and fee rules; the page removes entries from it, shows each investor's
    effective terms by the last-writer-wins rule, prices a fee rule on a scenario commitment,
    and escapes every string it writes into HTML. */
module LocalApp {
  import opened Wrappers
  import Text
  import Sorting
  import Ranking
  import JsAgreements

  // ---------------------------------------------------------------------------------------
  // Data

  datatype Term = Term(rate: real, threshold: string, discount: real, notes: string)

  datatype Clause = Clause(id: string, clauseType: string, tags: seq<string>, clauseText: string, term: Term)

  /** An agreement; `effectiveDate` is the timestamp of the date field, missing when it is empty. */
  datatype Agreement = Agreement(
    id: string,
    title: string,
    investor: string,
    fund: string,
    docType: string,
    effectiveDate: Option<int>,
    status: string,
    priority: int,
    clauses: seq<Clause>)

  datatype Investor = Investor(id: string, name: string, fund: string, relationship: string, notes: string)

  datatype FeeRule = FeeRule(
    id: string,
    investor: string,
    fund: string,
    feeType: string,
    baseRate: real,
    tierThreshold: string,
    tierThresholdAmount: real,
    tierRate: real,
    discount: real,
    sourceClause: string)

  // ---------------------------------------------------------------------------------------
  // Priority table (app.js copy)

  const PriorityTable: map<string, int> :=
    map["Amendment" := 4, "Side Letter" := 3, "Fee Schedule" := 3, "Subscription Agreement" := 2, "PPM" := 1]

  /** `derivePriority`: a property read on the object literal; a missing key reads as
      `undefined`, which `|| 1` replaces. */
  function DerivePriority(docType: string): (p: int)
    ensures p == Ranking.PriorityOf(docType)
  {
    var v := if docType in PriorityTable then PriorityTable[docType] else 0;
    if v != 0 then v else 1
  }

  // ---------------------------------------------------------------------------------------
  // Effective terms panel

  /** The fund box's value as the filter compares it: trimmed and lower-cased. */
  function FundFilter(fundInput: string): string {
    Text.Lower(Text.TrimJs(fundInput))
  }

  /** An agreement of the selected investor, in a fund whose lower-cased name contains the filter
      (any fund when the filter is empty), that is not marked superseded. */
  predicate IsEligible(a: Agreement, investor: string, fundFilter: string) {
    && a.investor == investor
    && (fundFilter == [] || Text.Contains(Text.Lower(a.fund), fundFilter))
    && a.status != "Superseded"
  }

  function EligibleAgreements(agreements: seq<Agreement>, investor: string, fundInput: string): seq<Agreement> {
    var f := FundFilter(fundInput);
    JsAgreements.Filter(agreements, (a: Agreement) => IsEligible(a, investor, f))
  }

  function KeyOf(a: Agreement): JsAgreements.SortKey {
    JsAgreements.SortKey(JsAgreements.DateKey(a.effectiveDate),
                         JsAgreements.PriorityKey(a.priority, DerivePriority(a.docType)))
  }

  /** The comparator of the effective-terms sort returns a negative number. */
  predicate SortsBefore(a: Agreement, b: Agreement) {
    JsAgreements.KeyBefore(KeyOf(a), KeyOf(b))
  }

  lemma SortsBeforeIsStrictWeakOrder()
    ensures Sorting.StrictWeakOrder(SortsBefore)
  {
  }

  /** What the panel keeps for a clause type: the clause, its agreement and its position. */
  datatype Entry = Entry(clause: Clause, agreement: Agreement, index: nat)

  /** The `effectiveMap.set` calls made while visiting one agreement, in clause order. */
  function ClauseWrites(a: Agreement): (w: seq<(string, Entry)>)
    ensures |w| == |a.clauses|
    ensures forall j :: 0 <= j < |w| ==> w[j] == (a.clauses[j].clauseType, Entry(a.clauses[j], a, j))
  {
    seq(|a.clauses|, j requires 0 <= j < |a.clauses| => (a.clauses[j].clauseType, Entry(a.clauses[j], a, j)))
  }

  /** What the panel shows: one of its three messages, or the map from clause type to entry. */
  datatype View = NoInvestorSelected | NoAgreementsMatch | NoClauses | Terms(entries: map<string, Entry>)

  function ViewOf(agreements: seq<Agreement>, investor: string, fundInput: string): View {
    if investor == "" then NoInvestorSelected
    else
      var eligible := EligibleAgreements(agreements, investor, fundInput);
      if eligible == [] then NoAgreementsMatch
      else
        var m := JsAgreements.LastWins(JsAgreements.Writes(Sorting.Sort(eligible, SortsBefore), ClauseWrites));
        if m == map[] then NoClauses else Terms(m)
  }

  lemma EligibleMember(agreements: seq<Agreement>, investor: string, fundInput: string, a: Agreement)
    ensures a in EligibleAgreements(agreements, investor, fundInput)
            <==> a in agreements && IsEligible(a, investor, FundFilter(fundInput))
  {
    var f := FundFilter(fundInput);
    JsAgreements.FilterMember(agreements, (a: Agreement) => IsEligible(a, investor, f), a);
  }

  /** An agreement carries a clause of type `k`. */
  predicate HasClauseOfType(a: Agreement, k: string) {
    exists q :: 0 <= q < |a.clauses| && a.clauses[q].clauseType == k
  }

  lemma WritesKeyIsClauseType(a: Agreement, k: string)
    ensures JsAgreements.WritesKey(ClauseWrites, a, k) <==> HasClauseOfType(a, k)
  {
    if HasClauseOfType(a, k) {
      var q :| 0 <= q < |a.clauses| && a.clauses[q].clauseType == k;
      assert ClauseWrites(a)[q].0 == k;
    }
  }

  /** The panel's rule: a clause type is listed exactly when an eligible agreement has a clause of
      that type; its entry is a clause of that type at the recorded index of an eligible agreement,
      no later clause of that agreement has the type, and no other eligible agreement with that
      type sorts after it (a later date, or the same date and a higher priority). Since the form
      prepends clauses, the highest index is the earliest-added clause. */
  lemma LastWriterWins(agreements: seq<Agreement>, investor: string, fundInput: string, k: string)
    requires ViewOf(agreements, investor, fundInput).Terms?
    ensures k in ViewOf(agreements, investor, fundInput).entries
            <==> exists a :: a in EligibleAgreements(agreements, investor, fundInput) && HasClauseOfType(a, k)
    ensures k in ViewOf(agreements, investor, fundInput).entries ==>
              var e := ViewOf(agreements, investor, fundInput).entries[k];
              && e.agreement in EligibleAgreements(agreements, investor, fundInput)
              && e.index < |e.agreement.clauses| && e.clause == e.agreement.clauses[e.index]
              && e.clause.clauseType == k
              && (forall q :: e.index < q < |e.agreement.clauses| ==> e.agreement.clauses[q].clauseType != k)
              && (forall b :: b in EligibleAgreements(agreements, investor, fundInput) && HasClauseOfType(b, k)
                    ==> !SortsBefore(e.agreement, b))
  {
    var eligible := EligibleAgreements(agreements, investor, fundInput);
    assert ViewOf(agreements, investor, fundInput).entries == Resolved(eligible);
    ResolvedKeys(eligible, k);
    if k in Resolved(eligible) {
      ResolvedEntry(eligible, k);
    }
  }

  /** The map the fold over the sorted agreements builds. */
  function Resolved(eligible: seq<Agreement>): map<string, Entry> {
    JsAgreements.LastWins(JsAgreements.Writes(Sorting.Sort(eligible, SortsBefore), ClauseWrites))
  }

  lemma ResolvedKeys(eligible: seq<Agreement>, k: string)
    ensures k in Resolved(eligible) <==> exists a :: a in eligible && HasClauseOfType(a, k)
  {
    JsAgreements.FoldSortedKeys(eligible, SortsBefore, ClauseWrites, k);
    if exists a :: a in eligible && HasClauseOfType(a, k) {
      var a :| a in eligible && HasClauseOfType(a, k);
      WritesKeyIsClauseType(a, k);
    }
    if exists a :: a in eligible && JsAgreements.WritesKey(ClauseWrites, a, k) {
      var a :| a in eligible && JsAgreements.WritesKey(ClauseWrites, a, k);
      WritesKeyIsClauseType(a, k);
    }
  }

  lemma ResolvedEntry(eligible: seq<Agreement>, k: string)
    requires k in Resolved(eligible)
    ensures var e := Resolved(eligible)[k];
            && e.agreement in eligible
            && e.index < |e.agreement.clauses| && e.clause == e.agreement.clauses[e.index]
            && e.clause.clauseType == k
            && (forall q :: e.index < q < |e.agreement.clauses| ==> e.agreement.clauses[q].clauseType != k)
            && (forall b :: b in eligible && HasClauseOfType(b, k) ==> !SortsBefore(e.agreement, b))
  {
    var m := Resolved(eligible);
    SortsBeforeIsStrictWeakOrder();
    JsAgreements.FoldSortedWinner(eligible, SortsBefore, ClauseWrites, k);
    var a, p :| a in eligible && 0 <= p < |ClauseWrites(a)| && ClauseWrites(a)[p] == (k, m[k])
                && (forall q :: p < q < |ClauseWrites(a)| ==> ClauseWrites(a)[q].0 != k)
                && (forall b :: b in eligible && JsAgreements.WritesKey(ClauseWrites, b, k) ==> !SortsBefore(a, b));
    assert m[k] == Entry(a.clauses[p], a, p);
    forall b | b in eligible && HasClauseOfType(b, k) ensures !SortsBefore(a, b) {
      WritesKeyIsClauseType(b, k);
    }
  }

  // ---------------------------------------------------------------------------------------
  // Fee card

  /** The numbers `renderFeeCard` shows for a rule on a scenario commitment. */
  datatype FeeCard = FeeCard(tierApplies: bool, scenarioRate: real, discountedRate: real, fee: real)

  function FeeCardOf(rule: FeeRule, scenario: real): FeeCard {
    var tierApplies := rule.tierRate != 0.0 && rule.tierThresholdAmount != 0.0 && scenario >= rule.tierThresholdAmount;
    var scenarioRate := if tierApplies then rule.tierRate else rule.baseRate;
    var discounted := scenarioRate - rule.discount;
    var discountedRate := if discounted > 0.0 then discounted else 0.0;
    FeeCard(tierApplies, scenarioRate, discountedRate, scenario * discountedRate / 100.0)
  }

  /** The tier rate replaces the base rate exactly on a truthy tier whose threshold the scenario
      reaches; the discounted rate is the scenario rate less the discount, floored at zero, so it
      is never negative and a non-negative discount never raises it; the fee is that rate as a
      percentage of the commitment, so it is never negative for a non-negative commitment. */
  lemma FeeCardRules(rule: FeeRule, scenario: real)
    ensures FeeCardOf(rule, scenario).tierApplies
            <==> rule.tierRate != 0.0 && rule.tierThresholdAmount != 0.0 && scenario >= rule.tierThresholdAmount
    ensures FeeCardOf(rule, scenario).scenarioRate
            == if FeeCardOf(rule, scenario).tierApplies then rule.tierRate else rule.baseRate
    ensures FeeCardOf(rule, scenario).discountedRate >= 0.0
    ensures FeeCardOf(rule, scenario).discountedRate >= FeeCardOf(rule, scenario).scenarioRate - rule.discount
    ensures rule.discount >= 0.0 && FeeCardOf(rule, scenario).scenarioRate >= 0.0
            ==> FeeCardOf(rule, scenario).discountedRate <= FeeCardOf(rule, scenario).scenarioRate
    ensures scenario >= 0.0 ==> FeeCardOf(rule, scenario).fee >= 0.0
    ensures FeeCardOf(rule, scenario).fee * 100.0 == scenario * FeeCardOf(rule, scenario).discountedRate
  {
  }

  // ---------------------------------------------------------------------------------------
  // HTML escaping

  /** `s.replaceAll(c, rep)` for a one-character pattern. */
  function ReplaceAll(s: string, c: char, rep: string): (r: string)
    ensures forall d :: d in r ==> (d in s && d != c) || d in rep
    decreases |s|
  {
    if s == [] then [] else (if s[0] == c then rep else [s[0]]) + ReplaceAll(s[1..], c, rep)
  }

  lemma {:induction false} ReplaceAllAppend(a: string, b: string, c: char, rep: string)
    ensures ReplaceAll(a + b, c, rep) == ReplaceAll(a, c, rep) + ReplaceAll(b, c, rep)
    decreases |a|
  {
    if a != [] {
      assert (a + b)[1..] == a[1..] + b;
      ReplaceAllAppend(a[1..], b, c, rep);
    } else {
      assert a + b == b;
    }
  }

  lemma {:induction false} ReplaceAllAbsent(s: string, c: char, rep: string)
    requires c !in s
    ensures ReplaceAll(s, c, rep) == s
    decreases |s|
  {
    if s != [] {
      ReplaceAllAbsent(s[1..], c, rep);
    }
  }

  /** `escapeHtml`: `String(value ?? "")`, then `&`, `<`, `>`, `"` and `'` replaced in that order. */
  function EscapeHtml(value: Option<string>): string {
    EscapeChain(match value case Some(v) => v case None => "")
  }

  /** The entity each character is escaped to (itself when it needs none). */
  function EscapeChar(c: char): string {
    match c
    case '&' => "&amp;"
    case '<' => "&lt;"
    case '>' => "&gt;"
    case '"' => "&quot;"
    case '\'' => "&#39;"
    case _ => [c]
  }

  /** Escaping character by character. */
  function EscapeChars(s: string): string
    decreases |s|
  {
    if s == [] then [] else EscapeChar(s[0]) + EscapeChars(s[1..])
  }

  lemma ReplaceAllOne(c: char, d: char, rep: string)
    ensures ReplaceAll([c], d, rep) == if c == d then rep else [c]
  {
    assert [c][0] == c && [c][1..] == [];
  }

  /** The five replacements of `escapeHtml`, applied to any text. */
  function EscapeChain(s: string): string {
    ReplaceAll(ReplaceAll(ReplaceAll(ReplaceAll(ReplaceAll(s, '&', "&amp;"), '<', "&lt;"), '>', "&gt;"), '"', "&quot;"), '\'', "&#39;")
  }

  lemma EscapeHtmlOneChar(c: char)
    ensures EscapeHtml(Some([c])) == EscapeChar(c)
  {
    var s1 := ReplaceAll([c], '&', "&amp;");
    ReplaceAllOne(c, '&', "&amp;");
    if c == '&' {
      var t := "&amp;";
      assert '<' !in t && '>' !in t && '"' !in t && '\'' !in t;
      ReplaceAllAbsent(t, '<', "&lt;");
      ReplaceAllAbsent(t, '>', "&gt;");
      ReplaceAllAbsent(t, '"', "&quot;");
      ReplaceAllAbsent(t, '\'', "&#39;");
      return;
    }
    var s2 := ReplaceAll(s1, '<', "&lt;");
    ReplaceAllOne(c, '<', "&lt;");
    if c == '<' {
      var t := "&lt;";
      assert '>' !in t && '"' !in t && '\'' !in t;
      ReplaceAllAbsent(t, '>', "&gt;");
      ReplaceAllAbsent(t, '"', "&quot;");
      ReplaceAllAbsent(t, '\'', "&#39;");
      return;
    }
    var s3 := ReplaceAll(s2, '>', "&gt;");
    ReplaceAllOne(c, '>', "&gt;");
    if c == '>' {
      var t := "&gt;";
      assert '"' !in t && '\'' !in t;
      ReplaceAllAbsent(t, '"', "&quot;");
      ReplaceAllAbsent(t, '\'', "&#39;");
      return;
    }
    var s4 := ReplaceAll(s3, '"', "&quot;");
    ReplaceAllOne(c, '"', "&quot;");
    if c == '"' {
      var t := "&quot;";
      assert '\'' !in t;
      ReplaceAllAbsent(t, '\'', "&#39;");
      return;
    }
    ReplaceAllOne(c, '\'', "&#39;");
  }

  lemma EscapeHtmlAppend(a: string, b: string)
    ensures EscapeHtml(Some(a + b)) == EscapeHtml(Some(a)) + EscapeHtml(Some(b))
  {
    var r1a, r1b := ReplaceAll(a, '&', "&amp;"), ReplaceAll(b, '&', "&amp;");
    ReplaceAllAppend(a, b, '&', "&amp;");
    var r2a, r2b := ReplaceAll(r1a, '<', "&lt;"), ReplaceAll(r1b, '<', "&lt;");
    ReplaceAllAppend(r1a, r1b, '<', "&lt;");
    var r3a, r3b := ReplaceAll(r2a, '>', "&gt;"), ReplaceAll(r2b, '>', "&gt;");
    ReplaceAllAppend(r2a, r2b, '>', "&gt;");
    var r4a, r4b := ReplaceAll(r3a, '"', "&quot;"), ReplaceAll(r3b, '"', "&quot;");
    ReplaceAllAppend(r3a, r3b, '"', "&quot;");
    ReplaceAllAppend(r4a, r4b, '\'', "&#39;");
  }

  /** Replacing `&` first keeps the later replacements from touching the entities already
      written, so the chain escapes each character on its own. */
  lemma {:induction false} EscapeHtmlIsPerChar(s: string)
    ensures EscapeHtml(Some(s)) == EscapeChars(s)
    decreases |s|
  {
    if s != [] {
      assert s == [s[0]] + s[1..];
      EscapeHtmlAppend([s[0]], s[1..]);
      EscapeHtmlOneChar(s[0]);
      EscapeHtmlIsPerChar(s[1..]);
    }
  }

  /** Markup characters never appear raw in the output. */
  lemma EscapeHtmlSafe(value: Option<string>)
    ensures forall k :: 0 <= k < |EscapeHtml(value)| ==> EscapeHtml(value)[k] !in {'<', '>', '"', '\''}
  {
    var s := match value case Some(v) => v case None => "";
    var s1 := ReplaceAll(s, '&', "&amp;");
    var s2 := ReplaceAll(s1, '<', "&lt;");
    var s3 := ReplaceAll(s2, '>', "&gt;");
    var s4 := ReplaceAll(s3, '"', "&quot;");
    var s5 := ReplaceAll(s4, '\'', "&#39;");
    assert '<' !in s2;
    assert '<' !in s3 && '>' !in s3;
    assert '<' !in s4 && '>' !in s4 && '"' !in s4;
    assert '<' !in s5 && '>' !in s5 && '"' !in s5 && '\'' !in s5;
    forall k | 0 <= k < |s5| ensures s5[k] !in {'<', '>', '"', '\''} {
      assert s5[k] in s5;
    }
  }

  /** Decoding the five entities `escapeHtml` writes. */
  function Unescape(s: string): string
    decreases |s|
  {
    if s == [] then []
    else if |s| >= 5 && s[..5] == "&amp;" then "&" + Unescape(s[5..])
    else if |s| >= 4 && s[..4] == "&lt;" then "<" + Unescape(s[4..])
    else if |s| >= 4 && s[..4] == "&gt;" then ">" + Unescape(s[4..])
    else if |s| >= 6 && s[..6] == "&quot;" then "\"" + Unescape(s[6..])
    else if |s| >= 5 && s[..5] == "&#39;" then "'" + Unescape(s[5..])
    else [s[0]] + Unescape(s[1..])
  }

  lemma UnescapeEntity(e: string, c: char, rest: string)
    requires e in ["&amp;", "&lt;", "&gt;", "&quot;", "&#39;"]
    requires c == match e case "&amp;" => '&' case "&lt;" => '<' case "&gt;" => '>' case "&quot;" => '"' case _ => '\''
    ensures Unescape(e + rest) == [c] + Unescape(rest)
  {
    var s := e + rest;
    assert s[..|e|] == e && s[|e|..] == rest;
    assert s[1] == e[1];
  }

  lemma UnescapePlain(c: char, rest: string)
    requires c != '&'
    ensures Unescape([c] + rest) == [c] + Unescape(rest)
  {
    var s := [c] + rest;
    assert s[0] == c && s[1..] == rest;
  }

  lemma UnescapeStep(c: char, rest: string)
    ensures Unescape(EscapeChar(c) + rest) == [c] + Unescape(rest)
  {
    match c
    case '&' => UnescapeEntity("&amp;", c, rest);
    case '<' => UnescapeEntity("&lt;", c, rest);
    case '>' => UnescapeEntity("&gt;", c, rest);
    case '"' => UnescapeEntity("&quot;", c, rest);
    case '\'' => UnescapeEntity("&#39;", c, rest);
    case _ => UnescapePlain(c, rest);
  }

  /** Escaping loses nothing: decoding the entities gives back the original text. */
  lemma {:induction false} EscapeHtmlRoundTrip(s: string)
    ensures Unescape(EscapeHtml(Some(s))) == s
    decreases |s|
  {
    EscapeHtmlIsPerChar(s);
    if s != [] {
      UnescapeStep(s[0], EscapeChars(s[1..]));
      EscapeHtmlRoundTrip(s[1..]);
      EscapeHtmlIsPerChar(s[1..]);
    }
  }

  // ---------------------------------------------------------------------------------------
  // Tags

  /** `s.split(sep)`: the pieces between separators, one more than there are separators. */
  function Split(s: string, sep: char): (pieces: seq<string>)
    ensures |pieces| >= 1
    ensures forall i :: 0 <= i < |pieces| ==> sep !in pieces[i]
    decreases |s|
  {
    if s == [] then [[]]
    else
      var rest := Split(s[1..], sep);
      if s[0] == sep then [[]] + rest else [[s[0]] + rest[0]] + rest[1..]
  }

  /** `pieces.join(sep)`. */
  function Join(pieces: seq<string>, sep: char): string
    decreases |pieces|
  {
    if pieces == [] then [] else if |pieces| == 1 then pieces[0] else pieces[0] + [sep] + Join(pieces[1..], sep)
  }

  lemma {:induction false} SplitJoin(s: string, sep: char)
    ensures Join(Split(s, sep), sep) == s
    decreases |s|
  {
    if s != [] {
      var rest := Split(s[1..], sep);
      SplitJoin(s[1..], sep);
      if s[0] != sep {
        var p := [[s[0]] + rest[0]] + rest[1..];
        assert p[1..] == rest[1..];
        if |rest| > 1 {
          assert Join(rest, sep) == rest[0] + [sep] + Join(rest[1..], sep);
        }
      }
    }
  }

  lemma {:induction false} JoinSplit(pieces: seq<string>, sep: char)
    requires pieces != []
    requires forall i :: 0 <= i < |pieces| ==> sep !in pieces[i]
    ensures Split(Join(pieces, sep), sep) == pieces
    decreases |pieces|, |pieces[0]|
  {
    var p0 := pieces[0];
    if p0 != [] {
      var shorter := [p0[1..]] + pieces[1..];
      JoinSplit(shorter, sep);
      var j := Join(pieces, sep);
      assert j == [p0[0]] + Join(shorter, sep) by {
        if |pieces| > 1 {
          assert Join(shorter, sep) == p0[1..] + [sep] + Join(shorter[1..], sep);
          assert shorter[1..] == pieces[1..];
        }
      }
      assert j[1..] == Join(shorter, sep);
      assert p0 == [p0[0]] + p0[1..];
    } else if |pieces| > 1 {
      JoinSplit(pieces[1..], sep);
      var j := Join(pieces, sep);
      assert j == [sep] + Join(pieces[1..], sep);
      assert j[1..] == Join(pieces[1..], sep);
      assert pieces == [[]] + pieces[1..];
    }
  }

  /** A string with no white space at either end. */
  predicate Trimmed(t: string) {
    t == [] || (!Text.IsJsSpace(t[0]) && !Text.IsJsSpace(t[|t| - 1]))
  }

  function TrimmedPieces(pieces: seq<string>): (r: seq<string>)
    ensures |r| == |pieces|
    ensures forall i :: 0 <= i < |r| ==> r[i] == Text.TrimJs(pieces[i])
  {
    seq(|pieces|, i requires 0 <= i < |pieces| => Text.TrimJs(pieces[i]))
  }

  /** `toTags`: nothing for a missing or empty value; otherwise the comma-separated pieces,
      trimmed, with the empty ones dropped. */
  function ToTags(value: Option<string>): seq<string> {
    match value
    case None => []
    case Some(v) =>
      if v == "" then []
      else JsAgreements.Filter(TrimmedPieces(Split(v, ',')), (t: string) => t != "")
  }

  lemma TrimIdempotent(t: string)
    requires Trimmed(t)
    ensures Text.TrimJs(t) == t
  {
  }

  lemma TrimmedPiece(t: string)
    ensures Trimmed(Text.TrimJs(t))
    ensures ',' !in t ==> ',' !in Text.TrimJs(t)
  {
    var a := Text.TrimStart(t, Text.IsJsSpace);
    var b := Text.TrimEnd(a, Text.IsJsSpace);
    if b != [] {
      assert b[0] == a[0];
    }
    if ',' in b {
      var k :| 0 <= k < |b| && b[k] == ',';
      assert t[|t| - |a| + k] == ',';
    }
  }

  /** Every tag is non-empty, trimmed and free of commas. */
  lemma ToTagsClean(value: Option<string>)
    ensures forall i :: 0 <= i < |ToTags(value)| ==>
              ToTags(value)[i] != "" && Trimmed(ToTags(value)[i]) && ',' !in ToTags(value)[i]
  {
    if value.Some? && value.value != "" {
      var pieces := Split(value.value, ',');
      var trimmed := TrimmedPieces(pieces);
      var keep := (t: string) => t != "";
      forall i | 0 <= i < |ToTags(value)|
        ensures ToTags(value)[i] != "" && Trimmed(ToTags(value)[i]) && ',' !in ToTags(value)[i]
      {
        var t := ToTags(value)[i];
        assert t in JsAgreements.Filter(trimmed, keep);
        JsAgreements.FilterMember(trimmed, keep, t);
        var k :| 0 <= k < |trimmed| && trimmed[k] == t;
        TrimmedPiece(pieces[k]);
      }
    }
  }

  /** Tags the form writes back as a comma-separated list come back unchanged. */
  lemma ToTagsOfJoin(tags: seq<string>)
    requires forall i :: 0 <= i < |tags| ==> tags[i] != "" && Trimmed(tags[i]) && ',' !in tags[i]
    ensures ToTags(Some(Join(tags, ','))) == tags
  {
    if tags != [] {
      JoinSplit(tags, ',');
      assert Join(tags, ',') != "" by {
        assert |Join(tags, ',')| >= |tags[0]| by { JoinPrefix(tags, ','); }
      }
      var trimmed := TrimmedPieces(tags);
      forall i | 0 <= i < |tags| ensures trimmed[i] == tags[i] {
        TrimIdempotent(tags[i]);
      }
      assert trimmed == tags;
      JsAgreements.FilterAll(tags, (t: string) => t != "");
    }
  }

  lemma JoinPrefix(pieces: seq<string>, sep: char)
    requires pieces != []
    ensures Join(pieces, sep)[..|pieces[0]|] == pieces[0]
  {
  }

  // ---------------------------------------------------------------------------------------
  // State

  function WithoutInvestor(s: seq<Investor>, id: string): seq<Investor> {
    JsAgreements.Filter(s, (x: Investor) => x.id != id)
  }

  function WithoutAgreement(s: seq<Agreement>, id: string): seq<Agreement> {
    JsAgreements.Filter(s, (x: Agreement) => x.id != id)
  }

  function WithoutFeeRule(s: seq<FeeRule>, id: string): seq<FeeRule> {
    JsAgreements.Filter(s, (x: FeeRule) => x.id != id)
  }

  function WithoutClause(s: seq<Clause>, id: string): seq<Clause> {
    JsAgreements.Filter(s, (x: Clause) => x.id != id)
  }

  /** The removal filters drop exactly the entries with the given id. */
  lemma WithoutRemovesExactly(investors: seq<Investor>, agreements: seq<Agreement>, feeRules: seq<FeeRule>,
                              clauses: seq<Clause>, id: string)
    ensures forall x :: x in WithoutInvestor(investors, id) <==> x in investors && x.id != id
    ensures forall x :: x in WithoutAgreement(agreements, id) <==> x in agreements && x.id != id
    ensures forall x :: x in WithoutFeeRule(feeRules, id) <==> x in feeRules && x.id != id
    ensures forall x :: x in WithoutClause(clauses, id) <==> x in clauses && x.id != id
  {
    forall x {
      JsAgreements.FilterMember(investors, (x: Investor) => x.id != id, x);
    }
    forall x {
      JsAgreements.FilterMember(agreements, (x: Agreement) => x.id != id, x);
    }
    forall x {
      JsAgreements.FilterMember(feeRules, (x: FeeRule) => x.id != id, x);
    }
    forall x {
      JsAgreements.FilterMember(clauses, (x: Clause) => x.id != id, x);
    }
  }

  /** `Array.prototype.find` by id: the first agreement with that id. */
  function FindAgreement(s: seq<Agreement>, id: string): (r: Option<nat>)
    ensures r.Some? ==> r.value < |s| && s[r.value].id == id && forall j :: 0 <= j < r.value ==> s[j].id != id
    ensures r.None? ==> forall j :: 0 <= j < |s| ==> s[j].id != id
    decreases |s|
  {
    if s == [] then None
    else if s[0].id == id then Some(0)
    else match FindAgreement(s[1..], id)
      case None => None
      case Some(i) => Some(i + 1)
  }

  /** The page's `state` object (its localStorage copy is not modelled). */
  class AppState {
    var investors: seq<Investor>
    var agreements: seq<Agreement>
    var feeRules: seq<FeeRule>

    constructor(investors0: seq<Investor>, agreements0: seq<Agreement>, feeRules0: seq<FeeRule>)
      ensures investors == investors0 && agreements == agreements0 && feeRules == feeRules0
    {
      investors := investors0;
      agreements := agreements0;
      feeRules := feeRules0;
    }

    /** `removeItem`: the collection named by `kind` loses the entries with that id; any other
        kind changes nothing. */
    method RemoveItem(kind: string, id: string)
      modifies this
      ensures investors == if kind == "investor" then WithoutInvestor(old(investors), id) else old(investors)
      ensures agreements == if kind == "agreement" then WithoutAgreement(old(agreements), id) else old(agreements)
      ensures feeRules == if kind == "fee" then WithoutFeeRule(old(feeRules), id) else old(feeRules)
    {
      if kind == "investor" {
        investors := WithoutInvestor(investors, id);
      } else if kind == "agreement" {
        agreements := WithoutAgreement(agreements, id);
      } else if kind == "fee" {
        feeRules := WithoutFeeRule(feeRules, id);
      }
    }

    /** `removeClause`: the first agreement with that id loses the clauses with the clause id;
        every other agreement and collection is unchanged, and an unknown agreement changes
        nothing. */
    method RemoveClause(agreementId: string, clauseId: string)
      modifies this
      ensures investors == old(investors) && feeRules == old(feeRules)
      ensures |agreements| == |old(agreements)|
      ensures match FindAgreement(old(agreements), agreementId)
              case None => agreements == old(agreements)
              case Some(i) =>
                agreements == old(agreements)[i := old(agreements)[i].(clauses := WithoutClause(old(agreements)[i].clauses, clauseId))]
    {
      var found := FindAgreement(agreements, agreementId);
      if found.None? {
        return;
      }
      var i := found.value;
      var a := agreements[i];
      agreements := agreements[i := a.(clauses := WithoutClause(a.clauses, clauseId))];
    }

    /** `renderEffectiveTerms` without the markup: it filters the agreements, sorts a copy and
        folds the clauses into a map, leaving the state as it was. */
    method EffectiveTerms(investor: string, fundInput: string) returns (v: View)
      ensures v == ViewOf(agreements, investor, fundInput)
    {
      if investor == "" {
        return NoInvestorSelected;
      }
      var eligible := EligibleAgreements(agreements, investor, fundInput);
      if |eligible| == 0 {
        return NoAgreementsMatch;
      }
      var sorted := Sorting.Sort(eligible, SortsBefore);
      var m: map<string, Entry> := map[];
      var i := 0;
      while i < |sorted|
        invariant 0 <= i <= |sorted|
        invariant m == JsAgreements.LastWins(JsAgreements.Writes(sorted[..i], ClauseWrites))
      {
        m := SetClauses(m, JsAgreements.Writes(sorted[..i], ClauseWrites), sorted[i]);
        JsAgreements.WritesSnoc(sorted, ClauseWrites, i);
        i := i + 1;
      }
      assert sorted[..i] == sorted;
      if |m| == 0 {
        return NoClauses;
      }
      return Terms(m);
    }
  }

  /** The inner `forEach` of the effective-terms fold: one `set` per clause of `a`, in order. */
  method SetClauses(m0: map<string, Entry>, ghost done: seq<(string, Entry)>, a: Agreement) returns (m: map<string, Entry>)
    requires m0 == JsAgreements.LastWins(done)
    ensures m == JsAgreements.LastWins(done + ClauseWrites(a))
  {
    m := m0;
    var j := 0;
    assert done + ClauseWrites(a)[..0] == done;
    while j < |a.clauses|
      invariant 0 <= j <= |a.clauses|
      invariant m == JsAgreements.LastWins(done + ClauseWrites(a)[..j])
    {
      JsAgreements.LastWinsStep(done, ClauseWrites(a)[..j], ClauseWrites(a)[j]);
      assert ClauseWrites(a)[..j + 1] == ClauseWrites(a)[..j] + [ClauseWrites(a)[j]];
      m := m[a.clauses[j].clauseType := Entry(a.clauses[j], a, j)];
      j := j + 1;
    }
    assert ClauseWrites(a)[..j] == ClauseWrites(a);
  }
}
