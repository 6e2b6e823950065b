/** The Postgres-backed Express API (`api/server.js`). A clause's term is stored as typed rows of
    the `terms` table and folded back into a term object when read; the effective-terms handler
    joins agreement, clause and term rows and folds them by the same last-writer-wins rule as the
    other JavaScript resolvers; the email webhook turns a request into the rows it inserts. Query
    results are inputs given in the order the database returns them; request fields are `None`
    when missing or falsy. */
module PostgresApi {
  import opened Wrappers
  import Sorting
  import Ranking
  import JsAgreements

  // ---------------------------------------------------------------------------------------
  // Terms as rows

  /** The term object `normalizeTerms` returns. */
  datatype Term = Term(rate: real, threshold: string, discount: real, notes: string)

  /** The `term_type` column: one of the four names the code writes and compares with, or any
      other name. */
  datatype TermType = Rate | Threshold | Discount | Notes | OtherType(name: string)

  /** A row of the `terms` table. */
  datatype TermRow = TermRow(
    clauseId: string,
    termType: TermType,
    valueNumeric: Option<real>,
    valueText: Option<string>,
    unit: Option<string>)

  /** The `term` object of a request; a field is `None` when it is missing. */
  datatype TermInput = TermInput(rate: Option<real>, threshold: Option<string>, discount: Option<real>, notes: Option<string>)

  predicate TruthyNum(x: Option<real>) {
    x.Some? && x.value != 0.0
  }

  predicate TruthyText(x: Option<string>) {
    x.Some? && x.value != ""
  }

  /** `Number(x || 0)` on a numeric column or field. */
  function NumOrZero(x: Option<real>): (r: real)
    ensures TruthyNum(x) ==> r == x.value
    ensures !TruthyNum(x) ==> r == 0.0
  {
    match x
    case Some(v) => v
    case None => 0.0
  }

  /** `x || ""` on a text column or field. */
  function TextOrEmpty(x: Option<string>): (r: string)
    ensures TruthyText(x) ==> r == x.value
    ensures !TruthyText(x) ==> r == ""
  {
    match x
    case Some(v) => v
    case None => ""
  }

  /** The term a stored term reads back as: each falsy field replaced by its default. */
  function Defaulted(t: TermInput): Term {
    Term(NumOrZero(t.rate), TextOrEmpty(t.threshold), NumOrZero(t.discount), TextOrEmpty(t.notes))
  }

  /** One iteration of the `forEach` in `normalizeTerms`. */
  function ApplyRow(t: Term, row: TermRow): Term {
    if row.termType == Rate then t.(rate := NumOrZero(row.valueNumeric))
    else if row.termType == Threshold then t.(threshold := TextOrEmpty(row.valueText))
    else if row.termType == Discount then t.(discount := NumOrZero(row.valueNumeric))
    else if row.termType == Notes then t.(notes := TextOrEmpty(row.valueText))
    else t
  }

  /** `normalizeTerms(rows)`: the defaults `{0, "", 0, ""}` after every row in order. */
  function Normalize(rows: seq<TermRow>): Term
    decreases |rows|
  {
    if rows == [] then Term(0.0, "", 0.0, "")
    else ApplyRow(Normalize(rows[..|rows| - 1]), rows[|rows| - 1])
  }

  /** The last row of type `ty`, if any. */
  function LastOfType(rows: seq<TermRow>, ty: TermType): (r: Option<nat>)
    ensures r.Some? ==> r.value < |rows| && rows[r.value].termType == ty
                        && forall j :: r.value < j < |rows| ==> rows[j].termType != ty
    ensures r.None? ==> forall j :: 0 <= j < |rows| ==> rows[j].termType != ty
    decreases |rows|
  {
    if rows == [] then None
    else if rows[|rows| - 1].termType == ty then Some(|rows| - 1)
    else LastOfType(rows[..|rows| - 1], ty)
  }

  /** A field of a term, by its type. */
  datatype FieldValue = Number(n: real) | Text(t: string)

  function Get(t: Term, ty: TermType): FieldValue {
    match ty
    case Rate => Number(t.rate)
    case Threshold => Text(t.threshold)
    case Discount => Number(t.discount)
    case Notes => Text(t.notes)
    case OtherType(_) => Text("")
  }

  /** The value a row of its type gives its field: `Number(value_numeric || 0)` for the numeric
      types, `value_text || ""` for the text types. */
  function ReadRow(row: TermRow): FieldValue {
    match row.termType
    case Rate => Number(NumOrZero(row.valueNumeric))
    case Discount => Number(NumOrZero(row.valueNumeric))
    case _ => Text(TextOrEmpty(row.valueText))
  }

  function DefaultOf(ty: TermType): FieldValue {
    if ty == Rate || ty == Discount then Number(0.0) else Text("")
  }

  /** Each field of the normalized term comes from the last row of its type, or is the default
      when there is none; rows of any other type change nothing. */
  lemma {:induction false} NormalizeLastWins(rows: seq<TermRow>, ty: TermType)
    requires !ty.OtherType?
    ensures Get(Normalize(rows), ty) == match LastOfType(rows, ty) case None => DefaultOf(ty) case Some(i) => ReadRow(rows[i])
    decreases |rows|
  {
    if rows != [] {
      var init, last := rows[..|rows| - 1], rows[|rows| - 1];
      NormalizeLastWins(init, ty);
      assert Normalize(rows) == ApplyRow(Normalize(init), last);
      assert forall i :: 0 <= i < |init| ==> rows[i] == init[i];
    }
  }

  /** Terms are equal when their four fields are. */
  lemma TermByFields(t: Term, u: Term)
    requires Get(t, Rate) == Get(u, Rate) && Get(t, Threshold) == Get(u, Threshold)
    requires Get(t, Discount) == Get(u, Discount) && Get(t, Notes) == Get(u, Notes)
    ensures t == u
  {
  }

  /** `normalizeTerms`: a term object updated row by row. */
  method NormalizeTerms(rows: seq<TermRow>) returns (term: Term)
    ensures term == Normalize(rows)
  {
    term := Term(0.0, "", 0.0, "");
    var i := 0;
    while i < |rows|
      invariant 0 <= i <= |rows|
      invariant term == Normalize(rows[..i])
    {
      var row := rows[i];
      assert rows[..i + 1][..i] == rows[..i];
      if row.termType == Rate {
        term := term.(rate := NumOrZero(row.valueNumeric));
      }
      if row.termType == Threshold {
        term := term.(threshold := TextOrEmpty(row.valueText));
      }
      if row.termType == Discount {
        term := term.(discount := NumOrZero(row.valueNumeric));
      }
      if row.termType == Notes {
        term := term.(notes := TextOrEmpty(row.valueText));
      }
      i := i + 1;
    }
    assert rows[..i] == rows;
  }

  /** The position of a term type in the order `upsertTerms` writes them. */
  function TypeRank(ty: TermType): int {
    match ty
    case Rate => 0
    case Threshold => 1
    case Discount => 2
    case Notes => 3
    case OtherType(_) => 4
  }

  /** The term type `upsertTerms` writes `k`-th. */
  function TypeAt(k: nat): (ty: TermType)
    ensures TypeRank(ty) == if k < 3 then k else 3
  {
    if k == 0 then Rate else if k == 1 then Threshold else if k == 2 then Discount else Notes
  }

  /** `upsertTerms` writes a row for a field exactly when the field is truthy. */
  predicate FieldTruthy(term: TermInput, ty: TermType) {
    match ty
    case Rate => TruthyNum(term.rate)
    case Threshold => TruthyText(term.threshold)
    case Discount => TruthyNum(term.discount)
    case Notes => TruthyText(term.notes)
    case OtherType(_) => false
  }

  /** The row `upsertTerms` writes for a field: the numeric fields in `value_numeric` with unit
      "percent", the text fields in `value_text`. */
  function FieldRowOf(clauseId: string, term: TermInput, ty: TermType): TermRow {
    match ty
    case Rate => TermRow(clauseId, Rate, term.rate, None, Some("percent"))
    case Discount => TermRow(clauseId, Discount, term.discount, None, Some("percent"))
    case Threshold => TermRow(clauseId, Threshold, None, term.threshold, None)
    case _ => TermRow(clauseId, Notes, None, term.notes, None)
  }

  /** The row pushed `k`-th, if that field is truthy. */
  function FieldRow(clauseId: string, term: TermInput, k: nat): (r: seq<TermRow>)
    ensures |r| <= 1
    ensures r != [] ==> r[0] == FieldRowOf(clauseId, term, TypeAt(k)) && r[0].termType == TypeAt(k)
    ensures r != [] <==> FieldTruthy(term, TypeAt(k))
  {
    if FieldTruthy(term, TypeAt(k)) then [FieldRowOf(clauseId, term, TypeAt(k))] else []
  }

  /** The `inserts` array of `upsertTerms`. */
  function TermInserts(clauseId: string, term: TermInput): seq<TermRow> {
    FieldRow(clauseId, term, 0) + FieldRow(clauseId, term, 1) + FieldRow(clauseId, term, 2) + FieldRow(clauseId, term, 3)
  }

  /** Where each row of the inserts came from: position `i` holds the row of the `k`-th type. */
  lemma TermInsertsAt(clauseId: string, term: TermInput, i: nat)
    requires i < |TermInserts(clauseId, term)|
    ensures exists k: nat :: k < 4 && FieldRow(clauseId, term, k) != []
                             && TermInserts(clauseId, term)[i] == FieldRowOf(clauseId, term, TypeAt(k))
                             && i == |FieldRow(clauseId, term, 0)| * (if k > 0 then 1 else 0)
                                     + |FieldRow(clauseId, term, 1)| * (if k > 1 then 1 else 0)
                                     + |FieldRow(clauseId, term, 2)| * (if k > 2 then 1 else 0)
  {
    var r0, r1, r2, r3 := FieldRow(clauseId, term, 0), FieldRow(clauseId, term, 1), FieldRow(clauseId, term, 2), FieldRow(clauseId, term, 3);
    var s := r0 + r1 + r2 + r3;
    if i < |r0| {
      assert s[i] == r0[0];
    } else if i < |r0| + |r1| {
      assert s[i] == r1[0];
    } else if i < |r0| + |r1| + |r2| {
      assert s[i] == r2[i - |r0| - |r1|];
    } else {
      assert s[i] == r3[i - |r0| - |r1| - |r2|];
    }
  }

  /** Each row belongs to the clause, and the rows come in the order rate, threshold, discount,
      notes, at most one of each. */
  lemma TermInsertsOrder(clauseId: string, term: TermInput)
    ensures forall r :: r in TermInserts(clauseId, term) ==> r.clauseId == clauseId
    ensures forall i, j :: 0 <= i < j < |TermInserts(clauseId, term)| ==>
              TypeRank(TermInserts(clauseId, term)[i].termType) < TypeRank(TermInserts(clauseId, term)[j].termType)
  {
    var s := TermInserts(clauseId, term);
    forall i | 0 <= i < |s| ensures s[i].clauseId == clauseId {
      TermInsertsAt(clauseId, term, i);
    }
    forall i, j | 0 <= i < j < |s| ensures TypeRank(s[i].termType) < TypeRank(s[j].termType) {
      TermInsertsAt(clauseId, term, i);
      TermInsertsAt(clauseId, term, j);
    }
  }

  /** There is a row of a given type exactly when that field is truthy, and every row carries
      its field's value. */
  lemma TermInsertsContent(clauseId: string, term: TermInput, ty: TermType)
    ensures (exists r :: r in TermInserts(clauseId, term) && r.termType == ty) <==> FieldTruthy(term, ty)
    ensures forall r :: r in TermInserts(clauseId, term) ==> r == FieldRowOf(clauseId, term, r.termType)
  {
    var s := TermInserts(clauseId, term);
    forall i | 0 <= i < |s| ensures s[i] == FieldRowOf(clauseId, term, s[i].termType) {
      TermInsertsAt(clauseId, term, i);
    }
    if FieldTruthy(term, ty) {
      var k: nat := TypeRank(ty);
      assert TypeAt(k) == ty;
      var r0, r1, r2, r3 := FieldRow(clauseId, term, 0), FieldRow(clauseId, term, 1), FieldRow(clauseId, term, 2), FieldRow(clauseId, term, 3);
      assert FieldRow(clauseId, term, k) != [];
      assert FieldRowOf(clauseId, term, ty) in s by {
        assert r0 + r1 + r2 + r3 == s;
        assert FieldRow(clauseId, term, k)[0] in FieldRow(clauseId, term, k);
      }
    }
    if exists r :: r in s && r.termType == ty {
      var r :| r in s && r.termType == ty;
      var i :| 0 <= i < |s| && s[i] == r;
      TermInsertsAt(clauseId, term, i);
    }
  }

  /** Reading the inserted rows back with `normalizeTerms` gives the term with its falsy fields
      defaulted. */
  lemma TermInsertsRoundTrip(clauseId: string, term: TermInput)
    ensures Normalize(TermInserts(clauseId, term)) == Defaulted(term)
  {
    RoundTripField(clauseId, term, Rate);
    RoundTripField(clauseId, term, Threshold);
    RoundTripField(clauseId, term, Discount);
    RoundTripField(clauseId, term, Notes);
    TermByFields(Normalize(TermInserts(clauseId, term)), Defaulted(term));
  }

  lemma RoundTripField(clauseId: string, term: TermInput, ty: TermType)
    requires !ty.OtherType?
    ensures Get(Normalize(TermInserts(clauseId, term)), ty) == Get(Defaulted(term), ty)
  {
    var s := TermInserts(clauseId, term);
    NormalizeLastWins(s, ty);
    TermInsertsContent(clauseId, term, ty);
    match LastOfType(s, ty)
    case None =>
    case Some(i) =>
      assert s[i] in s;
  }

  /** `upsertTerms`: after deleting the clause's old rows it pushes one row per truthy field. */
  method UpsertTermRows(clauseId: string, term: TermInput) returns (inserts: seq<TermRow>)
    ensures inserts == TermInserts(clauseId, term)
  {
    inserts := [];
    if TruthyNum(term.rate) {
      inserts := inserts + [TermRow(clauseId, Rate, term.rate, None, Some("percent"))];
    }
    ghost var r0 := inserts;
    assert r0 == FieldRow(clauseId, term, 0);
    if TruthyText(term.threshold) {
      inserts := inserts + [TermRow(clauseId, Threshold, None, term.threshold, None)];
    }
    ghost var r1 := inserts[|r0|..];
    assert r1 == FieldRow(clauseId, term, 1) && inserts == r0 + r1;
    if TruthyNum(term.discount) {
      inserts := inserts + [TermRow(clauseId, Discount, term.discount, None, Some("percent"))];
    }
    ghost var r2 := inserts[|r0 + r1|..];
    assert r2 == FieldRow(clauseId, term, 2) && inserts == r0 + r1 + r2;
    if TruthyText(term.notes) {
      inserts := inserts + [TermRow(clauseId, Notes, None, term.notes, None)];
    }
    ghost var r3 := inserts[|r0 + r1 + r2|..];
    assert r3 == FieldRow(clauseId, term, 3) && inserts == r0 + r1 + r2 + r3;
  }

  // ---------------------------------------------------------------------------------------
  // Priority table (api/server.js copy)

  const PriorityTable: map<string, int> :=
    map["Amendment" := 4, "Side Letter" := 3, "Fee Schedule" := 3, "Subscription Agreement" := 2, "PPM" := 1]

  /** `derivePriority(docType = "")`: a missing type takes the default parameter, and a key the
      object literal lacks reads as `undefined`, which `|| 1` replaces. */
  function DerivePriority(docType: Option<string>): (p: int)
    ensures p == Ranking.PriorityOf(docType.GetOr(""))
  {
    var k := docType.GetOr("");
    var v := if k in PriorityTable then PriorityTable[k] else 0;
    if v != 0 then v else 1
  }

  // ---------------------------------------------------------------------------------------
  // Effective terms

  /** A row of `agreements`; `effectiveDate` is the timestamp of the date column, `None` for null. */
  datatype AgreementRow = AgreementRow(
    id: string,
    investorId: string,
    fundId: Option<string>,
    title: string,
    docType: string,
    status: string,
    effectiveDate: Option<int>,
    priority: int)

  /** A row of `clauses` joined with its clause type's name. */
  datatype ClauseRow = ClauseRow(id: string, agreementId: string, clauseTypeName: string, text: string)

  /** What `clauseMap` holds for a clause id. */
  datatype ClauseView = ClauseView(clauseType: string, text: string, term: Term, agreementId: string)

  /** What the response holds for a clause type; `clause` is `clauseMap.get(row.id)`. */
  datatype Entry = Entry(clause: Option<ClauseView>, agreementId: string, agreementTitle: string, effectiveDate: Option<int>)

  /** The rows the investor query returns that the filter keeps: the fund when a fund id was
      given, and a status other than "Superseded". */
  predicate IsEligible(a: AgreementRow, investorId: string, fundId: Option<string>) {
    && a.investorId == investorId
    && (fundId.None? || fundId.value == "" || a.fundId == fundId)
    && a.status != "Superseded"
  }

  function EligibleAgreements(rows: seq<AgreementRow>, investorId: string, fundId: Option<string>): seq<AgreementRow> {
    JsAgreements.Filter(rows, (a: AgreementRow) => IsEligible(a, investorId, fundId))
  }

  function KeyOf(a: AgreementRow): JsAgreements.SortKey {
    JsAgreements.SortKey(JsAgreements.DateKey(a.effectiveDate),
                         JsAgreements.PriorityKey(a.priority, DerivePriority(Some(a.docType))))
  }

  predicate SortsBefore(a: AgreementRow, b: AgreementRow) {
    JsAgreements.KeyBefore(KeyOf(a), KeyOf(b))
  }

  lemma SortsBeforeIsStrictWeakOrder()
    ensures Sorting.StrictWeakOrder(SortsBefore)
  {
  }

  /** The ids of the agreements, as passed to `ANY($1::uuid[])`. */
  function Ids(ags: seq<AgreementRow>): set<string> {
    set a | a in ags :: a.id
  }

  /** The clause rows of those agreements, in table order. */
  function ClausesOf(clauseTable: seq<ClauseRow>, ids: set<string>): seq<ClauseRow> {
    JsAgreements.Filter(clauseTable, (r: ClauseRow) => r.agreementId in ids)
  }

  /** `termMap.get(clauseId) || []`: the term rows of one clause, in table order. */
  function TermsFor(termRows: seq<TermRow>, clauseId: string): seq<TermRow> {
    JsAgreements.Filter(termRows, (r: TermRow) => r.clauseId == clauseId)
  }

  /** A lookup of the grouped term rows, empty for an id with none. */
  function Lookup(tm: map<string, seq<TermRow>>, clauseId: string): seq<TermRow> {
    if clauseId in tm then tm[clauseId] else []
  }

  function ViewOf(r: ClauseRow, termRows: seq<TermRow>): ClauseView {
    ClauseView(r.clauseTypeName, r.text, Normalize(TermsFor(termRows, r.id)), r.agreementId)
  }

  /** The `clauseMap.set` calls, one per clause row. */
  function ClauseMapWrites(rows: seq<ClauseRow>, termRows: seq<TermRow>): (w: seq<(string, ClauseView)>)
    ensures |w| == |rows|
    ensures forall i :: 0 <= i < |w| ==> w[i] == (rows[i].id, ViewOf(rows[i], termRows))
  {
    seq(|rows|, i requires 0 <= i < |rows| => (rows[i].id, ViewOf(rows[i], termRows)))
  }

  /** `clauseRows.rows.filter(row => row.agreement_id === agreement.id)`. */
  function OwnRows(rows: seq<ClauseRow>, a: AgreementRow): seq<ClauseRow> {
    JsAgreements.Filter(rows, (r: ClauseRow) => r.agreementId == a.id)
  }

  lemma OwnRowsMember(rows: seq<ClauseRow>, a: AgreementRow, r: ClauseRow)
    ensures r in OwnRows(rows, a) <==> r in rows && r.agreementId == a.id
  {
    JsAgreements.FilterMember(rows, (r: ClauseRow) => r.agreementId == a.id, r);
  }

  /** What `effectiveMap` is given for a clause row of agreement `a`. */
  function EntryOf(r: ClauseRow, cm: map<string, ClauseView>, a: AgreementRow): Entry {
    Entry(if r.id in cm then Some(cm[r.id]) else None, a.id, a.title, a.effectiveDate)
  }

  /** The `effectiveMap.set` calls made while visiting one agreement: one per clause row of that
      agreement, in row order. */
  function RowWrites(rows: seq<ClauseRow>, cm: map<string, ClauseView>, a: AgreementRow): (w: seq<(string, Entry)>)
    ensures |w| == |OwnRows(rows, a)|
    ensures forall p :: 0 <= p < |w| ==> w[p] == (OwnRows(rows, a)[p].clauseTypeName, EntryOf(OwnRows(rows, a)[p], cm, a))
  {
    var own := OwnRows(rows, a);
    seq(|own|, p requires 0 <= p < |own| => (own[p].clauseTypeName, EntryOf(own[p], cm, a)))
  }

  /** The writes of the whole fold, agreement after agreement. */
  function FoldWrites(ags: seq<AgreementRow>, rows: seq<ClauseRow>, cm: map<string, ClauseView>): seq<(string, Entry)>
    decreases |ags|
  {
    if ags == [] then [] else FoldWrites(ags[..|ags| - 1], rows, cm) + RowWrites(rows, cm, ags[|ags| - 1])
  }

  /** The answer of `GET /effective-terms`. */
  function EffectiveTermsOf(
    agreementTable: seq<AgreementRow>, clauseTable: seq<ClauseRow>, termRows: seq<TermRow>,
    investorId: Option<string>, fundId: Option<string>): Response<map<string, Entry>>
  {
    if investorId.None? || investorId.value == "" then HttpError(400, "investorId is required")
    else
      var sorted := Sorting.Sort(EligibleAgreements(agreementTable, investorId.value, fundId), SortsBefore);
      var rows := ClausesOf(clauseTable, Ids(sorted));
      var cm := JsAgreements.LastWins(ClauseMapWrites(rows, termRows));
      Ok(JsAgreements.LastWins(FoldWrites(sorted, rows, cm)))
  }

  /** The request fails exactly when the investor id is missing or empty. */
  lemma InvestorRequired(
    agreementTable: seq<AgreementRow>, clauseTable: seq<ClauseRow>, termRows: seq<TermRow>,
    investorId: Option<string>, fundId: Option<string>)
    ensures EffectiveTermsOf(agreementTable, clauseTable, termRows, investorId, fundId).HttpError?
            <==> investorId.None? || investorId.value == ""
  {
  }

  /** An agreement's clause rows include one of type `k`. */
  predicate HasRowOfType(rows: seq<ClauseRow>, a: AgreementRow, k: string) {
    exists r :: r in rows && r.agreementId == a.id && r.clauseTypeName == k
  }

  /** `a` writes `k` exactly when it has a clause row of that type. */
  lemma RowWritesKey(rows: seq<ClauseRow>, cm: map<string, ClauseView>, a: AgreementRow, k: string)
    ensures JsAgreements.WritesKey((b: AgreementRow) => RowWrites(rows, cm, b), a, k) <==> HasRowOfType(rows, a, k)
  {
    var own := OwnRows(rows, a);
    var w := RowWrites(rows, cm, a);
    assert ((b: AgreementRow) => RowWrites(rows, cm, b))(a) == w;
    if HasRowOfType(rows, a, k) {
      var r :| r in rows && r.agreementId == a.id && r.clauseTypeName == k;
      OwnRowsMember(rows, a, r);
      var p :| 0 <= p < |own| && own[p] == r;
      assert w[p].0 == k;
    }
    if exists p :: 0 <= p < |w| && w[p].0 == k {
      var p :| 0 <= p < |w| && w[p].0 == k;
      assert own[p].clauseTypeName == k;
      OwnRowsMember(rows, a, own[p]);
      assert own[p] in rows && own[p].agreementId == a.id;
    }
  }

  /** The fold written with the generic agreement-by-agreement writes. */
  lemma {:induction false} FoldWritesIs(
    ags: seq<AgreementRow>, rows: seq<ClauseRow>, cm: map<string, ClauseView>, w: AgreementRow -> seq<(string, Entry)>)
    requires forall a :: w(a) == RowWrites(rows, cm, a)
    ensures FoldWrites(ags, rows, cm) == JsAgreements.Writes(ags, w)
    decreases |ags|
  {
    if ags != [] {
      FoldWritesIs(ags[..|ags| - 1], rows, cm, w);
    }
  }

  /** The clause rows the handler folds and the `clauseMap` it reads them through. */
  function QueriedRows(agreementTable: seq<AgreementRow>, clauseTable: seq<ClauseRow>, investorId: string, fundId: Option<string>)
    : seq<ClauseRow>
  {
    ClausesOf(clauseTable, Ids(Sorting.Sort(EligibleAgreements(agreementTable, investorId, fundId), SortsBefore)))
  }

  /** A clause type is in the response exactly when an eligible agreement has a clause row of
      that type. */
  lemma LastWriterWinsKeys(
    agreementTable: seq<AgreementRow>, clauseTable: seq<ClauseRow>, termRows: seq<TermRow>,
    investorId: string, fundId: Option<string>, k: string)
    requires investorId != ""
    ensures k in EffectiveTermsOf(agreementTable, clauseTable, termRows, Some(investorId), fundId).value
            <==> exists a :: a in EligibleAgreements(agreementTable, investorId, fundId)
                             && HasRowOfType(QueriedRows(agreementTable, clauseTable, investorId, fundId), a, k)
  {
    var eligible := EligibleAgreements(agreementTable, investorId, fundId);
    var sorted := Sorting.Sort(eligible, SortsBefore);
    var rows := QueriedRows(agreementTable, clauseTable, investorId, fundId);
    var cm := JsAgreements.LastWins(ClauseMapWrites(rows, termRows));
    var w := (b: AgreementRow) => RowWrites(rows, cm, b);
    FoldWritesIs(sorted, rows, cm, w);
    JsAgreements.FoldSortedKeys(eligible, SortsBefore, w, k);
    forall a ensures JsAgreements.WritesKey(w, a, k) <==> HasRowOfType(rows, a, k) {
      RowWritesKey(rows, cm, a, k);
    }
  }

  /** A winning write of agreement `a` at `p` read back as its clause row. */
  lemma WinnerRow(rows: seq<ClauseRow>, cm: map<string, ClauseView>, a: AgreementRow, p: nat, k: string, e: Entry)
    requires p < |RowWrites(rows, cm, a)| && RowWrites(rows, cm, a)[p] == (k, e)
    requires forall q :: p < q < |RowWrites(rows, cm, a)| ==> RowWrites(rows, cm, a)[q].0 != k
    ensures p < |OwnRows(rows, a)| && OwnRows(rows, a)[p].clauseTypeName == k && e == EntryOf(OwnRows(rows, a)[p], cm, a)
    ensures forall q :: p < q < |OwnRows(rows, a)| ==> OwnRows(rows, a)[q].clauseTypeName != k
  {
    var w := RowWrites(rows, cm, a);
    forall q | p < q < |OwnRows(rows, a)| ensures OwnRows(rows, a)[q].clauseTypeName != k {
      assert w[q].0 != k;
    }
  }

  /** The fold over the sorted agreements, for any clause rows and clause map: the entry of a
      key comes from a row of that type of one of the agreements, no later row of that agreement
      has the type, and no other agreement with a row of that type sorts after it. */
  lemma FoldEntry(eligible: seq<AgreementRow>, rows: seq<ClauseRow>, cm: map<string, ClauseView>, k: string)
    returns (a: AgreementRow, p: nat)
    requires k in JsAgreements.LastWins(FoldWrites(Sorting.Sort(eligible, SortsBefore), rows, cm))
    ensures && a in eligible
            && p < |OwnRows(rows, a)| && OwnRows(rows, a)[p].clauseTypeName == k
            && JsAgreements.LastWins(FoldWrites(Sorting.Sort(eligible, SortsBefore), rows, cm))[k]
               == EntryOf(OwnRows(rows, a)[p], cm, a)
    ensures forall q :: p < q < |OwnRows(rows, a)| ==> OwnRows(rows, a)[q].clauseTypeName != k
    ensures forall b :: b in eligible && HasRowOfType(rows, b, k) ==> !SortsBefore(a, b)
  {
    var sorted := Sorting.Sort(eligible, SortsBefore);
    var w := (b: AgreementRow) => RowWrites(rows, cm, b);
    FoldWritesIs(sorted, rows, cm, w);
    SortsBeforeIsStrictWeakOrder();
    var m := JsAgreements.LastWins(JsAgreements.Writes(sorted, w));
    JsAgreements.FoldSortedWinner(eligible, SortsBefore, w, k);
    var a0, p0 :| a0 in eligible && 0 <= p0 < |w(a0)| && w(a0)[p0] == (k, m[k])
                 && (forall q :: p0 < q < |w(a0)| ==> w(a0)[q].0 != k)
                 && (forall b :: b in eligible && JsAgreements.WritesKey(w, b, k) ==> !SortsBefore(a0, b));
    a, p := a0, p0;
    WinnerRow(rows, cm, a, p, k, m[k]);
    forall b | b in eligible && HasRowOfType(rows, b, k) ensures !SortsBefore(a, b) {
      RowWritesKey(rows, cm, b, k);
    }
  }

  /** The entry of a clause type comes from a clause row of that type of an eligible agreement,
      carrying that agreement's id, title and date and `clauseMap`'s view of the row; no later row
      of that agreement has the type, and no other eligible agreement with a row of that type sorts
      after it. */
  lemma LastWriterWinsEntry(
    agreementTable: seq<AgreementRow>, clauseTable: seq<ClauseRow>, termRows: seq<TermRow>,
    investorId: string, fundId: Option<string>, k: string)
    requires investorId != ""
    requires k in EffectiveTermsOf(agreementTable, clauseTable, termRows, Some(investorId), fundId).value
    ensures var rows := QueriedRows(agreementTable, clauseTable, investorId, fundId);
            var cm := JsAgreements.LastWins(ClauseMapWrites(rows, termRows));
            exists a, p :: && a in EligibleAgreements(agreementTable, investorId, fundId)
                           && 0 <= p < |OwnRows(rows, a)| && OwnRows(rows, a)[p].clauseTypeName == k
                           && EffectiveTermsOf(agreementTable, clauseTable, termRows, Some(investorId), fundId).value[k]
                              == EntryOf(OwnRows(rows, a)[p], cm, a)
                           && (forall q :: p < q < |OwnRows(rows, a)| ==> OwnRows(rows, a)[q].clauseTypeName != k)
                           && (forall b :: b in EligibleAgreements(agreementTable, investorId, fundId) && HasRowOfType(rows, b, k)
                                 ==> !SortsBefore(a, b))
  {
    var rows := QueriedRows(agreementTable, clauseTable, investorId, fundId);
    var a, p := FoldEntry(EligibleAgreements(agreementTable, investorId, fundId), rows, JsAgreements.LastWins(ClauseMapWrites(rows, termRows)), k);
  }

  /** Every clause row of the query has its view in `clauseMap`; when clause ids are unique (they
      are the table's key) it is the view of that very row. */
  lemma ClauseMapHasRow(rows: seq<ClauseRow>, termRows: seq<TermRow>, i: nat)
    requires i < |rows|
    ensures rows[i].id in JsAgreements.LastWins(ClauseMapWrites(rows, termRows))
    ensures (forall j :: 0 <= j < |rows| && rows[j].id == rows[i].id ==> j == i) ==>
              JsAgreements.LastWins(ClauseMapWrites(rows, termRows))[rows[i].id] == ViewOf(rows[i], termRows)
  {
    var w := ClauseMapWrites(rows, termRows);
    JsAgreements.LastWinsKeys(w, rows[i].id);
    assert w[i].0 == rows[i].id;
    if forall j :: 0 <= j < |rows| && rows[j].id == rows[i].id ==> j == i {
      JsAgreements.LastWinsValue(w, rows[i].id);
    }
  }

  lemma TermsForSnoc(rows: seq<TermRow>, row: TermRow, id: string)
    ensures TermsFor(rows + [row], id) == TermsFor(rows, id) + (if row.clauseId == id then [row] else [])
  {
    assert (rows + [row])[..|rows|] == rows;
  }

  /** The `termMap` grouping loop: for every clause id, the rows of that clause in order. */
  method GroupTerms(termRows: seq<TermRow>) returns (tm: map<string, seq<TermRow>>)
    ensures forall id :: Lookup(tm, id) == TermsFor(termRows, id)
  {
    tm := map[];
    var i := 0;
    while i < |termRows|
      invariant 0 <= i <= |termRows|
      invariant forall id :: Lookup(tm, id) == TermsFor(termRows[..i], id)
    {
      var row := termRows[i];
      assert termRows[..i + 1] == termRows[..i] + [row];
      ghost var before := tm;
      if row.clauseId !in tm {
        tm := tm[row.clauseId := []];
      }
      tm := tm[row.clauseId := tm[row.clauseId] + [row]];
      forall id ensures Lookup(tm, id) == TermsFor(termRows[..i + 1], id) {
        TermsForSnoc(termRows[..i], row, id);
        if id != row.clauseId {
          assert Lookup(tm, id) == Lookup(before, id);
        }
      }
      i := i + 1;
    }
    assert termRows[..i] == termRows;
  }

  /** One `clauseMap.set` more. */
  lemma ClauseMapStep(rows: seq<ClauseRow>, termRows: seq<TermRow>, i: nat)
    requires i < |rows|
    ensures JsAgreements.LastWins(ClauseMapWrites(rows, termRows)[..i + 1])
            == JsAgreements.LastWins(ClauseMapWrites(rows, termRows)[..i])[rows[i].id := ViewOf(rows[i], termRows)]
  {
    var w := ClauseMapWrites(rows, termRows);
    assert w[..i + 1] == w[..i] + [w[i]];
    JsAgreements.LastWinsSnoc(w[..i], w[i]);
  }

  /** The `clauseMap` loop. */
  method BuildClauseMap(rows: seq<ClauseRow>, termRows: seq<TermRow>, tm: map<string, seq<TermRow>>)
    returns (cm: map<string, ClauseView>)
    requires forall id :: Lookup(tm, id) == TermsFor(termRows, id)
    ensures cm == JsAgreements.LastWins(ClauseMapWrites(rows, termRows))
  {
    cm := map[];
    var i := 0;
    while i < |rows|
      invariant 0 <= i <= |rows|
      invariant cm == JsAgreements.LastWins(ClauseMapWrites(rows, termRows)[..i])
    {
      var r := rows[i];
      var term := NormalizeTerms(Lookup(tm, r.id));
      assert term == Normalize(TermsFor(termRows, r.id));
      ClauseMapStep(rows, termRows, i);
      cm := cm[r.id := ClauseView(r.clauseTypeName, r.text, term, r.agreementId)];
      i := i + 1;
    }
    assert ClauseMapWrites(rows, termRows)[..i] == ClauseMapWrites(rows, termRows);
  }

  /** The inner `filter(...).forEach` for one agreement. */
  method SetRows(m0: map<string, Entry>, ghost done: seq<(string, Entry)>, rows: seq<ClauseRow>,
                 cm: map<string, ClauseView>, a: AgreementRow) returns (m: map<string, Entry>)
    requires m0 == JsAgreements.LastWins(done)
    ensures m == JsAgreements.LastWins(done + RowWrites(rows, cm, a))
  {
    m := m0;
    var own := OwnRows(rows, a);
    var j := 0;
    assert done + RowWrites(rows, cm, a)[..0] == done;
    while j < |own|
      invariant 0 <= j <= |own|
      invariant m == JsAgreements.LastWins(done + RowWrites(rows, cm, a)[..j])
    {
      var r := own[j];
      RowsStep(done, rows, cm, a, j);
      m := m[r.clauseTypeName := EntryOf(r, cm, a)];
      j := j + 1;
    }
    assert RowWrites(rows, cm, a)[..j] == RowWrites(rows, cm, a);
  }

  /** One `effectiveMap.set` more inside the visit of `a`. */
  lemma RowsStep(done: seq<(string, Entry)>, rows: seq<ClauseRow>, cm: map<string, ClauseView>, a: AgreementRow, j: nat)
    requires j < |OwnRows(rows, a)|
    ensures JsAgreements.LastWins(done + RowWrites(rows, cm, a)[..j + 1])
            == JsAgreements.LastWins(done + RowWrites(rows, cm, a)[..j])
                 [OwnRows(rows, a)[j].clauseTypeName := EntryOf(OwnRows(rows, a)[j], cm, a)]
  {
    var w := RowWrites(rows, cm, a);
    assert w[..j + 1] == w[..j] + [w[j]];
    JsAgreements.LastWinsStep(done, w[..j], w[j]);
  }

  /** The outer `agreements.forEach` of the fold. */
  method FoldAgreements(sorted: seq<AgreementRow>, rows: seq<ClauseRow>, cm: map<string, ClauseView>)
    returns (m: map<string, Entry>)
    ensures m == JsAgreements.LastWins(FoldWrites(sorted, rows, cm))
  {
    m := map[];
    var i := 0;
    while i < |sorted|
      invariant 0 <= i <= |sorted|
      invariant m == JsAgreements.LastWins(FoldWrites(sorted[..i], rows, cm))
    {
      assert sorted[..i + 1][..i] == sorted[..i];
      m := SetRows(m, FoldWrites(sorted[..i], rows, cm), rows, cm, sorted[i]);
      i := i + 1;
    }
    assert sorted[..i] == sorted;
  }

  /** `GET /effective-terms` over the rows its three queries return. */
  method EffectiveTerms(
    agreementTable: seq<AgreementRow>, clauseTable: seq<ClauseRow>, termRows: seq<TermRow>,
    investorId: Option<string>, fundId: Option<string>) returns (r: Response<map<string, Entry>>)
    ensures r == EffectiveTermsOf(agreementTable, clauseTable, termRows, investorId, fundId)
  {
    if investorId.None? || investorId.value == "" {
      return HttpError(400, "investorId is required");
    }
    var sorted := Sorting.Sort(EligibleAgreements(agreementTable, investorId.value, fundId), SortsBefore);
    var rows := ClausesOf(clauseTable, Ids(sorted));
    var tm := GroupTerms(termRows);
    var cm := BuildClauseMap(rows, termRows, tm);
    var m := FoldAgreements(sorted, rows, cm);
    return Ok(m);
  }

  // ---------------------------------------------------------------------------------------
  // Email ingestion

  /** One entry of the webhook's `clauses` array. */
  datatype ClauseInput = ClauseInput(clauseType: Option<string>, text: Option<string>, tags: Option<seq<string>>, term: Option<TermInput>)

  /** The webhook's body; `clauses` is `[]` when the key is missing. */
  datatype EmailBody = EmailBody(
    investorId: Option<string>,
    fundId: Option<string>,
    agreementTitle: Option<string>,
    subject: Option<string>,
    from: Option<string>,
    s3Key: Option<string>,
    fileName: Option<string>,
    contentType: Option<string>,
    clauses: seq<ClauseInput>)

  /** The values of the `INSERT INTO agreements`. */
  datatype AgreementInsert = AgreementInsert(
    investorId: string, fundId: Option<string>, title: string, docType: string, status: string,
    effectiveDate: Option<int>, priority: int)

  /** The values of the `INSERT INTO documents`; `subject` is the metadata object's one field. */
  datatype DocumentInsert = DocumentInsert(
    agreementId: string, fileName: string, fileType: string, storageUrl: Option<string>,
    source: string, sourceRef: Option<string>, subject: Option<string>)

  /** What one clause of the webhook writes: its row, its tag names and its term rows. */
  datatype ClauseInsert = ClauseInsert(
    agreementId: string, clauseType: string, text: string, tags: set<string>, terms: seq<TermRow>)

  /** Everything the webhook writes and the reply `{agreementId, clausesCreated}`. */
  datatype Ingest = Ingest(
    agreement: AgreementInsert, document: Option<DocumentInsert>, clauses: seq<ClauseInsert>,
    agreementId: string, clausesCreated: nat)

  function TextOr(x: Option<string>, fallback: string): (r: string)
    ensures TruthyText(x) ==> r == x.value
    ensures !TruthyText(x) ==> r == fallback
  {
    if TruthyText(x) then x.value else fallback
  }

  /** `upsertTags`: the non-empty tag names, each mapped once. */
  function TagNames(tags: seq<string>): (r: set<string>)
    ensures forall t :: t in r <==> t in tags && t != ""
  {
    set t | t in tags && t != ""
  }

  /** The agreement the webhook inserts: an "Email" that is "Active", undated and of priority 3,
      titled by the agreement title, else the subject, else "Inbound Email". */
  function EmailAgreement(body: EmailBody, investorId: string): (a: AgreementInsert)
    ensures a.investorId == investorId && a.docType == "Email" && a.status == "Active"
    ensures a.effectiveDate == None && a.priority == 3
    ensures a.title != ""
    ensures TruthyText(body.agreementTitle) ==> a.title == body.agreementTitle.value
    ensures !TruthyText(body.agreementTitle) && TruthyText(body.subject) ==> a.title == body.subject.value
    ensures TruthyText(a.fundId) <==> TruthyText(body.fundId)
    ensures a.fundId.Some? ==> a.fundId == body.fundId
  {
    AgreementInsert(investorId, if TruthyText(body.fundId) then body.fundId else None,
                    TextOr(body.agreementTitle, TextOr(body.subject, "Inbound Email")), "Email", "Active", None, 3)
  }

  /** The document the webhook inserts when it is given an S3 key or a file name. */
  function EmailDocument(body: EmailBody, agreementId: string): (d: DocumentInsert)
    ensures d.agreementId == agreementId && d.source == "email" && d.subject == body.subject
    ensures d.fileName == if TruthyText(body.fileName) then body.fileName.value else "email.eml"
    ensures d.fileType == if TruthyText(body.contentType) then body.contentType.value else "message/rfc822"
    ensures d.storageUrl.Some? <==> TruthyText(body.s3Key)
    ensures d.storageUrl.Some? ==> d.storageUrl == body.s3Key
  {
    DocumentInsert(agreementId, TextOr(body.fileName, "email.eml"), TextOr(body.contentType, "message/rfc822"),
                   if TruthyText(body.s3Key) then body.s3Key else None, "email",
                   if TruthyText(body.from) then body.from else None, body.subject)
  }

  /** What the loop writes for one input clause: its row under the new agreement (type "Other"
      and empty text by default), its non-empty tags, and term rows of the new clause that read
      back as its term. */
  ghost predicate WritesClause(c: ClauseInput, ins: ClauseInsert, agreementId: string, clauseId: string) {
    && ins.agreementId == agreementId
    && ins.clauseType == TextOr(c.clauseType, "Other")
    && ins.text == TextOr(c.text, "")
    && ins.tags == TagNames(c.tags.GetOr([]))
    && (forall row :: row in ins.terms ==> row.clauseId == clauseId)
    && Normalize(ins.terms) == Defaulted(c.term.GetOr(TermInput(None, None, None, None)))
  }

  /** `POST /emails/ingest`: 400 without an investor id; otherwise the agreement, a document when
      an S3 key or file name is given, and one clause per input clause in order. `newAgreementId`
      and `newClauseId` stand for the ids the database returns. */
  method IngestEmail(body: EmailBody, newAgreementId: string, newClauseId: nat -> string) returns (r: Response<Ingest>)
    ensures r.HttpError? <==> !TruthyText(body.investorId)
    ensures r.HttpError? ==> r == HttpError(400, "investorId is required")
    ensures r.Ok? ==> r.value.agreement == EmailAgreement(body, body.investorId.value)
    ensures r.Ok? ==> (r.value.document.Some? <==> TruthyText(body.s3Key) || TruthyText(body.fileName))
    ensures r.Ok? && r.value.document.Some? ==> r.value.document.value == EmailDocument(body, newAgreementId)
    ensures r.Ok? ==> r.value.agreementId == newAgreementId
    ensures r.Ok? ==> r.value.clausesCreated == |body.clauses| == |r.value.clauses|
    ensures r.Ok? ==> forall i :: 0 <= i < |r.value.clauses| ==>
                        WritesClause(body.clauses[i], r.value.clauses[i], newAgreementId, newClauseId(i))
  {
    if !TruthyText(body.investorId) {
      return HttpError(400, "investorId is required");
    }
    var agreement := EmailAgreement(body, body.investorId.value);
    var document: Option<DocumentInsert> := None;
    if TruthyText(body.s3Key) || TruthyText(body.fileName) {
      document := Some(EmailDocument(body, newAgreementId));
    }
    var inserts: seq<ClauseInsert> := [];
    var i := 0;
    while i < |body.clauses|
      invariant 0 <= i <= |body.clauses|
      invariant |inserts| == i
      invariant forall k :: 0 <= k < i ==> WritesClause(body.clauses[k], inserts[k], newAgreementId, newClauseId(k))
    {
      var c := body.clauses[i];
      var termRows := UpsertTermRows(newClauseId(i), c.term.GetOr(TermInput(None, None, None, None)));
      TermInsertsOrder(newClauseId(i), c.term.GetOr(TermInput(None, None, None, None)));
      TermInsertsRoundTrip(newClauseId(i), c.term.GetOr(TermInput(None, None, None, None)));
      var ins := ClauseInsert(newAgreementId, TextOr(c.clauseType, "Other"), TextOr(c.text, ""),
                              TagNames(c.tags.GetOr([])), termRows);
      assert WritesClause(c, ins, newAgreementId, newClauseId(i));
      inserts := inserts + [ins];
      i := i + 1;
    }
    r := Ok(Ingest(agreement, document, inserts, newAgreementId, |body.clauses|));
  }
}
