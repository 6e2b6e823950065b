/** The in-memory Express server (`server.js`). Its `store` is a plain object whose arrays the
    handlers change with `unshift`; the effective-terms handler filters the agreements, sorts a
    copy by date and priority, and folds the clauses into a `Map` so the last clause written for a
    type wins. Request bodies are modelled field by field: `None` stands for a missing key and for
    any value `||` treats as falsy. */
module MemoryServer {
  import opened Wrappers
  import Text
  import Sorting
  import Ranking
  import JsAgreements

  // ---------------------------------------------------------------------------------------
  // Data

  datatype Term = Term(rate: real, threshold: string, discount: real, notes: string)

  datatype Clause = Clause(id: string, clauseType: string, tags: seq<string>, text: string, term: Term)

  /** A stored agreement; `effectiveDate` is the timestamp of the stored date string, `None` for
      `null`. `investorId` is whatever the request carried, so it may be missing. */
  datatype Agreement = Agreement(
    id: string,
    investorId: Option<string>,
    fundId: Option<string>,
    title: string,
    docType: string,
    status: string,
    effectiveDate: Option<int>,
    supersedesId: string,
    priority: int,
    clauses: seq<Clause>)

  /** The body of `POST /agreements`. */
  datatype AgreementBody = AgreementBody(
    investorId: Option<string>,
    fundId: Option<string>,
    title: Option<string>,
    docType: Option<string>,
    status: Option<string>,
    effectiveDate: Option<int>,
    supersedesId: Option<string>,
    priority: Option<int>)

  /** The `term` object of a clause body. */
  datatype TermBody = TermBody(rate: Option<real>, threshold: Option<string>, discount: Option<real>, notes: Option<string>)

  /** The body of `POST /agreements/:agreementId/clauses`. */
  datatype ClauseBody = ClauseBody(
    clauseType: Option<string>,
    tags: Option<seq<string>>,
    text: Option<string>,
    term: Option<TermBody>)

  // ---------------------------------------------------------------------------------------
  // Priority table (server.js copy)

  const PriorityTable: map<string, int> :=
    map["Amendment" := 4, "Side Letter" := 3, "Fee Schedule" := 3, "Subscription Agreement" := 2, "PPM" := 1]

  /** `derivePriority(docType = "")`: a missing type takes the default parameter, and a key the
      object literal lacks reads as `undefined`, which `|| 1` replaces. */
  function DerivePriority(docType: Option<string>): (p: int)
    ensures p == Ranking.PriorityOf(docType.GetOr(""))
  {
    var k := docType.GetOr("");
    var v := if k in PriorityTable then PriorityTable[k] else 0;
    if v != 0 then v else 1
  }

  /** `value || fallback` on a string that may be missing. */
  function OrElse(value: Option<string>, fallback: string): (r: string)
    ensures value.Some? && value.value != "" ==> r == value.value
    ensures value.None? || value.value == "" ==> r == fallback
  {
    match value
    case Some(v) => if v != "" then v else fallback
    case None => fallback
  }

  // ---------------------------------------------------------------------------------------
  // Creating agreements and clauses

  /** The agreement `POST /agreements` stores: the trimmed title or "Untitled agreement", type
      "Side Letter" and status "Active" by default, an empty fund id read as `null`, no clauses,
      and `Number(priority || 0) || derivePriority(docType)` on the type as sent. */
  function NewAgreement(body: AgreementBody, newId: string): Agreement {
    Agreement(
      newId,
      body.investorId,
      if body.fundId == Some("") then None else body.fundId,
      OrElse(match body.title case Some(t) => Some(Text.TrimJs(t)) case None => None, "Untitled agreement"),
      OrElse(body.docType, "Side Letter"),
      OrElse(body.status, "Active"),
      body.effectiveDate,
      OrElse(body.supersedesId, ""),
      JsAgreements.PriorityKey(body.priority.GetOr(0), DerivePriority(body.docType)),
      [])
  }

  /** What a new agreement is: it has the new id, no clauses, non-empty title, type and status, a
      fund id that is missing or non-empty, and a non-zero priority that is the one sent when that
      is non-zero and the table's value for the type sent otherwise. */
  lemma NewAgreementDefaults(body: AgreementBody, newId: string)
    ensures var a := NewAgreement(body, newId);
      && a.id == newId && a.clauses == [] && a.investorId == body.investorId
      && a.title != "" && a.docType != "" && a.status != "" && a.fundId != Some("")
      && (body.title.Some? && Text.TrimJs(body.title.value) != "" ==> a.title == Text.TrimJs(body.title.value))
      && (body.docType.None? ==> a.docType == "Side Letter")
      && (body.status.None? ==> a.status == "Active")
      && a.priority != 0
      && (body.priority.Some? && body.priority.value != 0 ==> a.priority == body.priority.value)
      && (body.priority.None? || body.priority.value == 0 ==> a.priority == Ranking.PriorityOf(body.docType.GetOr("")))
  {
  }

  /** The priority is derived from the type as sent, not from the defaulted one: an agreement
      created without a type is stored as a Side Letter of priority 1, below the 3 a Side Letter
      sent by name gets. */
  lemma UntypedAgreementRanksAsOne(newId: string)
    ensures var a := NewAgreement(AgreementBody(None, None, None, None, None, None, None, None), newId);
      a.docType == "Side Letter" && a.priority == 1
    ensures NewAgreement(AgreementBody(None, None, None, Some("Side Letter"), None, None, None, None), newId).priority == 3
  {
  }

  /** The clause `POST /agreements/:agreementId/clauses` stores: type "Other", no tags and empty
      text by default, and a term whose rates default to 0 and whose strings default to "". */
  function NewClause(body: ClauseBody, newId: string): (c: Clause)
    ensures c.id == newId && c.clauseType != ""
    ensures body.clauseType.None? ==> c.clauseType == "Other"
    ensures body.term.None? ==> c.term == Term(0.0, "", 0.0, "")
    ensures body.term.Some? ==> c.term.rate == body.term.value.rate.GetOr(0.0)
                                 && c.term.discount == body.term.value.discount.GetOr(0.0)
    ensures body.tags.Some? ==> c.tags == body.tags.value
    ensures body.tags.None? ==> c.tags == []
  {
    var t := match body.term case Some(t) => t case None => TermBody(None, None, None, None);
    Clause(
      newId,
      OrElse(body.clauseType, "Other"),
      body.tags.GetOr([]),
      OrElse(body.text, ""),
      Term(t.rate.GetOr(0.0), OrElse(t.threshold, ""), t.discount.GetOr(0.0), OrElse(t.notes, "")))
  }

  /** `store.agreements.find(item => item.id === agreementId)`: the first agreement with that id. */
  function FindAgreement(s: seq<Agreement>, id: string): (r: Option<nat>)
    ensures r.Some? ==> r.value < |s| && s[r.value].id == id && forall j :: 0 <= j < r.value ==> s[j].id != id
    ensures r.None? ==> forall j :: 0 <= j < |s| ==> s[j].id != id
    decreases |s|
  {
    if s == [] then None
    else if s[0].id == id then Some(0)
    else match FindAgreement(s[1..], id)
      case None => None
      case Some(i) => Some(i + 1)
  }

  // ---------------------------------------------------------------------------------------
  // Effective terms

  /** An agreement of that investor, of that fund when a fund id was given, not superseded. */
  predicate IsEligible(a: Agreement, investorId: string, fundId: Option<string>) {
    && a.investorId == Some(investorId)
    && (fundId.None? || fundId.value == "" || a.fundId == fundId)
    && a.status != "Superseded"
  }

  function EligibleAgreements(agreements: seq<Agreement>, investorId: string, fundId: Option<string>): seq<Agreement> {
    JsAgreements.Filter(agreements, (a: Agreement) => IsEligible(a, investorId, fundId))
  }

  lemma EligibleMember(agreements: seq<Agreement>, investorId: string, fundId: Option<string>, a: Agreement)
    ensures a in EligibleAgreements(agreements, investorId, fundId)
            <==> a in agreements && IsEligible(a, investorId, fundId)
  {
    JsAgreements.FilterMember(agreements, (a: Agreement) => IsEligible(a, investorId, fundId), a);
  }

  function KeyOf(a: Agreement): JsAgreements.SortKey {
    JsAgreements.SortKey(JsAgreements.DateKey(a.effectiveDate),
                         JsAgreements.PriorityKey(a.priority, DerivePriority(Some(a.docType))))
  }

  /** The comparator of the effective-terms sort returns a negative number. */
  predicate SortsBefore(a: Agreement, b: Agreement) {
    JsAgreements.KeyBefore(KeyOf(a), KeyOf(b))
  }

  lemma SortsBeforeIsStrictWeakOrder()
    ensures Sorting.StrictWeakOrder(SortsBefore)
  {
  }

  /** What the response holds for a clause type. */
  datatype Entry = Entry(clause: Clause, agreementId: string, agreementTitle: string, effectiveDate: Option<int>)

  /** The `effectiveMap.set` calls made while visiting one agreement, in clause order. */
  function ClauseWrites(a: Agreement): (w: seq<(string, Entry)>)
    ensures |w| == |a.clauses|
    ensures forall j :: 0 <= j < |w| ==> w[j] == (a.clauses[j].clauseType, Entry(a.clauses[j], a.id, a.title, a.effectiveDate))
  {
    seq(|a.clauses|, j requires 0 <= j < |a.clauses| => (a.clauses[j].clauseType, Entry(a.clauses[j], a.id, a.title, a.effectiveDate)))
  }

  /** The answer of `GET /effective-terms`. */
  function EffectiveTermsOf(agreements: seq<Agreement>, investorId: Option<string>, fundId: Option<string>)
    : Response<map<string, Entry>>
  {
    if investorId.None? || investorId.value == "" then HttpError(400, "investorId is required")
    else
      var eligible := EligibleAgreements(agreements, investorId.value, fundId);
      Ok(JsAgreements.LastWins(JsAgreements.Writes(Sorting.Sort(eligible, SortsBefore), ClauseWrites)))
  }

  /** The request fails exactly when the investor id is missing or empty. */
  lemma InvestorRequired(agreements: seq<Agreement>, investorId: Option<string>, fundId: Option<string>)
    ensures EffectiveTermsOf(agreements, investorId, fundId).HttpError?
            <==> investorId.None? || investorId.value == ""
    ensures EffectiveTermsOf(agreements, investorId, fundId).HttpError? ==>
              EffectiveTermsOf(agreements, investorId, fundId).status == 400
  {
  }

  /** An agreement carries a clause of type `k`. */
  predicate HasClauseOfType(a: Agreement, k: string) {
    exists q :: 0 <= q < |a.clauses| && a.clauses[q].clauseType == k
  }

  lemma WritesKeyIsClauseType(a: Agreement, k: string)
    ensures JsAgreements.WritesKey(ClauseWrites, a, k) <==> HasClauseOfType(a, k)
  {
    if HasClauseOfType(a, k) {
      var q :| 0 <= q < |a.clauses| && a.clauses[q].clauseType == k;
      assert ClauseWrites(a)[q].0 == k;
    }
  }

  /** The resolver's rule: a clause type is in the response exactly when an eligible agreement has
      a clause of that type; its entry carries a clause of that type from an eligible agreement
      together with that agreement's id, title and date; the clause is the last of that type in its
      agreement, and no other eligible agreement with that type sorts after it. */
  lemma LastWriterWins(agreements: seq<Agreement>, investorId: string, fundId: Option<string>, k: string)
    requires investorId != ""
    ensures k in EffectiveTermsOf(agreements, Some(investorId), fundId).value
            <==> exists a :: a in EligibleAgreements(agreements, investorId, fundId) && HasClauseOfType(a, k)
    ensures k in EffectiveTermsOf(agreements, Some(investorId), fundId).value ==>
              var e := EffectiveTermsOf(agreements, Some(investorId), fundId).value[k];
              exists a, q :: && a in EligibleAgreements(agreements, investorId, fundId)
                             && 0 <= q < |a.clauses| && e == Entry(a.clauses[q], a.id, a.title, a.effectiveDate)
                             && e.clause.clauseType == k
                             && (forall q' :: q < q' < |a.clauses| ==> a.clauses[q'].clauseType != k)
                             && (forall b :: b in EligibleAgreements(agreements, investorId, fundId) && HasClauseOfType(b, k)
                                   ==> !SortsBefore(a, b))
  {
    var eligible := EligibleAgreements(agreements, investorId, fundId);
    assert EffectiveTermsOf(agreements, Some(investorId), fundId).value == Resolved(eligible);
    ResolvedKeys(eligible, k);
    if k in Resolved(eligible) {
      ResolvedEntry(eligible, k);
    }
  }

  /** The map the fold over the sorted agreements builds. */
  function Resolved(eligible: seq<Agreement>): map<string, Entry> {
    JsAgreements.LastWins(JsAgreements.Writes(Sorting.Sort(eligible, SortsBefore), ClauseWrites))
  }

  lemma ResolvedKeys(eligible: seq<Agreement>, k: string)
    ensures k in Resolved(eligible) <==> exists a :: a in eligible && HasClauseOfType(a, k)
  {
    JsAgreements.FoldSortedKeys(eligible, SortsBefore, ClauseWrites, k);
    if exists a :: a in eligible && HasClauseOfType(a, k) {
      var a :| a in eligible && HasClauseOfType(a, k);
      WritesKeyIsClauseType(a, k);
    }
    if exists a :: a in eligible && JsAgreements.WritesKey(ClauseWrites, a, k) {
      var a :| a in eligible && JsAgreements.WritesKey(ClauseWrites, a, k);
      WritesKeyIsClauseType(a, k);
    }
  }

  lemma ResolvedEntry(eligible: seq<Agreement>, k: string)
    requires k in Resolved(eligible)
    ensures exists a, q :: && a in eligible
                           && 0 <= q < |a.clauses| && Resolved(eligible)[k] == Entry(a.clauses[q], a.id, a.title, a.effectiveDate)
                           && a.clauses[q].clauseType == k
                           && (forall q' :: q < q' < |a.clauses| ==> a.clauses[q'].clauseType != k)
                           && (forall b :: b in eligible && HasClauseOfType(b, k) ==> !SortsBefore(a, b))
  {
    var m := Resolved(eligible);
    SortsBeforeIsStrictWeakOrder();
    JsAgreements.FoldSortedWinner(eligible, SortsBefore, ClauseWrites, k);
    var a, p :| a in eligible && 0 <= p < |ClauseWrites(a)| && ClauseWrites(a)[p] == (k, m[k])
                && (forall q :: p < q < |ClauseWrites(a)| ==> ClauseWrites(a)[q].0 != k)
                && (forall b :: b in eligible && JsAgreements.WritesKey(ClauseWrites, b, k) ==> !SortsBefore(a, b));
    assert m[k] == Entry(a.clauses[p], a.id, a.title, a.effectiveDate);
    forall b | b in eligible && HasClauseOfType(b, k) ensures !SortsBefore(a, b) {
      WritesKeyIsClauseType(b, k);
    }
  }

  /** The inner `forEach` of the effective-terms fold: one `set` per clause of `a`, in order. */
  method SetClauses(m0: map<string, Entry>, ghost done: seq<(string, Entry)>, a: Agreement) returns (m: map<string, Entry>)
    requires m0 == JsAgreements.LastWins(done)
    ensures m == JsAgreements.LastWins(done + ClauseWrites(a))
  {
    m := m0;
    var j := 0;
    assert done + ClauseWrites(a)[..0] == done;
    while j < |a.clauses|
      invariant 0 <= j <= |a.clauses|
      invariant m == JsAgreements.LastWins(done + ClauseWrites(a)[..j])
    {
      JsAgreements.LastWinsStep(done, ClauseWrites(a)[..j], ClauseWrites(a)[j]);
      assert ClauseWrites(a)[..j + 1] == ClauseWrites(a)[..j] + [ClauseWrites(a)[j]];
      m := m[a.clauses[j].clauseType := Entry(a.clauses[j], a.id, a.title, a.effectiveDate)];
      j := j + 1;
    }
    assert ClauseWrites(a)[..j] == ClauseWrites(a);
  }

  // ---------------------------------------------------------------------------------------
  // The store

  /** The seeded agreement: Mock Capital's side letter dated 2024-02-01 (timestamp 1706745600000)
      with its Management Fee clause. */
  function SeedAgreement(): Agreement {
    Agreement(
      "agr_side_letter_1", Some("inv_mock_capital"), Some("fund_mock_1"), "Mock Capital Side Letter",
      "Side Letter", "Active", Some(1706745600000), "", 3,
      [Clause("clause_mgmt_fee_1", "Management Fee", ["tiered discount", "step-down"],
              "Management Fee shall be reduced by 0.25% beginning in year four for commitments >= $250,000,000.",
              Term(1.75, "Commitment >= $250M", 0.25, "Step-down after year 4."))])
  }

  /** What every stored agreement satisfies: the defaults of the create handlers guarantee
      non-empty titles, types, statuses and clause types and a non-zero priority. */
  predicate WellFormed(a: Agreement) {
    && a.title != "" && a.docType != "" && a.status != "" && a.priority != 0
    && forall c :: c in a.clauses ==> c.clauseType != ""
  }

  /** Because a stored priority is never 0, the sort never consults the table. */
  lemma StoredPriorityIsKey(a: Agreement)
    requires WellFormed(a)
    ensures KeyOf(a).priority == a.priority
  {
  }

  /** The agreements of the server's `store` (its investors, funds and commitments are not part of
      this model). */
  class Store {
    var agreements: seq<Agreement>

    ghost predicate Valid()
      reads this
    {
      forall a :: a in agreements ==> WellFormed(a)
    }

    /** The store as the server starts. */
    constructor()
      ensures agreements == [SeedAgreement()]
      ensures Valid()
    {
      agreements := [SeedAgreement()];
    }

    /** `POST /agreements`: the new agreement is prepended and returned. */
    method CreateAgreement(body: AgreementBody, newId: string) returns (a: Agreement)
      requires Valid()
      modifies this
      ensures a == NewAgreement(body, newId)
      ensures agreements == [a] + old(agreements)
      ensures Valid()
    {
      a := NewAgreement(body, newId);
      NewAgreementDefaults(body, newId);
      agreements := [a] + agreements;
    }

    /** `POST /agreements/:agreementId/clauses`: 404 for an unknown agreement; otherwise the new
        clause is prepended to the first agreement with that id, and no other agreement changes. */
    method AddClause(agreementId: string, body: ClauseBody, newId: string) returns (r: Response<Clause>)
      requires Valid()
      modifies this
      ensures Valid()
      ensures |agreements| == |old(agreements)|
      ensures match FindAgreement(old(agreements), agreementId)
              case None => r == HttpError(404, "Agreement not found") && agreements == old(agreements)
              case Some(i) =>
                && r == Ok(NewClause(body, newId))
                && agreements == old(agreements)[i := old(agreements)[i].(clauses := [NewClause(body, newId)] + old(agreements)[i].clauses)]
    {
      var found := FindAgreement(agreements, agreementId);
      if found.None? {
        return HttpError(404, "Agreement not found");
      }
      var i := found.value;
      var c := NewClause(body, newId);
      var a := agreements[i];
      assert a in agreements;
      agreements := agreements[i := a.(clauses := [c] + a.clauses)];
      r := Ok(c);
    }

    /** `GET /effective-terms`: the store is only read (the sort works on a copy). */
    method EffectiveTerms(investorId: Option<string>, fundId: Option<string>) returns (r: Response<map<string, Entry>>)
      ensures r == EffectiveTermsOf(agreements, investorId, fundId)
    {
      if investorId.None? || investorId.value == "" {
        return HttpError(400, "investorId is required");
      }
      var eligible := EligibleAgreements(agreements, investorId.value, fundId);
      var sorted := Sorting.Sort(eligible, SortsBefore);
      var m: map<string, Entry> := map[];
      var i := 0;
      while i < |sorted|
        invariant 0 <= i <= |sorted|
        invariant m == JsAgreements.LastWins(JsAgreements.Writes(sorted[..i], ClauseWrites))
      {
        m := SetClauses(m, JsAgreements.Writes(sorted[..i], ClauseWrites), sorted[i]);
        JsAgreements.WritesSnoc(sorted, ClauseWrites, i);
        i := i + 1;
      }
      assert sorted[..i] == sorted;
      return Ok(m);
    }
  }
}
