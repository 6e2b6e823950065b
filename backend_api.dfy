/** The request handling of the Flask backend that is not database plumbing: the priority table
    `derive_priority`, the defaults of `POST /documents`, the validation and mock fallback of
    `POST /extract`, and the approved-filter of `POST /extract/apply`. The database is passed in
    as the sets of existing ids, ids it assigns are parameters, and `parse_date` is applied
    outside the model (dates arrive parsed). */
module BackendApi {
  import opened Wrappers
  import Text
  import Ranking
  import Extraction

  // ---------------------------------------------------------------------------------------
  // The priority table (app.py copy)

  const PriorityMap: map<string, int> :=
    map["Amendment" := 4, "Side Letter" := 3, "Fee Schedule" := 3, "Subscription Agreement" := 2, "PPM" := 1]

  /** `derive_priority(doc_type)`: `priority_map.get(doc_type, 1)`; a `None` type is not a key. */
  function DerivePriority(docType: Option<string>): (p: int)
    ensures docType.Some? ==> p == Ranking.PriorityOf(docType.value)
    ensures docType.None? ==> p == 1
  {
    if docType.Some? && docType.value in PriorityMap then PriorityMap[docType.value] else 1
  }

  // ---------------------------------------------------------------------------------------
  // Reading a JSON body

  /** `data.get(key, default)`: the default only for a missing key; `null` reads as `None`. */
  function GetOr<T>(f: Field<T>, default: T): (r: Option<T>)
    ensures f.Absent? ==> r == Some(default)
    ensures f.Null? ==> r.None?
    ensures f.Given? ==> r == Some(f.value)
  {
    match f
    case Absent => Some(default)
    case Null => None
    case Given(v) => Some(v)
  }

  /** `data.get(key)`. */
  function Get<T>(f: Field<T>): (r: Option<T>)
    ensures r.Some? <==> f.Given?
    ensures f.Given? ==> r.value == f.value
  {
    if f.Given? then Some(f.value) else None
  }

  // ---------------------------------------------------------------------------------------
  // POST /documents

  /** The fields of the request body `create_document` reads (`effectiveDate` already parsed). */
  datatype DocumentBody = DocumentBody(
    investorId: Field<int>, title: Field<string>, docType: Field<string>, status: Field<string>,
    effectiveDate: Option<int>, supersedesId: Field<int>, priority: Field<int>,
    sourceText: Field<string>, fileName: Field<string>, fileUrl: Field<string>)

  /** The stored document. The `investor_id` column is NOT NULL, and `status` has the column
      default "Active", which SQLAlchemy applies when the attribute is `None`. */
  datatype NewDocument = NewDocument(
    id: int, investorId: int, title: string, docType: Option<string>, status: string,
    effectiveDate: Option<int>, supersedesId: Option<int>, priority: int,
    sourceText: Option<string>, fileName: Option<string>, fileUrl: Option<string>)

  /** `create_document` on a body and the investors that exist; `newId` is the id the database
      assigns. A `null` title fails inside `.strip()`, and a missing or `null` investor id fails
      the commit on the NOT NULL column; Flask answers both with 500. */
  function CreateDocument(body: DocumentBody, investors: set<int>, newId: int): Response<NewDocument> {
    var docType := GetOr(body.docType, "Side Letter");
    var investorId := Get(body.investorId);
    if investorId.Some? && investorId.value != 0 && investorId.value !in investors then
      HttpError(404, "Investor not found")
    else if body.title.Null? then
      HttpError(500, "Internal Server Error")
    else if investorId.None? then
      HttpError(500, "Internal Server Error")
    else
      var title := Text.StripPy(GetOr(body.title, "").value);
      var priority := Get(body.priority);
      var status := GetOr(body.status, "Active");
      Ok(NewDocument(
        newId, investorId.value,
        if title != "" then title else "Untitled Document",
        docType, if status.Some? then status.value else "Active", body.effectiveDate, Get(body.supersedesId),
        if priority.Some? && priority.value != 0 then priority.value else DerivePriority(docType),
        Get(body.sourceText), Get(body.fileName), Get(body.fileUrl)))
  }

  /** A body is rejected with 500 exactly when the investor check passes and the title is `null`
      or the investor id is missing or `null`; every other body is stored or answered with 404. */
  lemma CreateDocumentFails(body: DocumentBody, investors: set<int>, newId: int)
    ensures var r := CreateDocument(body, investors, newId);
            && (r == HttpError(500, "Internal Server Error")
                <==> !(body.investorId.Given? && body.investorId.value != 0 && body.investorId.value !in investors)
                     && (body.title.Null? || !body.investorId.Given?))
            && (r.Ok? <==> body.investorId.Given? && (body.investorId.value == 0 || body.investorId.value in investors)
                           && !body.title.Null?)
  {
  }

  /** A created document has the given investor id; it is a Side Letter when the type is missing
      and "Active" when the status is missing or `null`, and otherwise keeps the status sent; its
      title is the stripped one or "Untitled Document"; and its priority is the one sent unless
      that is missing or zero, when the type's priority is used. */
  lemma CreateDocumentDefaults(body: DocumentBody, investors: set<int>, newId: int)
    requires CreateDocument(body, investors, newId).Ok?
    ensures var d := CreateDocument(body, investors, newId).value;
            && d.id == newId
            && body.investorId == Given(d.investorId)
            && (body.docType.Absent? ==> d.docType == Some("Side Letter"))
            && (body.docType.Null? ==> d.docType.None?)
            && (body.docType.Given? ==> d.docType == Some(body.docType.value))
            && (!body.status.Given? ==> d.status == "Active")
            && (body.status.Given? ==> d.status == body.status.value)
            && d.title != ""
            && (body.title.Absent? ==> d.title == "Untitled Document")
            && (body.title.Given? && Text.StripPy(body.title.value) != "" ==> d.title == Text.StripPy(body.title.value))
            && (body.priority.Given? && body.priority.value != 0 ==> d.priority == body.priority.value)
            && (!(body.priority.Given? && body.priority.value != 0) ==> d.priority == DerivePriority(d.docType))
  {
    assert Text.StripPy("") == "";
  }

  /** A Side Letter sent without a priority gets 3, one without any type at all too. */
  lemma SideLetterPriority(body: DocumentBody, investors: set<int>, newId: int)
    requires body.docType.Absent? || body.docType == Given("Side Letter")
    requires !body.priority.Given? || body.priority.value == 0
    requires CreateDocument(body, investors, newId).Ok?
    ensures CreateDocument(body, investors, newId).value.priority == 3
  {
  }

  /** A given, non-zero investor id that does not exist is answered with 404, and only then. */
  lemma UnknownInvestor(body: DocumentBody, investors: set<int>, newId: int)
    ensures CreateDocument(body, investors, newId) == HttpError(404, "Investor not found")
            <==> body.investorId.Given? && body.investorId.value != 0 && body.investorId.value !in investors
  {
  }

  // ---------------------------------------------------------------------------------------
  // POST /extract

  /** The fields of the request body `extract_from_text` reads. */
  datatype ExtractBody = ExtractBody(text: Field<string>, mock: Field<bool>)

  /** What an AI provider answered: whether the dict has an "error" key and its value, and its
      "clauses" (missing, or a list). */
  datatype AiResponse = AiResponse(error: Option<string>, clauses: Option<seq<Extraction.ExtractedClause>>)

  /** The response body: the provider's dict, or the mock result with the provider's error
      attached as `ai_error` when it replaces a failed AI extraction. */
  datatype ExtractResult =
    | AiOutput(response: AiResponse)
    | MockOutput(result: Extraction.MockResult, aiError: Option<string>)

  /** The inputs of the mock that the regular-expression engine supplies. */
  datatype MockInputs = MockInputs(found: seq<seq<Extraction.RegexMatch>>, mfnContext: Option<string>,
                                   coInvestmentContext: Option<string>)

  predicate ValidMockInputs(text: string, m: MockInputs) {
    |m.found| == |Extraction.Patterns()| && forall i :: 0 <= i < |m.found| ==> Extraction.InText(text, m.found[i])
  }

  const TooShort := "Document text is too short (minimum 50 characters)"
  const TooLong := "Document text is too long (maximum 100,000 characters)"

  /** The text passes validation: present, at least 50 characters once stripped, and at most
      100,000 characters as sent. */
  predicate AcceptedText(text: Option<string>) {
    text.Some? && text.value != "" && |Text.StripPy(text.value)| >= 50 && |text.value| <= 100000
  }

  /** What `extract_clauses(text)` gave: the error dict of a failed selection, or the provider's
      answer `ai` when a provider was called. */
  function AiResult(outcome: Extraction.Outcome, ai: AiResponse): AiResponse {
    if outcome.Failure? then AiResponse(Some(outcome.error), Some([])) else ai
  }

  /** `extract_from_text`: validation, then the mock when asked for, else the AI with the mock
      as fallback when the AI result has an error and no clauses. */
  function ExtractFromText(body: ExtractBody, env: Extraction.Environment, ai: AiResponse, m: MockInputs)
    : Response<ExtractResult>
    requires body.text.Given? ==> ValidMockInputs(body.text.value, m)
  {
    var text := GetOr(body.text, "");
    if text.None? || text.value == "" || |Text.StripPy(text.value)| < 50 then HttpError(400, TooShort)
    else if |text.value| > 100000 then HttpError(400, TooLong)
    else
      var t := text.value;
      var useMock := GetOr(body.mock, false);
      var mock := Extraction.MockExtraction(t, m.found, m.mfnContext, m.coInvestmentContext);
      if useMock == Some(true) then Ok(MockOutput(mock, None))
      else
        var result := AiResult(Extraction.ExtractClauses(env, "auto"), ai);
        if result.error.Some? && (result.clauses.None? || result.clauses.value == []) then
          Ok(MockOutput(mock, result.error))
        else Ok(AiOutput(result))
  }

  /** The request is refused with 400 exactly when the text is not accepted, and the refusal
      names the length bound that failed. */
  lemma ExtractValidation(body: ExtractBody, env: Extraction.Environment, ai: AiResponse, m: MockInputs)
    requires body.text.Given? ==> ValidMockInputs(body.text.value, m)
    ensures ExtractFromText(body, env, ai, m).HttpError? <==> !AcceptedText(GetOr(body.text, ""))
    ensures ExtractFromText(body, env, ai, m).HttpError? ==> ExtractFromText(body, env, ai, m).status == 400
    ensures body.text.Given? && |body.text.value| > 100000 && |Text.StripPy(body.text.value)| >= 50
            ==> ExtractFromText(body, env, ai, m) == HttpError(400, TooLong)
  {
    if body.text.Given? && body.text.value == "" {
      assert Text.StripPy("") == "";
    }
  }

  /** Without `mock`, the mock answers exactly when the AI result carries an error and no
      clauses, and then it carries that error as `ai_error`; with no provider configured that is
      always the case. */
  lemma ExtractFallback(body: ExtractBody, env: Extraction.Environment, ai: AiResponse, m: MockInputs)
    requires body.text.Given? && ValidMockInputs(body.text.value, m)
    requires AcceptedText(Some(body.text.value)) && body.mock != Given(true)
    ensures var r := ExtractFromText(body, env, ai, m);
            var result := AiResult(Extraction.ExtractClauses(env, "auto"), ai);
            && r.Ok?
            && (r.value.MockOutput? <==> result.error.Some? && (result.clauses.None? || result.clauses.value == []))
            && (r.value.MockOutput? ==> r.value.aiError == result.error)
            && (r.value.AiOutput? ==> r.value.response == ai)
            && (Extraction.ExtractClauses(env, "auto").Failure? ==> r.value == MockOutput(
                  Extraction.MockExtraction(body.text.value, m.found, m.mfnContext, m.coInvestmentContext),
                  Some(Extraction.NoProvider)))
  {
    Extraction.AutoSelection(env);
  }

  // ---------------------------------------------------------------------------------------
  // POST /extract/apply

  /** The fields of one reviewed clause that `apply_extraction` reads (`effective_date` already
      parsed). */
  datatype ClauseData = ClauseData(
    approved: Field<bool>, clauseType: Field<string>, rate: Field<real>, threshold: Field<string>,
    thresholdAmount: Field<real>, discount: Field<real>, effectiveDate: Option<int>,
    sectionRef: Field<string>, pageNumber: Field<int>, clauseText: Field<string>, notes: Field<string>)

  /** The fields of the request body. */
  datatype ApplyBody = ApplyBody(documentId: Field<int>, clauses: Field<seq<ClauseData>>, sourceText: Field<string>)

  /** A clause row created for the document. */
  datatype NewClause = NewClause(
    documentId: int, clauseType: Option<string>, rate: Option<real>, threshold: Option<string>,
    thresholdAmount: Option<real>, discount: Option<real>, effectiveDate: Option<int>,
    sectionRef: Option<string>, pageNumber: Option<int>, clauseText: Option<string>, notes: Option<string>)

  /** The response: the message, the created clauses, and the document's source text after the
      request. */
  datatype Applied = Applied(message: string, created: seq<NewClause>, sourceText: Option<string>)

  /** `not clause_data.get("approved", True)` is false: missing counts as approved, `null` and
      `false` do not. */
  predicate Approved(c: ClauseData) {
    GetOr(c.approved, true) == Some(true)
  }

  function ClauseRow(documentId: int, c: ClauseData): NewClause {
    NewClause(documentId, GetOr(c.clauseType, "Other"), Get(c.rate), Get(c.threshold), Get(c.thresholdAmount),
              Get(c.discount), c.effectiveDate, Get(c.sectionRef), Get(c.pageNumber), Get(c.clauseText),
              GetOr(c.notes, ""))
  }

  /** The rows created for the approved entries, in their order. */
  function CreatedRows(documentId: int, cs: seq<ClauseData>): seq<NewClause>
    decreases |cs|
  {
    if cs == [] then []
    else CreatedRows(documentId, cs[..|cs| - 1])
         + if Approved(cs[|cs| - 1]) then [ClauseRow(documentId, cs[|cs| - 1])] else []
  }

  /** The loop that creates a row for each approved entry and skips the others. */
  method CreateApprovedClauses(documentId: int, clauses: seq<ClauseData>) returns (created: seq<NewClause>)
    ensures created == CreatedRows(documentId, clauses)
  {
    created := [];
    for i := 0 to |clauses|
      invariant created == CreatedRows(documentId, clauses[..i])
    {
      assert clauses[..i + 1][..i] == clauses[..i];
      var clauseData := clauses[i];
      if !(GetOr(clauseData.approved, true) == Some(true)) {
        continue;
      }
      var clause := ClauseRow(documentId, clauseData);
      created := created + [clause];
    }
    assert clauses[..|clauses|] == clauses;
  }

  /** Each created row comes from an approved entry, every approved entry gives one, and the
      rows keep the entries' order: the rows are the approved entries' rows, position by
      position. */
  lemma {:induction false} CreatedRowsAreApproved(documentId: int, cs: seq<ClauseData>)
    ensures |CreatedRows(documentId, cs)| == |ApprovedEntries(cs)|
    ensures forall k :: 0 <= k < |CreatedRows(documentId, cs)| ==>
              CreatedRows(documentId, cs)[k] == ClauseRow(documentId, ApprovedEntries(cs)[k])
    decreases |cs|
  {
    if cs != [] {
      CreatedRowsAreApproved(documentId, cs[..|cs| - 1]);
    }
  }

  /** The approved entries, in order. */
  function ApprovedEntries(cs: seq<ClauseData>): (r: seq<ClauseData>)
    ensures forall k :: 0 <= k < |r| ==> Approved(r[k]) && r[k] in cs
    decreases |cs|
  {
    if cs == [] then []
    else ApprovedEntries(cs[..|cs| - 1]) + if Approved(cs[|cs| - 1]) then [cs[|cs| - 1]] else []
  }

  /** An entry with `approved: false` or `null` creates nothing; one without the key, or with
      `true`, creates its row. */
  lemma ApprovedSingle(documentId: int, c: ClauseData)
    ensures c.approved.Absent? || c.approved == Given(true) <==> CreatedRows(documentId, [c]) == [ClauseRow(documentId, c)]
    ensures c.approved.Null? || c.approved == Given(false) <==> CreatedRows(documentId, [c]) == []
  {
    assert [c][..0] == [];
    assert CreatedRows(documentId, [c]) == if Approved(c) then [ClauseRow(documentId, c)] else [];
    if c.approved.Given? && !c.approved.value {
      assert c.approved == Given(false);
      assert !Approved(c);
    }
  }

  /** `apply_extraction` on a body and the documents that exist, given the document's current
      source text `storedText`. Iterating a `null` clause list fails, which Flask answers with
      500. */
  function ApplyExtraction(body: ApplyBody, documents: set<int>, storedText: Option<string>): Response<Applied> {
    var documentId := Get(body.documentId);
    if documentId.None? || documentId.value == 0 then HttpError(400, "documentId is required")
    else if documentId.value !in documents then HttpError(404, "Not Found")
    else
      var sourceText := Get(body.sourceText);
      var text := if sourceText.Some? && sourceText.value != "" then sourceText else storedText;
      match GetOr(body.clauses, [])
      case None => HttpError(500, "Internal Server Error")
      case Some(cs) =>
        var created := CreatedRows(documentId.value, cs);
        Ok(Applied("Created " + Text.IntToString(|created|) + " clauses", created, text))
  }

  /** A missing or zero `documentId` is refused with 400 before anything else; otherwise the
      approved entries are created and a non-empty source text replaces the stored one. */
  lemma ApplyExtractionContract(body: ApplyBody, documents: set<int>, storedText: Option<string>)
    ensures !(body.documentId.Given? && body.documentId.value != 0)
            <==> ApplyExtraction(body, documents, storedText) == HttpError(400, "documentId is required")
    ensures ApplyExtraction(body, documents, storedText).Ok? ==>
              && body.documentId.Given? && body.documentId.value in documents
              && ApplyExtraction(body, documents, storedText).value.created
                 == CreatedRows(body.documentId.value, GetOr(body.clauses, []).value)
              && (body.sourceText.Given? && body.sourceText.value != ""
                  ==> ApplyExtraction(body, documents, storedText).value.sourceText == Some(body.sourceText.value))
              && (!(body.sourceText.Given? && body.sourceText.value != "")
                  ==> ApplyExtraction(body, documents, storedText).value.sourceText == storedText)
  {
  }
}
