# Agreement tracker: a verified model of its term-resolution core

The agreement tracker records the legal documents an investor has with a fund: the PPM, the
subscription agreement, side letters, amendments and fee schedules. For each investor it works
out the *effective terms*, meaning which clause of each type governs, and from those terms it
works out the management fee. The repository contains several implementations of this logic:

- `backend/terms_engine.py`, the Flask backend's resolver. It drops superseded documents,
  ranks candidates by document priority and then by effective date, and reports one winner per
  clause type. Every other candidate is reported as overridden, with a reason.
- Three JavaScript resolvers: the browser-only app (`app.js`), the in-memory Express server
  (`server.js`) and the Postgres-backed Express server (`api/server.js`). They follow a
  different rule. They filter out agreements with status "Superseded", sort ascending by date
  and then by priority, and let the last clause written for a type win.
- The fee calculator of the React front end (`FeeLogicView.tsx`), and the older fee card of
  `app.js`.
- The clause locator and highlighter of the documents page (`AgreementsDocuments.tsx`).
- The extraction service's provider selection and its pattern-matching fallback
  (`backend/extraction_service.py`).
- Request validation and defaults in the backend routes (`backend/app.py`).

The Dafny project has one module per source file plus shared modules:

| module | models |
|---|---|
| `Wrappers` | `Option`, a JSON field that is absent, `null` or given (`Field`), an HTTP response (`Response`) |
| `Text` | JavaScript and Python whitespace, `trim`/`strip`, ASCII lowercasing, `indexOf`, decimal digits |
| `Sorting` | a stable sort by a strict weak order, the contract of both Python's `sorted` and JavaScript's `Array.prototype.sort` |
| `Ranking` | the document-type priority table shared by all four copies of `derive_priority` |
| `TermsEngine` | `backend/terms_engine.py` |
| `JsAgreements` | what the three JavaScript resolvers share: filtering, the (date, priority) key, the last-writer-wins fold |
| `LocalApp` | `app.js` (state as a class `AppState`) |
| `MemoryServer` | `server.js` (the store as a class `Store`) |
| `PostgresApi` | `api/server.js` |
| `FeeLogic` | `frontend/src/pages/FeeLogicView.tsx` |
| `AgreementsView` | `frontend/src/pages/AgreementsDocuments.tsx` |
| `Extraction` | `backend/extraction_service.py` |
| `BackendApi` | `backend/app.py` |
| `CrossChecks` | the backend's seed investor run through the resolver and then the fee calculator |

The modelling choices, in brief:

- Database queries, request bodies and environment variables become parameters.
- A Python dict or JavaScript `Map` becomes a Dafny `map`.
- Rates are `real`.
- Dates are integers: Python dates as proleptic ordinals, JavaScript dates as their
  `getTime()` value, with a missing date mapped to 0.
- Every loop of the source is a method with loop invariants. Each such method is proved equal
  to a function over its inputs, and the lemmas state the source's properties about those
  functions.

## Model

| member | source | states |
|---|---|---|
| Ranking.PriorityOf | backend/app.py:839-848 | Amendment 4, Side Letter and Fee Schedule 3, Subscription Agreement 2, PPM and every other type 1; the result is always between 1 and 4 |
| BackendApi.DerivePriority | backend/app.py:839-848 | `derive_priority` is the shared table; a `None` type gets the default 1 |
| LocalApp.DerivePriority | app.js:671-680 | the browser app's copy of the table equals the shared table |
| MemoryServer.DerivePriority | server.js:208-217 | the in-memory server's copy equals the shared table, a missing type falling back to "" and so to 1 |
| PostgresApi.DerivePriority | api/server.js:483-492 | the Postgres server's copy equals the shared table, a missing type falling back to "" and so to 1 |
| Sorting.Sort | backend/terms_engine.py:74 | sorting keeps the length and is a permutation of the input |
| Sorting.Insert | backend/terms_engine.py:74 | one insertion step adds exactly the inserted element |
| Sorting.SortOrdered | backend/terms_engine.py:74 | under a strict weak order the output is ordered |
| Sorting.InsertOrdered | backend/terms_engine.py:74 | inserting into an ordered sequence keeps it ordered |
| Sorting.SortStable | backend/terms_engine.py:74 | the sort is stable: elements tied with any `y` keep their input order |
| Sorting.InsertStable | backend/terms_engine.py:74 | one insertion places a tied element after the elements it ties with |
| Sorting.SortFirst | backend/terms_engine.py:77 | the first element comes from the input, nothing ranks above it, and it is the first input element not ranked below it |
| Sorting.SortMember | app.js:628 | an element is in the sorted copy exactly when it is in the input |
| Sorting.TiedWithAppend | backend/terms_engine.py:74 | the elements tied with `x` in a concatenation are those of each part, in order |
| Sorting.FirstTied | backend/terms_engine.py:77 | the first element tied with `y` is preceded only by elements not tied with `y` |
| Text.TrimStart | app.js:514 | `trimStart` removes exactly a prefix of whitespace and stops at a non-space |
| Text.TrimEnd | app.js:514 | `trimEnd` removes exactly a suffix of whitespace and stops at a non-space |
| Text.StripPyTrimmed | backend/app.py:204 | Python's `strip()` result neither starts nor ends with whitespace and occurs inside its input |
| Text.Lower | frontend/src/pages/AgreementsDocuments.tsx:393-394 | lowercasing keeps the length and maps each character on its own |
| Text.IndexFrom | frontend/src/pages/AgreementsDocuments.tsx:352 | the search finds the first occurrence at or after `from`, or none exists |
| Text.ContainsIff | app.js:621 | `includes` holds exactly when the pattern occurs somewhere |
| Text.EmptyOccurs | frontend/src/pages/AgreementsDocuments.tsx:352 | the empty pattern is found at index 0 |
| Text.NatToString | backend/app.py:411 | the decimal rendering of a count is a non-empty string of digits |
| Text.NatToStringRoundTrip | frontend/src/pages/FeeLogicView.tsx:39 | parsing the decimal rendering of `n` gives back `n` |
| Text.IsJsSpace | frontend/src/pages/AgreementsDocuments.tsx:369 | defines the white space of JavaScript's `\s` and `trim`; `Text.TrimStart`, `Text.TrimEnd` and `AgreementsView.NormalizeSpaces` state what it removes |
| Text.IsPySpace | backend/app.py:204 | defines the characters Python's `str.isspace` accepts; `Text.StripPyTrimmed` states that `strip` removes exactly those at both ends |
| Text.TrimJs | app.js:514 | defines `String.prototype.trim` as the two trims; their contracts state what is removed |
| Text.StripPy | backend/app.py:204 | defines `str.strip()`; `Text.StripPyTrimmed` states the result has no white space at either end and occurs in the input |
| Text.IndexOf | frontend/src/pages/AgreementsDocuments.tsx:352 | defines `indexOf` from position 0; `Text.IndexFrom` states it is the first occurrence or none |
| TermsEngine.IndexSupersession | backend/terms_engine.py:34-39 | the loop builds exactly the reverse supersession index |
| TermsEngine.SupersededByIndexKeys | backend/terms_engine.py:36-39 | an id is in the index iff some document names it in `supersedes_id` |
| TermsEngine.SupersededByIndexLast | backend/terms_engine.py:39 | the index maps an id to the last document naming it |
| TermsEngine.DocCandidates | backend/terms_engine.py:45-53 | one candidate per clause of a document, in clause order |
| TermsEngine.CandidateSupersession | backend/terms_engine.py:51-52 | a candidate is superseded iff some document supersedes its document; `superseded_by_doc_id` is then the last such document, else `None` |
| TermsEngine.AllCandidatesFrom | backend/terms_engine.py:44-53 | every candidate is a clause of one of the input documents, paired with that document |
| TermsEngine.GroupClauses | backend/terms_engine.py:45-53 | appending one document's clauses keeps the grouping by type, with types in first-seen order |
| TermsEngine.GroupByType | backend/terms_engine.py:42-53 | `clauses_by_type` holds, for each type, exactly the candidates of that type in document and clause order |
| TermsEngine.OfTypeEmpty | backend/terms_engine.py:59-61 | a type has no candidates exactly when no candidate has that type, so the `continue` never fires |
| TermsEngine.ActiveMember | backend/terms_engine.py:64 | the active list holds exactly the candidates that are not superseded |
| TermsEngine.SupersededMember | backend/terms_engine.py:78 | the superseded list holds exactly the superseded candidates |
| TermsEngine.CompetingIs | backend/terms_engine.py:63-66 | if every candidate is superseded, all compete; otherwise exactly the active ones compete; a non-empty type always has competitors |
| TermsEngine.SortDate | backend/terms_engine.py:71-72 | an undated candidate, like one dated `date.min`, sorts after every dated one |
| TermsEngine.RanksAboveIsStrictWeakOrder | backend/terms_engine.py:69-74 | the key (priority descending, date descending, undated last) is a strict weak order |
| TermsEngine.Ranked | backend/terms_engine.py:74 | the ranked list is a permutation of the competitors |
| TermsEngine.WinnerRanksFirst | backend/terms_engine.py:69-77 | the winner competes, no competitor ranks above it, it has the highest priority, and it is the first competitor in input order among those it ties with |
| TermsEngine.SupersededWinsOnlyAsFallback | backend/terms_engine.py:63-66 | a superseded winner means every candidate of the type is superseded |
| TermsEngine.ActiveLoserBelowWinner | backend/terms_engine.py:77-78 | an active loser lost to an active winner that it does not rank above |
| TermsEngine.LosersSplit | backend/terms_engine.py:78 | the losers are the ranked tail, then the superseded candidates when the active ones competed |
| TermsEngine.SplitBySupersession | backend/terms_engine.py:64-78 | the active and superseded candidates together are all candidates |
| TermsEngine.SupersededNotInAll | backend/terms_engine.py:78 | when all candidates were ranked, the `not in sorted_candidates` part is empty |
| TermsEngine.SupersededNotInNone | backend/terms_engine.py:78 | when no superseded candidate was ranked, that part is all superseded candidates |
| TermsEngine.Partition | backend/terms_engine.py:77-78 | the winner and the losers together are exactly the candidates of the type, each once |
| TermsEngine.LosersCount | backend/terms_engine.py:78 | a type with `n` candidates has `n - 1` losers |
| TermsEngine.ResolveType | backend/terms_engine.py:63-78 | the winner and losers computed for one type are `Winner` and `Losers` of its candidates |
| TermsEngine.Reported | backend/terms_engine.py:84-87 | `float(x) if x else None`: a missing or zero amount is reported as `None`, any other as itself |
| TermsEngine.OverriddenList | backend/terms_engine.py:104-119 | one overridden entry per loser, in loser order |
| TermsEngine.OverriddenEntries | backend/terms_engine.py:102-119 | the loop appending overridden entries builds exactly that list |
| TermsEngine.ReasonTable | backend/terms_engine.py:131-147 | an active loser ranked below the winner never gets the bare "Lower priority"; the bare reason means the two are tied |
| TermsEngine.ReasonsAgreeWithRanking | backend/terms_engine.py:131-147 | a superseded loser's reason names the winner's title; an active loser's winner is active and not below it; the bare "Lower priority" appears only between tied candidates |
| TermsEngine.ResolvedEntries | backend/terms_engine.py:80-119 | each type's winner becomes its effective entry, and an overridden list exists iff there are losers |
| TermsEngine.ResolveTypes | backend/terms_engine.py:55-119 | the loop over the types fills `effective_terms` and `overridden_terms` with exactly those entries |
| TermsEngine.StepDownValue | backend/terms_engine.py:165-171 | the step-down cell shows the discount iff it is truthy, the threshold iff it is set and not "—", and both iff both are |
| TermsEngine.BuildTermsSummary | backend/terms_engine.py:150-226 | a summary row exists iff its clause type has a winner; each row credits the winner's document; MFN and co-investment always read "Enabled" |
| TermsEngine.CalculateEffectiveTerms | backend/terms_engine.py:18-128 | the method computes exactly `EffectiveTermsOf` of the documents, which the lemmas in this table describe |
| TermsEngine.NoDocuments | backend/terms_engine.py:30-31 | with no documents, terms, overridden and summary are all empty |
| TermsEngine.TypesOfAll | backend/terms_engine.py:42-53 | the candidates' types are exactly the clause types on the documents |
| TermsEngine.TermsKeys | backend/terms_engine.py:59-99 | the keys of `terms` are exactly the clause types on the investor's documents |
| TermsEngine.OverriddenKeys | backend/terms_engine.py:102-103 | a type is in `overridden` iff it has at least two candidates, and then the list has one entry fewer than the candidates |
| TermsEngine.SupersededByIndex | backend/terms_engine.py:34-39 | defines `superseded_by_map`; `TermsEngine.SupersededByIndexKeys` and `TermsEngine.SupersededByIndexLast` state its keys and values |
| TermsEngine.AllCandidates | backend/terms_engine.py:44-53 | defines the candidate list of every clause of every document; `TermsEngine.AllCandidatesFrom` states that each pairs a clause with its document |
| TermsEngine.OfType | backend/terms_engine.py:42-53 | defines one list of `clauses_by_type`; `TermsEngine.GroupByType` states the loop builds exactly these lists |
| TermsEngine.Active | backend/terms_engine.py:64 | defines `active_candidates`; `TermsEngine.ActiveMember` states that it holds exactly the candidates that are not superseded |
| TermsEngine.Competing | backend/terms_engine.py:63-66 | defines the fallback to all candidates; `TermsEngine.CompetingIs` states when it applies |
| TermsEngine.RanksAbove | backend/terms_engine.py:69-74 | defines the descending (priority, date) sort key; `TermsEngine.RanksAboveIsStrictWeakOrder` states it is a strict weak order |
| TermsEngine.Winner | backend/terms_engine.py:69-77 | defines `winner = sorted_candidates[0]`; `TermsEngine.WinnerRanksFirst` states it is maximal and first among its ties |
| TermsEngine.Losers | backend/terms_engine.py:78 | defines the `losers` list; `TermsEngine.LosersSplit` and `TermsEngine.Partition` state what it holds |
| TermsEngine.OverrideReasonFor | backend/terms_engine.py:131-147 | defines `get_override_reason`; `TermsEngine.ReasonTable` states its branch order and `TermsEngine.ReasonsAgreeWithRanking` that it agrees with the ranking |
| TermsEngine.EffectiveEntry | backend/terms_engine.py:81-99 | defines the `effective_terms` entry of a winner; `TermsEngine.ResolvedEntries` states the loop produces it |
| TermsEngine.OverriddenEntry | backend/terms_engine.py:104-119 | defines one `overridden_terms` entry; `TermsEngine.OverriddenList` states there is one per loser, in order |
| TermsEngine.AllTerms | backend/terms_engine.py:80-99 | defines the `effective_terms` dict; `TermsEngine.TermsKeys` states its keys |
| TermsEngine.AllOverridden | backend/terms_engine.py:102-119 | defines the `overridden_terms` dict; `TermsEngine.OverriddenKeys` states its keys and entry counts |
| TermsEngine.SummaryValueFor | backend/terms_engine.py:150-226 | defines the cell of each summary row; `TermsEngine.BuildTermsSummary` and `TermsEngine.StepDownValue` state what the rows show |
| TermsEngine.EffectiveTermsOf | backend/terms_engine.py:18-128 | defines what `calculate_effective_terms` returns; `TermsEngine.CalculateEffectiveTerms` is proved equal to it and `TermsEngine.TermsKeys`, `TermsEngine.OverriddenKeys` and `TermsEngine.NoDocuments` characterise it |
| JsAgreements.Filter | app.js:619 | `Array.prototype.filter` never lengthens its input |
| JsAgreements.FilterMember | app.js:619-623 | an element survives the filter iff it is in the input and satisfies the predicate |
| JsAgreements.FilterAll | app.js:619-623 | when every element satisfies the predicate, nothing is removed |
| JsAgreements.DateKey | app.js:629-630 | a missing date counts as 0, a present one as its value |
| JsAgreements.PriorityKey | app.js:632 | `priority \|\| derivePriority(docType)`: a non-zero stored priority is used, 0 falls back to the derived one |
| JsAgreements.KeyBeforeIsStrictWeakOrder | app.js:628-633 | the comparator (date ascending, then priority ascending) is a strict weak order |
| JsAgreements.LastWinsSnoc | app.js:637 | `Map.set` of a key overwrites its value and leaves the other keys alone |
| JsAgreements.LastWinsKeys | app.js:634-643 | a key is in the fold's map iff some write used it |
| JsAgreements.LastWinsValue | app.js:634-643 | the map holds, for each key, the value of the last write to that key |
| JsAgreements.LastWinsAppend | app.js:634-643 | folding two write sequences in turn is folding the first, then overriding with the second |
| JsAgreements.FoldKeys | server.js:190-200 | a clause type is in the nested fold's map iff some agreement writes it |
| JsAgreements.FoldWriter | server.js:190-200 | the map's entry for a type is the last write of its last writing agreement |
| JsAgreements.FoldWinnerIsLatest | server.js:184-200 | over a sorted list, the winning agreement sorts after or ties with every agreement that writes the type |
| JsAgreements.FoldSortedKeys | server.js:184-200 | after sorting, the keys are the types some input agreement writes |
| JsAgreements.FoldSortedWinner | server.js:184-200 | after sorting, each type's entry is the last write of an input agreement that no other writer of the type follows in the sort order |
| JsAgreements.KeyBefore | app.js:628-633 | defines the ascending (date, priority) comparator; `JsAgreements.KeyBeforeIsStrictWeakOrder` states it is a strict weak order |
| JsAgreements.LastWins | app.js:634-643 | defines a sequence of `Map.set` calls; `JsAgreements.LastWinsKeys` and `JsAgreements.LastWinsValue` state that each key holds its last write |
| JsAgreements.Writes | server.js:190-200 | defines the nested `forEach` writes; `JsAgreements.FoldWriter` states which agreement wrote each entry |
| LocalApp.EligibleMember | app.js:618-623 | an agreement is eligible iff it is the selected investor's, its fund contains the trimmed, lowercased filter (or the filter is empty), and it is not "Superseded" |
| LocalApp.SortsBeforeIsStrictWeakOrder | app.js:628-633 | the browser app's comparator is a strict weak order |
| LocalApp.ClauseWrites | app.js:636-642 | one map write per clause, keyed by its type and carrying the clause, the agreement and the index |
| LocalApp.WritesKeyIsClauseType | app.js:636-642 | an agreement writes a type iff it has a clause of that type |
| LocalApp.ResolvedKeys | app.js:634-643 | the fold's keys are the clause types of the eligible agreements |
| LocalApp.ResolvedEntry | app.js:628-643 | each entry is a clause of that type from an eligible agreement that no writer of the type sorts after, and it has the highest index of that type within its agreement |
| LocalApp.LastWriterWins | app.js:612-647 | when the view lists terms, its keys and entries are exactly those of the fold over the eligible agreements |
| LocalApp.SetClauses | app.js:636-642 | the inner `forEach` loop extends the map by exactly one agreement's writes |
| LocalApp.AppState.EffectiveTerms | app.js:612-647 | the method returns the view: no investor selected, no eligible agreement, no clause, or the folded terms |
| LocalApp.FeeCardRules | app.js:341-347 | the tier applies iff tier rate and threshold are truthy and the scenario reaches the threshold; the discounted rate is `max(rate - discount, 0)`, never negative and never above the scenario rate; the fee is scenario × rate / 100 |
| LocalApp.ReplaceAll | app.js:529 | `replaceAll` leaves no occurrence of the replaced character except those the replacement brings in |
| LocalApp.ReplaceAllAppend | app.js:529 | `replaceAll` distributes over concatenation |
| LocalApp.ReplaceAllAbsent | app.js:529 | replacing an absent character changes nothing |
| LocalApp.EscapeHtmlOneChar | app.js:527-534 | on one character the `replaceAll` chain gives that character's entity, or the character itself |
| LocalApp.EscapeHtmlIsPerChar | app.js:527-534 | because `&` is replaced first, the chain escapes each character independently |
| LocalApp.EscapeHtmlSafe | app.js:527-534 | the escaped output contains no raw `<`, `>`, `"` or `'` |
| LocalApp.EscapeHtmlRoundTrip | app.js:527-534 | unescaping the output gives back the input, so no character is lost or doubly escaped |
| LocalApp.Split | app.js:513 | `split(",")` gives at least one piece, and no piece contains a comma |
| LocalApp.SplitJoin | app.js:513 | joining the pieces with commas gives back the input |
| LocalApp.JoinSplit | app.js:513 | splitting a comma-join of comma-free pieces gives back those pieces |
| LocalApp.TrimmedPieces | app.js:514 | each piece is trimmed, in order |
| LocalApp.ToTagsClean | app.js:510-516 | every tag is non-empty, trimmed and comma-free |
| LocalApp.ToTagsOfJoin | app.js:510-516 | a list of clean tags survives joining with commas and `toTags` unchanged |
| LocalApp.WithoutRemovesExactly | app.js:455-463 | each `filter` keeps exactly the items whose id differs |
| LocalApp.FindAgreement | app.js:470 | `find` returns the first agreement with the id, or none exists |
| LocalApp.AppState.constructor | app.js:81-82 | the page state holds the investors, agreements and fee rules it was loaded with |
| LocalApp.AppState.RemoveItem | app.js:453-467 | only the collection named by the kind loses the items with the id; the other two are unchanged |
| LocalApp.AppState.RemoveClause | app.js:469-476 | an unknown agreement changes nothing; otherwise only that agreement loses the clauses with the id |
| LocalApp.IsEligible | app.js:618-623 | defines the eligibility filter; `LocalApp.EligibleMember` states the filtered list holds exactly the eligible agreements |
| LocalApp.ViewOf | app.js:612-647 | defines the effective-terms panel; `LocalApp.LastWriterWins`, `LocalApp.ResolvedKeys` and `LocalApp.ResolvedEntry` state its messages and entries |
| LocalApp.FeeCardOf | app.js:341-347 | defines the numbers of `renderFeeCard`; `LocalApp.FeeCardRules` states the tier, the floor at zero and the fee |
| LocalApp.EscapeHtml | app.js:527-534 | defines `escapeHtml`; `LocalApp.EscapeHtmlSafe` and `LocalApp.EscapeHtmlRoundTrip` state that no raw special character remains and that unescaping recovers the input |
| LocalApp.ToTags | app.js:510-516 | defines `toTags`; `LocalApp.ToTagsClean` and `LocalApp.ToTagsOfJoin` state the tags are clean and survive a join |
| MemoryServer.OrElse | server.js:134-137 | `value \|\| fallback` for strings: an empty or missing value takes the fallback |
| MemoryServer.NewAgreementDefaults | server.js:130-142 | a new agreement has the new id, no clauses, a trimmed title or "Untitled agreement", docType "Side Letter" and status "Active" by default, and a non-zero priority: the given one, else derived from the raw docType |
| MemoryServer.UntypedAgreementRanksAsOne | server.js:136-140 | with no docType the agreement is stored as a Side Letter but gets priority 1; an explicit Side Letter gets 3 |
| MemoryServer.NewClause | server.js:155-166 | type "Other", no tags, zero rate and discount, and empty threshold and notes by default |
| MemoryServer.FindAgreement | server.js:148-150 | `find` returns the first agreement with the id, or none exists |
| MemoryServer.Store.constructor | server.js:38-65 | the store starts with the seeded side letter |
| MemoryServer.Store.CreateAgreement | server.js:130-145 | the new agreement is prepended and nothing else changes |
| MemoryServer.Store.AddClause | server.js:147-169 | an unknown agreement gives 404 and no change; otherwise the clause is prepended to that agreement only |
| MemoryServer.StoredPriorityIsKey | server.js:188 | every stored agreement has a non-zero priority, so the sort uses it as is |
| MemoryServer.InvestorRequired | server.js:175-178 | the response is an error iff `investorId` is missing or empty, and the error is 400 |
| MemoryServer.EligibleMember | server.js:179-183 | an agreement is eligible iff its investor matches, its fund matches when a fund is given, and it is not "Superseded" |
| MemoryServer.SortsBeforeIsStrictWeakOrder | server.js:184-189 | the comparator is a strict weak order |
| MemoryServer.ClauseWrites | server.js:192-199 | one write per clause, carrying the agreement's id, title and effective date |
| MemoryServer.WritesKeyIsClauseType | server.js:192-199 | an agreement writes a type iff it has a clause of that type |
| MemoryServer.ResolvedKeys | server.js:190-200 | the fold's keys are the clause types of the eligible agreements |
| MemoryServer.ResolvedEntry | server.js:184-200 | each entry is a clause of that type, with its agreement's id, title and date, from an eligible agreement that no writer of the type sorts after, and the last such clause within that agreement |
| MemoryServer.LastWriterWins | server.js:172-202 | the response's keys and entries are those of the fold over the eligible agreements |
| MemoryServer.SetClauses | server.js:192-199 | the inner loop extends the map by exactly one agreement's writes |
| MemoryServer.Store.EffectiveTerms | server.js:172-202 | the handler returns the 400 or the fold, and does not reorder the store |
| MemoryServer.NewAgreement | server.js:130-142 | defines the agreement `POST /agreements` stores; `MemoryServer.NewAgreementDefaults` states its defaults |
| MemoryServer.IsEligible | server.js:179-183 | defines the eligibility filter; `MemoryServer.EligibleMember` states the filtered list holds exactly the eligible agreements |
| MemoryServer.EffectiveTermsOf | server.js:172-202 | defines the response of `GET /effective-terms`; `MemoryServer.InvestorRequired`, `MemoryServer.ResolvedKeys` and `MemoryServer.ResolvedEntry` characterise it |
| PostgresApi.NumOrZero | api/server.js:475 | `Number(x \|\| 0)`: a truthy number is kept, anything else becomes 0 |
| PostgresApi.TextOrEmpty | api/server.js:476 | `x \|\| ""`: a truthy string is kept, anything else becomes "" |
| PostgresApi.LastOfType | api/server.js:474-479 | finds the last row of a term type, or none exists |
| PostgresApi.NormalizeLastWins | api/server.js:472-481 | each field of the normalised term is read from the last row of its type, or is the default when there is none; other types are ignored |
| PostgresApi.TermByFields | api/server.js:473 | two terms with the same four fields are equal |
| PostgresApi.NormalizeTerms | api/server.js:472-481 | the `forEach` loop computes exactly `Normalize` of the rows |
| PostgresApi.TypeAt | api/server.js:452-463 | the insert order is rate, threshold, discount, notes |
| PostgresApi.FieldRow | api/server.js:452-463 | each field gives one row iff it is truthy |
| PostgresApi.TermInsertsAt | api/server.js:452-463 | every insert row is the row of a truthy field, preceded by the rows of the earlier truthy fields |
| PostgresApi.TermInsertsOrder | api/server.js:452-463 | all rows name the clause, and their term types strictly follow the order rate, threshold, discount, notes |
| PostgresApi.TermInsertsContent | api/server.js:452-463 | a row of a type exists iff that field is truthy, and its value and unit are the field's (rate and discount as "percent") |
| PostgresApi.TermInsertsRoundTrip | api/server.js:449-481 | normalising the rows `upsertTerms` inserts gives back the term, falsy fields replaced by the defaults |
| PostgresApi.UpsertTermRows | api/server.js:449-463 | the pushes build exactly those rows |
| PostgresApi.InvestorRequired | api/server.js:273-276 | the response is an error iff `investorId` is missing or empty |
| PostgresApi.SortsBeforeIsStrictWeakOrder | api/server.js:285-290 | the in-place comparator is a strict weak order |
| PostgresApi.GroupTerms | api/server.js:298-303 | `termMap` lists, for every clause id, exactly its term rows in order |
| PostgresApi.ClauseMapWrites | api/server.js:305-311 | one `clauseMap` write per clause row, keyed by its id |
| PostgresApi.ClauseMapHasRow | api/server.js:304-312 | every clause row is in `clauseMap`, with its own view when its id is unique |
| PostgresApi.BuildClauseMap | api/server.js:304-312 | the loop builds exactly the last-wins map of those writes |
| PostgresApi.OwnRowsMember | api/server.js:316 | the per-agreement `filter` keeps exactly that agreement's clause rows |
| PostgresApi.RowWrites | api/server.js:315-324 | one write per own clause row, keyed by its clause type name |
| PostgresApi.RowWritesKey | api/server.js:315-324 | an agreement writes a type iff one of its rows has that type |
| PostgresApi.SetRows | api/server.js:315-324 | the inner loop extends the map by exactly one agreement's writes |
| PostgresApi.FoldAgreements | api/server.js:313-325 | the outer loop computes the fold over the sorted agreements |
| PostgresApi.LastWriterWinsKeys | api/server.js:270-327 | a type is in the response iff some eligible agreement has a queried clause row of that type |
| PostgresApi.FoldEntry | api/server.js:285-325 | the entry for a type is the last row of that type of an eligible agreement that no writer of the type sorts after |
| PostgresApi.LastWriterWinsEntry | api/server.js:270-327 | each response entry is the last row of its type of an eligible agreement not sorted before any other writer, with that row's clause view |
| PostgresApi.EffectiveTerms | api/server.js:270-327 | the handler returns exactly `EffectiveTermsOf` the tables and the query |
| PostgresApi.TextOr | api/server.js:372 | `x \|\| fallback` for strings |
| PostgresApi.TagNames | api/server.js:430-431 | the tags linked are exactly the non-empty given tags |
| PostgresApi.EmailAgreement | api/server.js:366-378 | an ingested agreement has type "Email", status "Active", no date and priority 3, and is titled by the agreement title, else the subject, else "Inbound Email" |
| PostgresApi.EmailDocument | api/server.js:380-394 | the document row defaults to "email.eml" and "message/rfc822", has source "email", and a storage URL iff an S3 key is given |
| PostgresApi.IngestEmail | api/server.js:348-410 | a missing `investorId` gives 400; otherwise a document is stored iff an S3 key or file name is given, and there is one created clause, with its tags and terms, per given clause |
| PostgresApi.Normalize | api/server.js:472-481 | defines `normalizeTerms`; `PostgresApi.NormalizeLastWins` states each field comes from the last row of its type |
| PostgresApi.TermInserts | api/server.js:452-463 | defines the `inserts` of `upsertTerms`; `PostgresApi.TermInsertsContent` and `PostgresApi.TermInsertsRoundTrip` state its rows and the round trip |
| PostgresApi.IsEligible | api/server.js:281-284 | defines the eligibility filter; `PostgresApi.LastWriterWinsKeys` states which agreements contribute |
| PostgresApi.ViewOf | api/server.js:306-311 | defines the `clauseMap` value of a clause row; `PostgresApi.ClauseMapHasRow` states every row's view is present |
| PostgresApi.EffectiveTermsOf | api/server.js:270-327 | defines the response of `GET /effective-terms`; `PostgresApi.InvestorRequired`, `PostgresApi.LastWriterWinsKeys` and `PostgresApi.LastWriterWinsEntry` characterise it |
| FeeLogic.DigitsOnly | frontend/src/pages/FeeLogicView.tsx:38 | `replace(/[^0-9]/g, '')` keeps only digits |
| FeeLogic.DigitsOnlyAppend | frontend/src/pages/FeeLogicView.tsx:38 | the digit filter distributes over concatenation |
| FeeLogic.DigitsOnlyOfDigits | frontend/src/pages/FeeLogicView.tsx:38 | a string of digits passes the filter unchanged |
| FeeLogic.ParseCommitmentRoundTrip | frontend/src/pages/FeeLogicView.tsx:37-40 | parsing the decimal rendering of a whole amount gives it back |
| FeeLogic.ParseCommitmentIgnoresNonDigits | frontend/src/pages/FeeLogicView.tsx:37-40 | inserting a non-digit anywhere, such as a thousands separator, does not change the parsed amount |
| FeeLogic.ParseCommitmentNoDigits | frontend/src/pages/FeeLogicView.tsx:39 | input without digits parses to 0 |
| FeeLogic.FirstDigitAt | frontend/src/pages/FeeLogicView.tsx:81 | finds the position of the first digit, or the end when there is none |
| FeeLogic.LeadingDigits | frontend/src/pages/FeeLogicView.tsx:81 | takes the longest prefix of digits |
| FeeLogic.FirstDigitRun | frontend/src/pages/FeeLogicView.tsx:81 | `match(/(\d+)/)` fails iff there is no digit; otherwise it is the maximal non-empty digit run starting at the first digit |
| FeeLogic.StepDownYear | frontend/src/pages/FeeLogicView.tsx:81-82 | a threshold without digits gives step-down year 4 |
| FeeLogic.StepDownYearReadsNumber | frontend/src/pages/FeeLogicView.tsx:81-82 | a threshold whose first digits are the decimal rendering of `n`, not followed by another digit, gives step-down year `n` |
| FeeLogic.TermFor | frontend/src/pages/FeeLogicView.tsx:61 | `terms?.terms?.[type]` is present iff terms are loaded and contain the type |
| FeeLogic.TruthyNumber | frontend/src/pages/FeeLogicView.tsx:62 | a number is truthy iff it is present and not 0 |
| FeeLogic.SumRatesSnoc | frontend/src/pages/FeeLogicView.tsx:103 | the `reduce` sum grows by the rate of each appended entry |
| FeeLogic.CalculateFees | frontend/src/pages/FeeLogicView.tsx:50-130 | the base rate, the discount entries (waiver, then step-down), the effective rate as base plus the sum of the negated entries, the fee at that rate, and the projection |
| FeeLogic.ProjectStepDowns | frontend/src/pages/FeeLogicView.tsx:78-100 | the projection pushes build exactly `StepDowns` |
| FeeLogic.ApplyStepDown | frontend/src/pages/FeeLogicView.tsx:107-119 | the step-down entry is appended, and the rate lowered by its discount, exactly from the step-down year on; rate minus summed entries is unchanged |
| FeeLogic.StepDowns | frontend/src/pages/FeeLogicView.tsx:79-99 | the projection is empty iff the step-down does not apply; otherwise it ends with "Years Y+" and has a leading "Years 1-(Y−1)" iff the year is before Y; every fee is at its own rate |
| FeeLogic.EffectiveRateIs | frontend/src/pages/FeeLogicView.tsx:67-119 | effective rate = base − waiver − (step-down discount from year Y on), with no clamp; at most two entries; a waiver entry comes first iff there is a waiver; a step-down entry comes last iff it is in force |
| FeeLogic.PreStepDownRateAsWritten | frontend/src/pages/FeeLogicView.tsx:85-86 | before year Y the projection's first rate is base + waiver, not base − waiver, because the negated entries are subtracted again; the second is that minus the step-down discount |
| FeeLogic.ZeroCommitment | frontend/src/pages/FeeLogicView.tsx:92-121 | a zero commitment gives a zero fee and zero projected fees |
| FeeLogic.NoTermsDefaults | frontend/src/pages/FeeLogicView.tsx:56-64 | with no terms the base rate is 2.0 and there is neither a waiver nor a step-down |
| FeeLogic.ParseCommitmentInput | frontend/src/pages/FeeLogicView.tsx:37-40 | defines `parseCommitmentInput`; `FeeLogic.ParseCommitmentRoundTrip` and `FeeLogic.ParseCommitmentIgnoresNonDigits` state its round trip and that separators are ignored |
| FeeLogic.BaseRate | frontend/src/pages/FeeLogicView.tsx:61-64 | defines the base rate; `FeeLogic.CalculateFees` and `FeeLogic.NoTermsDefaults` state it is the truthy Management Fee rate or 2.0 |
| FeeLogic.Waiver | frontend/src/pages/FeeLogicView.tsx:67-68 | defines the truthy fee-waiver discount; `FeeLogic.EffectiveRateIs` states how it lowers the rate |
| FeeLogic.StepDownTerm | frontend/src/pages/FeeLogicView.tsx:78-79 | defines the Fee Step-Down term the calculator reads; `FeeLogic.ApplyStepDown` states when its discount applies |
| FeeLogic.WaiverEntries | frontend/src/pages/FeeLogicView.tsx:67-75 | defines the "Fee Discount" entry; `FeeLogic.EffectiveRateIs` states the entry order and count |
| FeeLogic.StepDownEntries | frontend/src/pages/FeeLogicView.tsx:107-119 | defines the step-down entry; `FeeLogic.ApplyStepDown` states it is present exactly from the step-down year |
| FeeLogic.SumRates | frontend/src/pages/FeeLogicView.tsx:103 | defines the `reduce` sum; `FeeLogic.SumRatesSnoc` states it is additive |
| AgreementsView.Collapse | frontend/src/pages/AgreementsDocuments.tsx:358-359 | collapsing whitespace runs empties only the empty string, and ends in a space iff the input ends in whitespace |
| AgreementsView.NormalizeSource | frontend/src/pages/AgreementsDocuments.tsx:363-382 | the normalised text and the position map have the same length |
| AgreementsView.NormalizePositions | frontend/src/pages/AgreementsDocuments.tsx:363-382 | the position map is strictly increasing and points into the source |
| AgreementsView.NormalizeChars | frontend/src/pages/AgreementsDocuments.tsx:363-382 | each normalised character is the source character it maps to, or a space standing for whitespace |
| AgreementsView.NormalizeSpaces | frontend/src/pages/AgreementsDocuments.tsx:363-382 | the normalised text has no leading space and no two consecutive spaces |
| AgreementsView.SingleSpacedAppend | frontend/src/pages/AgreementsDocuments.tsx:368-377 | one loop step keeps the text single-spaced |
| AgreementsView.NormalizeSourceIsCollapse | frontend/src/pages/AgreementsDocuments.tsx:358-382 | the loop's text is the regex normalisation without its leading space |
| AgreementsView.NormalizeSourceTrimmed | frontend/src/pages/AgreementsDocuments.tsx:358-382 | trimming the loop's text gives the same string as normalising the search text |
| AgreementsView.FindTextWithNormalizedMatch | frontend/src/pages/AgreementsDocuments.tsx:350-404 | the method returns exactly `FindMatch`: exact, then normalised, then lowercased normalised, then not found |
| AgreementsView.ExactMatchFirst | frontend/src/pages/AgreementsDocuments.tsx:352-355 | when the search text occurs, the result is its first occurrence and spans its length |
| AgreementsView.MatchBounds | frontend/src/pages/AgreementsDocuments.tsx:385-391 | a found range lies inside the source and is empty only for an empty search text |
| AgreementsView.DegenerateMatch | frontend/src/pages/AgreementsDocuments.tsx:385-391 | the out-of-range `positionMap[-1]` read happens iff there is no exact match and the search normalises to "" |
| AgreementsView.NotFoundMeansAbsent | frontend/src/pages/AgreementsDocuments.tsx:403 | `null` means none of the three searches succeeds anywhere |
| AgreementsView.StripQuotes | frontend/src/pages/AgreementsDocuments.tsx:418 | at most one character is removed from each end, and unquoted text is unchanged |
| AgreementsView.StripQuotesRoundTrip | frontend/src/pages/AgreementsDocuments.tsx:418 | quoting a text on both sides and stripping gives it back |
| AgreementsView.StripQuotesInside | frontend/src/pages/AgreementsDocuments.tsx:418 | the stripped text occurs in the original, after the leading quote if there is one |
| AgreementsView.Slice | frontend/src/pages/AgreementsDocuments.tsx:444-463 | `slice` gives the substring in range and "" when the bounds are reversed |
| AgreementsView.Highlights | frontend/src/pages/AgreementsDocuments.tsx:413-434 | at most one highlight per clause, each inside the text |
| AgreementsView.CollectHighlights | frontend/src/pages/AgreementsDocuments.tsx:413-434 | the loop pushes exactly those highlights |
| AgreementsView.StartsBeforeIsStrictWeakOrder | frontend/src/pages/AgreementsDocuments.tsx:437 | ordering by start is a strict weak order |
| AgreementsView.PermutedInBounds | frontend/src/pages/AgreementsDocuments.tsx:437 | sorting keeps every highlight inside the text |
| AgreementsView.SegmentsCover | frontend/src/pages/AgreementsDocuments.tsx:440-472 | for chained highlights the plain and marked parts spell the text from `lastIndex` on |
| AgreementsView.SegmentsShown | frontend/src/pages/AgreementsDocuments.tsx:444-466 | one step of the segment loop shows the gap, then the highlight, then the rest |
| AgreementsView.ChainedTail | frontend/src/pages/AgreementsDocuments.tsx:466 | after a highlight, `lastIndex` moves to its end and the rest stays chained |
| AgreementsView.SegmentsMarks | frontend/src/pages/AgreementsDocuments.tsx:452-466 | the marked parts are the highlights, one per highlight, in order |
| AgreementsView.SortedSegmentsCover | frontend/src/pages/AgreementsDocuments.tsx:437-472 | non-overlapping sorted highlights segment the text with nothing lost or repeated |
| AgreementsView.OverlapRepeatsText | frontend/src/pages/AgreementsDocuments.tsx:466 | with overlapping highlights `lastIndex` moves backwards and text is shown twice |
| AgreementsView.RenderCovers | frontend/src/pages/AgreementsDocuments.tsx:407-475 | when the sorted highlights do not overlap, the rendered parts spell the text |
| AgreementsView.RenderOrder | frontend/src/pages/AgreementsDocuments.tsx:437-472 | highlights are rendered in start order, one mark each |
| AgreementsView.PushParts | frontend/src/pages/AgreementsDocuments.tsx:440-472 | the loop pushes exactly the segments |
| AgreementsView.RenderHighlightedText | frontend/src/pages/AgreementsDocuments.tsx:407-475 | the function returns exactly `Render`: the plain text when nothing is highlighted |
| AgreementsView.FilteredDocumentsMember | frontend/src/pages/AgreementsDocuments.tsx:140-153 | a document is listed iff the query is empty or a case-insensitive substring of its title or type, and the investor filter is "all" or its investor |
| AgreementsView.NoFilterListsAll | frontend/src/pages/AgreementsDocuments.tsx:140-153 | with no query and no investor filter every document is listed |
| AgreementsView.ReplaceById | frontend/src/pages/AgreementsDocuments.tsx:235-240 | `map` replaces exactly the elements with the updated id |
| AgreementsView.ReplaceByIdIdempotent | frontend/src/pages/AgreementsDocuments.tsx:235-240 | replacing twice is replacing once, and ids are kept |
| AgreementsView.WithUpdatedClause | frontend/src/pages/AgreementsDocuments.tsx:233-238 | the updated document keeps its other fields, and its clause list is the mapped list, or empty when it had none |
| AgreementsView.WithoutClause | frontend/src/pages/AgreementsDocuments.tsx:251-254 | the document keeps its other fields and always has a clause list |
| AgreementsView.WithoutClauseMember | frontend/src/pages/AgreementsDocuments.tsx:253 | a clause remains iff it was there and has another id; deleting twice is deleting once |
| AgreementsView.UpdateTouchesOnlyThatClause | frontend/src/pages/AgreementsDocuments.tsx:232-241 | an update replaces only the selected document, keeping its clause count and every clause with another id |
| AgreementsView.DeleteTouchesOnlyThatClause | frontend/src/pages/AgreementsDocuments.tsx:250-256 | a delete replaces only the selected document, whose clauses are its old ones other than the deleted id |
| AgreementsView.NormalizeWhitespace | frontend/src/pages/AgreementsDocuments.tsx:358-359 | defines `normalizeWhitespace`; `AgreementsView.NormalizeSourceTrimmed` states the loop's text, trimmed, equals it |
| AgreementsView.FindMatch | frontend/src/pages/AgreementsDocuments.tsx:350-404 | defines what `findTextWithNormalizedMatch` returns; `AgreementsView.FindTextWithNormalizedMatch` is proved equal to it and `AgreementsView.ExactMatchFirst`, `AgreementsView.MatchBounds`, `AgreementsView.NormalizedMatchEnds` and `AgreementsView.NotFoundMeansAbsent` characterise it |
| AgreementsView.FindNormalized | frontend/src/pages/AgreementsDocuments.tsx:384-402 | defines the normalised and case-insensitive searches; `AgreementsView.NormalizedMatchEnds` and `AgreementsView.DegenerateMatch` characterise it |
| AgreementsView.NormalizedMatchEnds | frontend/src/pages/AgreementsDocuments.tsx:384-402 | a range found through the normalised source, exactly or ignoring case, is non-empty and starts and ends on source characters that are not white space |
| AgreementsView.FindNormalizedEnds | frontend/src/pages/AgreementsDocuments.tsx:384-402 | whatever the normalised or case-insensitive search finds is a non-empty range of the source whose first and last characters are not white space |
| AgreementsView.Render | frontend/src/pages/AgreementsDocuments.tsx:407-475 | defines what `renderHighlightedText` renders; `AgreementsView.RenderCovers` and `AgreementsView.RenderOrder` state that the parts spell the text and the marks come in start order |
| AgreementsView.FilteredDocuments | frontend/src/pages/AgreementsDocuments.tsx:140-153 | defines `filteredDocuments`; `AgreementsView.FilteredDocumentsMember` states exactly which documents are listed |
| AgreementsView.DocumentsAfterUpdate | frontend/src/pages/AgreementsDocuments.tsx:232-241 | defines the document list after an edit; `AgreementsView.UpdateTouchesOnlyThatClause` states what changes |
| AgreementsView.DocumentsAfterDelete | frontend/src/pages/AgreementsDocuments.tsx:250-256 | defines the document list after a delete; `AgreementsView.DeleteTouchesOnlyThatClause` states what changes |
| Extraction.ExtractClauses | backend/extraction_service.py:161-203 | a provider is called only with its own key, when that key is set and its package is installed |
| Extraction.AutoSelection | backend/extraction_service.py:176-186 | in auto mode Anthropic is called iff usable, OpenAI iff Anthropic is not and OpenAI is, and otherwise the "No AI provider available" error comes back |
| Extraction.AnthropicErrors | backend/extraction_service.py:188-193 | for Anthropic a missing key is reported before a missing package |
| Extraction.OpenAiErrors | backend/extraction_service.py:195-200 | for OpenAI a missing key is reported before a missing package |
| Extraction.UnknownProvider | backend/extraction_service.py:202-203 | any other provider gives "Unknown provider: " and its name |
| Extraction.FoundFromIff | backend/extraction_service.py:299 | the scan finds a cue iff it matches at some position at or after the start |
| Extraction.SearchIff | backend/extraction_service.py:305 | `re.search` of an alternation succeeds iff some alternative matches somewhere |
| Extraction.Lit | backend/extraction_service.py:299-308 | a literal pattern matches exactly its own characters |
| Extraction.FirstCueIsEarliest | backend/extraction_service.py:298-308 | the detected type is that of the earliest cue in the chain that the text matches |
| Extraction.FirstCueUnknown | backend/extraction_service.py:298 | with no cue found the type stays "Unknown" |
| Extraction.FirstFound | backend/extraction_service.py:298-308 | when some cue is found, the type is not "Unknown" |
| Extraction.DetectDocType | backend/extraction_service.py:298-308 | the `if`/`elif` chain reassigning `doc_type` gives the first cue's type |
| Extraction.DocTypeChain | backend/extraction_service.py:298-308 | precedence: Side Letter, Subscription Agreement, Amendment, PPM, Fee Schedule, else "Unknown" |
| Extraction.SideLetterBeforeAmendment | backend/extraction_service.py:299-304 | a text naming both a side letter and an amendment is detected as a side letter |
| Extraction.ContextWindow | backend/extraction_service.py:242-244 | the window contains the match, lies inside the text, and reaches 50 characters before and 100 after unless clipped |
| Extraction.MatchClausesShape | backend/extraction_service.py:246-258 | each match yields a clause with exactly the rate or the discount its pattern names, no other term, and confidence 0.6 |
| Extraction.PatternClausesShape | backend/extraction_service.py:237-259 | every pattern clause has that shape |
| Extraction.PatternClausesCount | backend/extraction_service.py:237-259 | there is one pattern clause per match |
| Extraction.AppendMatchClauses | backend/extraction_service.py:239-259 | the inner loop appends one clause per match, in match order |
| Extraction.PushPatternClauses | backend/extraction_service.py:237-259 | the outer loop appends the clauses pattern by pattern |
| Extraction.CueClauses | backend/extraction_service.py:261-295 | after the pattern clauses come at most one MFN and at most one co-investment clause, in that order, at confidence 0.7 |
| Extraction.MockDocumentInfo | backend/extraction_service.py:297-319 | investor, fund and date are never detected; the type follows the cue order and is "Unknown" iff no cue is found |
| Extraction.MockExtractClauses | backend/extraction_service.py:206-319 | the method returns exactly `MockExtraction` of the text and the regex engine's matches |
| Extraction.FirstCue | backend/extraction_service.py:298-308 | defines the `if`/`elif` type detection; `Extraction.FirstCueIsEarliest` and `Extraction.FirstCueUnknown` state it gives the earliest matching cue or "Unknown" |
| Extraction.PatternClause | backend/extraction_service.py:240-258 | defines the clause of one numeric match; `Extraction.MatchClausesShape` states its shape |
| Extraction.CueClause | backend/extraction_service.py:261-295 | defines the MFN and co-investment clauses; `Extraction.CueClauses` states at most one of each follows the pattern clauses |
| Extraction.MockExtraction | backend/extraction_service.py:206-319 | defines what `mock_extract_clauses` returns; `Extraction.MockExtractClauses` is proved equal to it and `Extraction.MockDocumentInfo` and `Extraction.PatternClausesCount` characterise it |
| BackendApi.GetOr | backend/app.py:193 | `data.get(key, default)`: an absent key gives the default, an explicit `null` gives `None` |
| BackendApi.Get | backend/app.py:196 | `data.get(key)`: only a given key has a value |
| BackendApi.UnknownInvestor | backend/app.py:196-200 | the result is the 404 "Investor not found" iff a truthy `investorId` is given and unknown |
| BackendApi.CreateDocumentDefaults | backend/app.py:191-216 | a created document has the given investor id; docType "Side Letter" when missing and `None` when `null`; status "Active" when missing or `null` (the column default), else the status sent; a stripped title or "Untitled Document"; and the given priority unless falsy, else the derived one |
| BackendApi.SideLetterPriority | backend/app.py:193-209 | a side letter created without a priority gets priority 3 |
| BackendApi.ExtractValidation | backend/app.py:343-347 | the request is rejected iff the text is missing, shorter than 50 characters once stripped, or longer than 100,000 characters; rejections are 400 and shortness is checked first |
| BackendApi.ExtractFallback | backend/app.py:349-358 | without mock mode the mock result replaces the AI result iff the AI reports an error and no clauses, and then carries the error as `ai_error`; with no provider it is always the mock |
| BackendApi.ApprovedEntries | backend/app.py:384-387 | the kept entries are approved and come from the input |
| BackendApi.ApprovedSingle | backend/app.py:386 | an entry is created iff `approved` is absent or true; `null` and false skip it |
| BackendApi.CreateApprovedClauses | backend/app.py:382-403 | the loop with `continue` creates exactly `CreatedRows` |
| BackendApi.CreatedRowsAreApproved | backend/app.py:384-403 | the created clauses are the approved entries, in input order, one each |
| BackendApi.ApplyExtractionContract | backend/app.py:364-414 | a missing or zero `documentId` gives the 400; success means a known document, the approved clauses created, and the stored source text replaced iff a non-empty one is given |
| BackendApi.CreateDocument | backend/app.py:191-216 | defines `create_document`; `BackendApi.UnknownInvestor`, `BackendApi.CreateDocumentFails` and `BackendApi.CreateDocumentDefaults` state its responses |
| BackendApi.CreateDocumentFails | backend/app.py:196-215 | 500 exactly when the investor check passes and the title is `null` or the investor id is missing or `null` (the NOT NULL `investor_id` column); a document is stored exactly when the investor id is given and known or zero and the title is not `null` |
| BackendApi.AcceptedText | backend/app.py:343-347 | defines the text validation; `BackendApi.ExtractValidation` states the 400s and their order |
| BackendApi.ExtractFromText | backend/app.py:337-360 | defines `extract_from_text`; `BackendApi.ExtractValidation` and `BackendApi.ExtractFallback` state its refusals and the mock fallback |
| BackendApi.Approved | backend/app.py:386 | defines the approved test; `BackendApi.ApprovedSingle` states which `approved` values create a row |
| BackendApi.CreatedRows | backend/app.py:384-403 | defines the rows created for the approved entries; `BackendApi.CreatedRowsAreApproved` states they are exactly the approved entries, in order |
| BackendApi.ApplyExtraction | backend/app.py:366-414 | defines `apply_extraction`; `BackendApi.ApplyExtractionContract` states its 400, 404, the rows created and the source-text replacement |
| CrossChecks.SeedAllCandidates | backend/app.py:484-577 | the seed documents supersede nothing, and their candidates are the five seeded clauses in order |
| CrossChecks.SeedOfType | backend/app.py:484-577 | the seed has three Management Fee candidates, one step-down and no fee waiver |
| CrossChecks.NoneSuperseded | backend/terms_engine.py:64 | with no superseded candidate, all are active |
| CrossChecks.SeedFeeWinner | backend/terms_engine.py:69-77 | the Side Letter's fee clause, the only one at priority 3, wins the Management Fee |
| CrossChecks.SeedResolved | backend/terms_engine.py:18-128 | the resolver's terms for the seed investor are the winners among the five candidates |
| CrossChecks.SeedManagementFee | backend/terms_engine.py:81-99 | the effective Management Fee is 1.75 from document 3 |
| CrossChecks.SeedStepDown | backend/terms_engine.py:81-99 | the effective step-down is 0.25 at "Year 4" |
| CrossChecks.SeedNoWaiver | backend/terms_engine.py:81-99 | the seed investor has no fee waiver |
| CrossChecks.YearFourThreshold | frontend/src/pages/FeeLogicView.tsx:81-82 | the threshold "Year 4" gives step-down year 4 |
| CrossChecks.SeedFeeInputs | frontend/src/pages/FeeLogicView.tsx:56-82 | the calculator reads base rate 1.75, no waiver, and a 0.25 step-down from year 4 |
| CrossChecks.SeedFeeCalculation | frontend/src/pages/FeeLogicView.tsx:50-130 | on a 100,000,000 commitment in year 5 the resolved seed terms give base rate 1.75, one step-down entry, an effective rate of 1.5, an annual fee of 1,500,000, and the single projection row "Years 4+" at 1.5 |

## Left out

- Database access (SQLAlchemy models and sessions, `pg` queries) and S3 presigning: documents,
  agreements, clause rows and term rows are parameters, and ids the database would assign are
  given as inputs.
- HTTP, JWT authentication, `localStorage`, DOM rendering, `fetch`, timers and logging are I/O.
  The responses are modelled as values.
- The HTML strings built by the renderers, `toFixed`, `Intl.NumberFormat`, `toLocaleDateString`
  and Python's float `repr` and `isoformat` in summary and reason strings are formatting left
  out. The numbers, dates and names they show are kept in datatypes.
- Floating point: rates and amounts are exact `real`s, so rounding is not modelled.
- Date parsing (`new Date(...)`, `parse_date` in `backend/app.py:13-22`): dates enter already
  parsed, as integers. An unparseable JavaScript date (`NaN`) is not modelled.
- The document priority is an `int`; a `NULL` priority is taken as 0, which is what `sort_key`
  uses. The comparison in `get_override_reason` on a `None` priority, where Python 3 raises, is
  not modelled.
- Key order of Python dicts and JavaScript `Map`s, and of the JSON objects built from them, is not
  modelled: maps are unordered. Keys that clash with `Object.prototype` names are not modelled
  either.
- The AI clients (`extract_clauses_with_anthropic`, `extract_clauses_with_openai`), their JSON
  decoding and the markdown-fence stripping are foreign calls. Their response is a parameter of
  the extract route.
- Python's regular-expression engine: the document-type and MFN/co-investment cues are modelled
  as fixed-length case-alternation patterns. The rate patterns' matches and the `.{0,200}`
  contexts are given as inputs: the spans and values `re.finditer` reports, and the stripped
  context `re.search` reports.
- `re.IGNORECASE` on the rate patterns is part of those given matches. Lowercasing in the
  clause locator and the document filter is ASCII-only.
- Exceptions turned into 500 responses in `/extract` are not modelled. In `create_document` and
  `apply_extraction` a JSON `null` title or clause list, which would raise in Python, is
  modelled as a 500 response.
- BackendApi.CreateDocument: a missing or `null` investor id fails the commit on the NOT NULL
  `investor_id` column (`backend/models.py:63`) and is modelled as a 500 response. A zero
  investor id skips the existence check and is stored, because whether a foreign key rejects
  it depends on the database engine, which is not modelled.
- JavaScript string positions and lengths count UTF-16 code units, while a Dafny `string` is a
  sequence of Unicode scalar values. For a text with characters outside the Basic Multilingual
  Plane, the `start` and `end` of `AgreementsView.FindMatch` and of the highlights `Render`
  builds differ from the page's `indexOf`, `length`, `slice` and `positionMap` values
  (`frontend/src/pages/AgreementsDocuments.tsx:352-399`, `:447-471`).
- `POST /emails/ingest` with `"clauses": null`: the destructuring default
  (`api/server.js:358`) applies only to `undefined`, so the `for … of` at `api/server.js:396`
  throws after the agreement row has been inserted. `PostgresApi.EmailBody.clauses` is a
  sequence, so the model has no such body.
- `Document.query.get_or_404` is modelled by the set of known document ids.
- Highlights whose clause span is degenerate, where the code reads `positionMap[-1]` and gets
  `NaN`, are not pushed in the model. `AgreementsView.DegenerateMatch` characterises exactly
  when that read happens.
- The parts of the source that are not the term-resolution core: the marketing site
  (`investdirectory/`), the React forms, modals and layout, the audit log and login pages,
  `app.js`'s form handlers other than removal, `parseInt` of the investor filter, and the tests
  and configuration.
- Sorting.Sort: the model is one stable sort. Neither CPython's Timsort nor V8's sort is
  modelled, only the contract they share (ordered, a permutation, stable).
