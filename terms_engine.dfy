/** The backend's effective-terms resolver: given one investor's documents, it groups their
    clauses by clause type, picks one winning clause per type (supersession first, then the
    document's priority, then the most recent effective date, then input order), lists every
    other clause of that type as overridden with a reason, and builds a display summary. */
module TermsEngine {
  import opened Wrappers
  import Sorting

  /** A calendar date as its proleptic Gregorian ordinal (`date.toordinal()`); `date.min` is 1. */
  type Date = d: int | d >= 1 witness 1

  const DateMin: Date := 1

  datatype Clause = Clause(
    id: int,
    clauseType: string,
    clauseText: Option<string>,
    rate: Option<real>,
    threshold: Option<string>,
    thresholdAmount: Option<real>,
    discount: Option<real>,
    effectiveDate: Option<Date>,
    notes: Option<string>,
    sectionRef: Option<string>)

  datatype Document = Document(
    id: int,
    title: string,
    docType: Option<string>,
    status: Option<string>,
    effectiveDate: Option<Date>,
    supersedesId: Option<int>,
    priority: int,
    clauses: seq<Clause>)

  /** A clause together with its document and the document's supersession state. */
  datatype Candidate = Candidate(clause: Clause, document: Document, isSuperseded: bool, supersededBy: Option<int>)

  datatype TermSource = TermSource(documentId: int, documentTitle: string, documentType: Option<string>,
                                   priority: int, effectiveDate: Option<Date>)

  /** The winning clause of one type. */
  datatype EffectiveTerm = EffectiveTerm(
    clauseId: int,
    clauseType: string,
    rate: Option<real>,
    discount: Option<real>,
    threshold: Option<string>,
    thresholdAmount: Option<real>,
    effectiveDate: Option<Date>,
    clauseText: Option<string>,
    notes: Option<string>,
    sectionRef: Option<string>,
    source: TermSource)

  /** Why a clause lost to the winner of its type. */
  datatype OverrideReason =
    | SupersededBy(winnerTitle: string)
    | LowerPriorityDocType(loserDocType: Option<string>)
    | OlderEffectiveDate(loserDate: Date)
    | NoEffectiveDate
    | LowerPriority

  datatype OverriddenTerm = OverriddenTerm(
    clauseId: int,
    rate: Option<real>,
    discount: Option<real>,
    threshold: Option<string>,
    clauseText: Option<string>,
    source: TermSource,
    reason: OverrideReason)

  /** The display value of a summary row; the numbers are kept, their float rendering is not. */
  datatype SummaryValue =
    | Percent(rate: real)                         // "{rate}%"
    | Dash                                        // "—"
    | ThresholdOnly(threshold: string)            // "{threshold}"
    | StepDownAt(discount: real, threshold: string) // "−{discount}% at {threshold}"
    | StepDownBy(discount: real)                  // "−{discount}%"
    | DiscountPercent(discount: real)             // "{discount}% discount"
    | Enabled                                     // "Enabled"

  datatype SummaryItem = SummaryItem(value: SummaryValue, source: string, documentType: Option<string>)

  datatype EffectiveTerms = EffectiveTerms(
    terms: map<string, EffectiveTerm>,
    overridden: map<string, seq<OverriddenTerm>>,
    summary: map<SummaryKey, SummaryItem>)

  // ---------------------------------------------------------------------------------------
  // Supersession

  /** Python truthiness of an optional integer id. */
  predicate IsSet(o: Option<int>) {
    o.Some? && o.value != 0
  }

  /** Document `d` names document `k` as the one it supersedes. */
  predicate Supersedes(d: Document, k: int) {
    IsSet(d.supersedesId) && d.supersedesId.value == k
  }

  /** The reverse supersession index `superseded_by_map`, built in input order: a later
      document naming the same id overwrites an earlier one. */
  function SupersededByIndex(docs: seq<Document>): map<int, int>
    decreases |docs|
  {
    if docs == [] then map[]
    else
      var d := docs[|docs| - 1];
      var m := SupersededByIndex(docs[..|docs| - 1]);
      if IsSet(d.supersedesId) then m[d.supersedesId.value := d.id] else m
  }

  /** An id is in the index exactly when some document names it as superseded. */
  lemma {:induction false} SupersededByIndexKeys(docs: seq<Document>, k: int)
    ensures k in SupersededByIndex(docs) <==> exists i :: 0 <= i < |docs| && Supersedes(docs[i], k)
    decreases |docs|
  {
    if docs != [] {
      var init := docs[..|docs| - 1];
      SupersededByIndexKeys(init, k);
      assert forall i :: 0 <= i < |init| ==> init[i] == docs[i];
      if exists i :: 0 <= i < |docs| && Supersedes(docs[i], k) {
        var i :| 0 <= i < |docs| && Supersedes(docs[i], k);
        if i < |init| {
          assert Supersedes(init[i], k);
        }
      }
    }
  }

  /** The id recorded for a superseded document is that of the last document naming it. */
  lemma {:induction false} SupersededByIndexLast(docs: seq<Document>, k: int)
    requires k in SupersededByIndex(docs)
    ensures exists i :: 0 <= i < |docs| && Supersedes(docs[i], k) && SupersededByIndex(docs)[k] == docs[i].id
                        && forall j :: i < j < |docs| ==> !Supersedes(docs[j], k)
    decreases |docs|
  {
    var init := docs[..|docs| - 1];
    var d := docs[|docs| - 1];
    if Supersedes(d, k) {
      assert SupersededByIndex(docs)[k] == d.id;
    } else {
      assert k in SupersededByIndex(init);
      SupersededByIndexLast(init, k);
      var i :| 0 <= i < |init| && Supersedes(init[i], k) && SupersededByIndex(init)[k] == init[i].id
               && forall j :: i < j < |init| ==> !Supersedes(init[j], k);
      assert docs[i] == init[i];
      assert forall j :: i < j < |init| ==> docs[j] == init[j];
    }
  }

  // ---------------------------------------------------------------------------------------
  // Candidates and grouping

  function CandidateOf(c: Clause, d: Document, sb: map<int, int>): Candidate {
    Candidate(c, d, d.id in sb, if d.id in sb then Some(sb[d.id]) else None)
  }

  function DocCandidates(d: Document, sb: map<int, int>): (r: seq<Candidate>)
    ensures |r| == |d.clauses|
    ensures forall j :: 0 <= j < |r| ==> r[j] == CandidateOf(d.clauses[j], d, sb)
  {
    seq(|d.clauses|, j requires 0 <= j < |d.clauses| => CandidateOf(d.clauses[j], d, sb))
  }

  /** Every clause of every document, documents in input order, clauses in document order. */
  function AllCandidates(docs: seq<Document>, sb: map<int, int>): seq<Candidate>
    decreases |docs|
  {
    if docs == [] then [] else AllCandidates(docs[..|docs| - 1], sb) + DocCandidates(docs[|docs| - 1], sb)
  }

  /** The clause types present among `cs`. */
  function TypesOf(cs: seq<Candidate>): set<string>
    decreases |cs|
  {
    if cs == [] then {} else TypesOf(cs[..|cs| - 1]) + {cs[|cs| - 1].clause.clauseType}
  }

  /** The candidates of clause type `t`, in their order in `cs` (one list of `clauses_by_type`). */
  function OfType(cs: seq<Candidate>, t: string): seq<Candidate>
    decreases |cs|
  {
    if cs == [] then []
    else OfType(cs[..|cs| - 1], t) + (if cs[|cs| - 1].clause.clauseType == t then [cs[|cs| - 1]] else [])
  }

  /** A clause type has candidates exactly when it is among the types present. */
  lemma {:induction false} OfTypeEmpty(cs: seq<Candidate>, t: string)
    ensures OfType(cs, t) == [] <==> t !in TypesOf(cs)
    decreases |cs|
  {
    if cs != [] {
      OfTypeEmpty(cs[..|cs| - 1], t);
    }
  }

  lemma OfTypeInit(cs: seq<Candidate>, t: string)
    requires cs != []
    ensures OfType(cs, t) == OfType(cs[..|cs| - 1], t) + (if cs[|cs| - 1].clause.clauseType == t then [cs[|cs| - 1]] else [])
  {
  }

  /** The candidates whose document is not superseded. */
  function Active(cs: seq<Candidate>): seq<Candidate>
    decreases |cs|
  {
    if cs == [] then []
    else Active(cs[..|cs| - 1]) + (if cs[|cs| - 1].isSuperseded then [] else [cs[|cs| - 1]])
  }

  /** The candidates whose document is superseded, in order. */
  function Superseded(cs: seq<Candidate>): seq<Candidate>
    decreases |cs|
  {
    if cs == [] then []
    else Superseded(cs[..|cs| - 1]) + (if cs[|cs| - 1].isSuperseded then [cs[|cs| - 1]] else [])
  }

  /** `[c for c in candidates if c["is_superseded"] and c not in sorted_candidates]`. */
  function SupersededNotIn(cs: seq<Candidate>, ranked: seq<Candidate>): seq<Candidate>
    decreases |cs|
  {
    if cs == [] then []
    else
      var c := cs[|cs| - 1];
      SupersededNotIn(cs[..|cs| - 1], ranked) + (if c.isSuperseded && c !in ranked then [c] else [])
  }

  /** The candidates that compete for the win: the active ones, or all of them when every
      document involved is superseded. */
  function Competing(cs: seq<Candidate>): seq<Candidate> {
    var a := Active(cs);
    if a == [] then cs else a
  }

  lemma {:induction false} ActiveMember(cs: seq<Candidate>, c: Candidate)
    ensures c in Active(cs) <==> c in cs && !c.isSuperseded
    decreases |cs|
  {
    if cs != [] {
      ActiveMember(cs[..|cs| - 1], c);
      assert cs == cs[..|cs| - 1] + [cs[|cs| - 1]];
    }
  }

  lemma {:induction false} SupersededMember(cs: seq<Candidate>, c: Candidate)
    ensures c in Superseded(cs) <==> c in cs && c.isSuperseded
    decreases |cs|
  {
    if cs != [] {
      SupersededMember(cs[..|cs| - 1], c);
      assert cs == cs[..|cs| - 1] + [cs[|cs| - 1]];
    }
  }

  /** When every candidate is superseded, all of them compete; otherwise exactly the active
      ones do. Either way a non-empty group has a competitor. */
  lemma CompetingIs(cs: seq<Candidate>)
    ensures (forall c :: c in cs ==> c.isSuperseded) ==> Competing(cs) == cs
    ensures (exists c :: c in cs && !c.isSuperseded) ==> Competing(cs) == Active(cs) != []
    ensures (exists c :: c in cs && !c.isSuperseded) ==> forall c :: c in Competing(cs) <==> c in cs && !c.isSuperseded
    ensures cs != [] ==> Competing(cs) != []
  {
    forall c {
      ActiveMember(cs, c);
    }
    var a := Active(cs);
    if a != [] {
      ActiveMember(cs, a[0]);
    }
    if exists c :: c in cs && !c.isSuperseded {
      var c :| c in cs && !c.isSuperseded;
      ActiveMember(cs, c);
    }
  }

  // ---------------------------------------------------------------------------------------
  // Ranking

  /** The date the sort key uses: a missing date, and `date.min` itself, sort last. */
  function SortDate(d: Option<Date>): (r: Option<Date>)
    ensures r.Some? <==> d.Some? && d.value != DateMin
    ensures r.Some? ==> r == d
  {
    if d.Some? && d.value != DateMin then d else None
  }

  /** `a` sorts strictly before `b` under the key `(-priority, -date or +inf)`. */
  predicate RanksAbove(a: Candidate, b: Candidate) {
    var pa, pb := a.document.priority, b.document.priority;
    var da, db := SortDate(a.document.effectiveDate), SortDate(b.document.effectiveDate);
    pa > pb || (pa == pb && da.Some? && (db.None? || da.value > db.value))
  }

  /** A lexicographic key comparison is a strict weak order, so the sort's guarantees apply. */
  lemma RanksAboveIsStrictWeakOrder()
    ensures Sorting.StrictWeakOrder(RanksAbove)
  {
  }

  function Ranked(cs: seq<Candidate>): (r: seq<Candidate>)
    ensures |r| == |Competing(cs)|
    ensures multiset(r) == multiset(Competing(cs))
  {
    Sorting.Sort(Competing(cs), RanksAbove)
  }

  function Winner(cs: seq<Candidate>): Candidate
    requires cs != []
  {
    Ranked(cs)[0]
  }

  function Losers(cs: seq<Candidate>): seq<Candidate>
    requires cs != []
  {
    Ranked(cs)[1..] + SupersededNotIn(cs, Ranked(cs))
  }

  lemma {:induction false} SplitBySupersession(cs: seq<Candidate>)
    ensures multiset(Active(cs)) + multiset(Superseded(cs)) == multiset(cs)
    decreases |cs|
  {
    if cs != [] {
      SplitBySupersession(cs[..|cs| - 1]);
      assert cs == cs[..|cs| - 1] + [cs[|cs| - 1]];
    }
  }

  lemma {:induction false} SupersededNotInAll(cs: seq<Candidate>, ranked: seq<Candidate>)
    requires forall c :: c in cs ==> c in ranked
    ensures SupersededNotIn(cs, ranked) == []
    decreases |cs|
  {
    if cs != [] {
      assert cs[|cs| - 1] in cs;
      assert forall c :: c in cs[..|cs| - 1] ==> c in cs;
      SupersededNotInAll(cs[..|cs| - 1], ranked);
    }
  }

  lemma {:induction false} SupersededNotInNone(cs: seq<Candidate>, ranked: seq<Candidate>)
    requires forall c :: c in cs && c.isSuperseded ==> c !in ranked
    ensures SupersededNotIn(cs, ranked) == Superseded(cs)
    decreases |cs|
  {
    if cs != [] {
      assert cs[|cs| - 1] in cs;
      assert forall c :: c in cs[..|cs| - 1] ==> c in cs;
      SupersededNotInNone(cs[..|cs| - 1], ranked);
    }
  }

  /** The losers are the sorted competitors after the winner, then, unless every candidate was
      superseded (in which case all of them already competed), the superseded candidates. */
  lemma LosersSplit(cs: seq<Candidate>)
    requires cs != []
    ensures Losers(cs) == Ranked(cs)[1..] + (if Active(cs) == [] then [] else Superseded(cs))
  {
    var ranked := Ranked(cs);
    if Active(cs) == [] {
      forall c | c in cs ensures c in ranked {
        assert c in multiset(cs);
      }
      SupersededNotInAll(cs, ranked);
    } else {
      forall c | c in cs && c.isSuperseded ensures c !in ranked {
        if c in ranked {
          assert c in multiset(Active(cs));
          ActiveMember(cs, c);
        }
      }
      SupersededNotInNone(cs, ranked);
    }
  }

  lemma HeadRestMultiset<T>(ranked: seq<T>, extra: seq<T>)
    requires ranked != []
    ensures multiset([ranked[0]] + (ranked[1..] + extra)) == multiset(ranked) + multiset(extra)
  {
    assert [ranked[0]] + (ranked[1..] + extra) == ranked + extra by {
      assert ranked == [ranked[0]] + ranked[1..];
    }
  }

  /** Every candidate of a clause type is reported exactly once: as the winner or as one of the
      losers. */
  lemma Partition(cs: seq<Candidate>)
    requires cs != []
    ensures multiset([Winner(cs)] + Losers(cs)) == multiset(cs)
  {
    var ranked := Ranked(cs);
    var extra := if Active(cs) == [] then [] else Superseded(cs);
    LosersSplit(cs);
    HeadRestMultiset(ranked, extra);
    if Active(cs) != [] {
      SplitBySupersession(cs);
    }
  }

  /** Hence a clause type has an overridden list exactly when it has at least two clauses. */
  lemma LosersCount(cs: seq<Candidate>)
    requires cs != []
    ensures |Losers(cs)| == |cs| - 1
  {
    Partition(cs);
    assert |multiset([Winner(cs)] + Losers(cs))| == |multiset(cs)|;
  }

  // ---------------------------------------------------------------------------------------
  // Output entries

  /** `float(x) if x else None`: a zero amount is reported as missing. */
  function Reported(x: Option<real>): (r: Option<real>)
    ensures r.Some? <==> x.Some? && x.value != 0.0
    ensures r.Some? ==> r == x
  {
    if x.Some? && x.value != 0.0 then x else None
  }

  function SourceOf(d: Document): TermSource {
    TermSource(d.id, d.title, d.docType, d.priority, d.effectiveDate)
  }

  function EffectiveEntry(t: string, w: Candidate): EffectiveTerm {
    var c := w.clause;
    EffectiveTerm(c.id, t, Reported(c.rate), Reported(c.discount), c.threshold, Reported(c.thresholdAmount),
                  c.effectiveDate, c.clauseText, c.notes, c.sectionRef, SourceOf(w.document))
  }

  function OverrideReasonFor(w: Candidate, l: Candidate): OverrideReason {
    if l.isSuperseded then SupersededBy(w.document.title)
    else if w.document.priority > l.document.priority then LowerPriorityDocType(l.document.docType)
    else if w.document.priority == l.document.priority
            && w.document.effectiveDate.Some? && l.document.effectiveDate.Some?
            && w.document.effectiveDate.value > l.document.effectiveDate.value
    then OlderEffectiveDate(l.document.effectiveDate.value)
    else if w.document.priority == l.document.priority
            && w.document.effectiveDate.Some? && l.document.effectiveDate.None?
    then NoEffectiveDate
    else LowerPriority
  }

  function OverriddenEntry(w: Candidate, l: Candidate): OverriddenTerm {
    var c := l.clause;
    OverriddenTerm(c.id, Reported(c.rate), Reported(c.discount), c.threshold, c.clauseText,
                   SourceOf(l.document), OverrideReasonFor(w, l))
  }

  function OverriddenList(w: Candidate, losers: seq<Candidate>): (r: seq<OverriddenTerm>)
    ensures |r| == |losers|
    ensures forall k :: 0 <= k < |r| ==> r[k] == OverriddenEntry(w, losers[k])
  {
    seq(|losers|, k requires 0 <= k < |losers| => OverriddenEntry(w, losers[k]))
  }

  /** The winning entry of clause type `t`. */
  function TermOf(all: seq<Candidate>, t: string): EffectiveTerm
    requires OfType(all, t) != []
  {
    EffectiveEntry(t, Winner(OfType(all, t)))
  }

  /** The clause type `t` has clauses besides its winner (`if losers:`; see `Partition`). */
  predicate HasLosers(all: seq<Candidate>, t: string) {
    |OfType(all, t)| > 1
  }

  /** The overridden list of clause type `t`. */
  function OverriddenOf(all: seq<Candidate>, t: string): seq<OverriddenTerm>
    requires OfType(all, t) != []
  {
    OverriddenList(Winner(OfType(all, t)), Losers(OfType(all, t)))
  }

  /** The winning entry of every clause type present. */
  function AllTerms(all: seq<Candidate>): map<string, EffectiveTerm> {
    map t | t in TypesOf(all) && OfType(all, t) != [] :: TermOf(all, t)
  }

  /** The overridden list of every clause type with more than one clause. */
  function AllOverridden(all: seq<Candidate>): map<string, seq<OverriddenTerm>> {
    map t | t in TypesOf(all) && HasLosers(all, t) :: OverriddenOf(all, t)
  }

  /** The entries of `m` whose keys are in `keys`. */
  function Restrict<V>(m: map<string, V>, keys: set<string>): map<string, V> {
    map t | t in keys && t in m :: m[t]
  }

  lemma RestrictStep<V>(m: map<string, V>, keys: set<string>, t: string)
    ensures Restrict(m, keys + {t}) == if t in m then Restrict(m, keys)[t := m[t]] else Restrict(m, keys)
  {
  }

  lemma RestrictAll<V>(m: map<string, V>, keys: set<string>)
    requires m.Keys <= keys
    ensures Restrict(m, keys) == m
  {
  }

  // ---------------------------------------------------------------------------------------
  // Summary

  /** `f"{rate}%" if rate else "—"`. */
  function RateValue(rate: Option<real>): SummaryValue {
    if rate.Some? && rate.value != 0.0 then Percent(rate.value) else Dash
  }

  /** The step-down cell: a missing or empty threshold reads as "—". */
  function StepDownValue(threshold: Option<string>, discount: Option<real>): (v: SummaryValue)
    ensures v.StepDownAt? || v.StepDownBy? <==> discount.Some? && discount.value != 0.0
    ensures v.StepDownAt? || v.ThresholdOnly? <==> threshold.Some? && threshold.value != "" && threshold.value != "—"
    ensures v.StepDownAt? ==> Some(v.threshold) == threshold && v.discount == discount.value
    ensures v.StepDownBy? ==> v.discount == discount.value
    ensures v.ThresholdOnly? ==> Some(v.threshold) == threshold
  {
    var thr := if threshold.Some? && threshold.value != "" then threshold.value else "—";
    if discount.Some? && discount.value != 0.0 then
      (if thr != "—" then StepDownAt(discount.value, thr) else StepDownBy(discount.value))
    else
      (if thr != "—" then ThresholdOnly(thr) else Dash)
  }

  /** The rows of the display summary. */
  datatype SummaryKey = ManagementFee | FeeStepDown | MfnProtection | CarryTerms | PreferredReturn | FeeWaiver | CoInvestment

  const AllSummaryKeys: set<SummaryKey> :=
    {ManagementFee, FeeStepDown, MfnProtection, CarryTerms, PreferredReturn, FeeWaiver, CoInvestment}

  /** The key of the row in the JSON summary object. */
  function KeyName(k: SummaryKey): string {
    match k
    case ManagementFee => "managementFee"
    case FeeStepDown => "feeStepDown"
    case MfnProtection => "mfnProtection"
    case CarryTerms => "carryTerms"
    case PreferredReturn => "preferredReturn"
    case FeeWaiver => "feeWaiver"
    case CoInvestment => "coInvestment"
  }

  /** The clause type whose winner a row reports. */
  function ClauseTypeFor(k: SummaryKey): string {
    match k
    case ManagementFee => "Management Fee"
    case FeeStepDown => "Fee Step-Down"
    case MfnProtection => "MFN (Most Favored Nation)"
    case CarryTerms => "Carry Terms"
    case PreferredReturn => "Preferred Return"
    case FeeWaiver => "Fee Waiver/Discount"
    case CoInvestment => "Co-investment Rights"
  }

  /** The cell each row shows for its winning term. */
  function SummaryValueFor(k: SummaryKey, term: EffectiveTerm): SummaryValue {
    match k
    case ManagementFee => RateValue(term.rate)
    case CarryTerms => RateValue(term.rate)
    case PreferredReturn => RateValue(term.rate)
    case FeeStepDown => StepDownValue(term.threshold, term.discount)
    case FeeWaiver =>
      if term.discount.Some? && term.discount.value != 0.0 then DiscountPercent(term.discount.value) else Dash
    case MfnProtection => Enabled
    case CoInvestment => Enabled
  }

  function ItemOf(v: SummaryValue, term: EffectiveTerm): SummaryItem {
    SummaryItem(v, term.source.documentTitle, term.source.documentType)
  }

  /** The summary has a row exactly for the summarised clause types that have a winner, and each
      row credits the document of that winner. */
  function BuildTermsSummary(terms: map<string, EffectiveTerm>): (s: map<SummaryKey, SummaryItem>)
    ensures forall k :: k in s <==> ClauseTypeFor(k) in terms
    ensures forall k :: k in s ==> s[k].source == terms[ClauseTypeFor(k)].source.documentTitle
                                   && s[k].documentType == terms[ClauseTypeFor(k)].source.documentType
    ensures MfnProtection in s ==> s[MfnProtection].value == Enabled
    ensures CoInvestment in s ==> s[CoInvestment].value == Enabled
  {
    map k | k in AllSummaryKeys && ClauseTypeFor(k) in terms
      :: ItemOf(SummaryValueFor(k, terms[ClauseTypeFor(k)]), terms[ClauseTypeFor(k)])
  }

  // ---------------------------------------------------------------------------------------
  // The resolver

  /** What `calculate_effective_terms` returns for the investor whose documents are `docs`. */
  function EffectiveTermsOf(docs: seq<Document>): EffectiveTerms {
    if docs == [] then EffectiveTerms(map[], map[], map[])
    else
      var all := AllCandidates(docs, SupersededByIndex(docs));
      EffectiveTerms(AllTerms(all), AllOverridden(all), BuildTermsSummary(AllTerms(all)))
  }

  /** The candidates of one clause type across `docs`, supersession state included. */
  function CandidatesOfType(docs: seq<Document>, t: string): seq<Candidate> {
    OfType(AllCandidates(docs, SupersededByIndex(docs)), t)
  }

  function ElemsOf<T(==)>(s: seq<T>): set<T> {
    set x | x in s
  }

  /** The grouping loop's state: one list per clause type seen, in order of first appearance. */
  ghost predicate Grouped(byType: map<string, seq<Candidate>>, order: seq<string>, done: seq<Candidate>) {
    && byType.Keys == TypesOf(done)
    && (forall t :: t in byType ==> byType[t] == OfType(done, t) && byType[t] != [])
    && ElemsOf(order) == byType.Keys
    && Distinct(order)
  }

  predicate Distinct<T(==)>(s: seq<T>) {
    forall a, b :: 0 <= a < b < |s| ==> s[a] != s[b]
  }

  lemma SnocFresh<T>(s: seq<T>, x: T)
    requires Distinct(s) && x !in ElemsOf(s)
    ensures Distinct(s + [x]) && ElemsOf(s + [x]) == ElemsOf(s) + {x}
  {
  }

  lemma TypesOfSnoc(done: seq<Candidate>, c: Candidate)
    ensures TypesOf(done + [c]) == TypesOf(done) + {c.clause.clauseType}
  {
    assert (done + [c])[..|done|] == done;
  }

  lemma OfTypeSnoc(done: seq<Candidate>, c: Candidate, u: string)
    ensures OfType(done + [c], u) == OfType(done, u) + (if c.clause.clauseType == u then [c] else [])
  {
    var done' := done + [c];
    assert done'[..|done'| - 1] == done;
    OfTypeInit(done', u);
  }

  /** A clause of a type already seen is appended to that type's list. */
  lemma GroupStepSeen(byType: map<string, seq<Candidate>>, order: seq<string>, done: seq<Candidate>, c: Candidate)
    requires Grouped(byType, order, done)
    requires c.clause.clauseType in byType
    ensures Grouped(byType[c.clause.clauseType := byType[c.clause.clauseType] + [c]], order, done + [c])
  {
    var t := c.clause.clauseType;
    var b' := byType[t := byType[t] + [c]];
    TypesOfSnoc(done, c);
    forall u | u in b' ensures b'[u] == OfType(done + [c], u) {
      OfTypeSnoc(done, c, u);
    }
  }

  /** A clause of a new type starts a list and appends its type to the order. */
  lemma GroupStepNew(byType: map<string, seq<Candidate>>, order: seq<string>, done: seq<Candidate>, c: Candidate)
    requires Grouped(byType, order, done)
    requires c.clause.clauseType !in byType
    ensures Grouped(byType[c.clause.clauseType := [c]], order + [c.clause.clauseType], done + [c])
  {
    var t := c.clause.clauseType;
    var b' := byType[t := [c]];
    var o' := order + [t];
    TypesOfSnoc(done, c);
    forall u | u in b' ensures b'[u] == OfType(done + [c], u) {
      OfTypeSnoc(done, c, u);
      if u == t {
        OfTypeEmpty(done, u);
      }
    }
    SnocFresh(order, t);
  }

  /** The first loop of `calculate_effective_terms`: the reverse supersession index. */
  method IndexSupersession(documents: seq<Document>) returns (supersededBy: map<int, int>)
    ensures supersededBy == SupersededByIndex(documents)
  {
    supersededBy := map[];
    var i := 0;
    while i < |documents|
      invariant 0 <= i <= |documents|
      invariant supersededBy == SupersededByIndex(documents[..i])
    {
      var doc := documents[i];
      assert documents[..i + 1][..i] == documents[..i];
      if IsSet(doc.supersedesId) {
        supersededBy := supersededBy[doc.supersedesId.value := doc.id];
      }
      i := i + 1;
    }
    assert documents[..i] == documents;
  }

  lemma AppendTakeSnoc<T>(a: seq<T>, s: seq<T>, j: nat)
    requires j < |s|
    ensures a + s[..j + 1] == (a + s[..j]) + [s[j]]
  {
    assert s[..j + 1] == s[..j] + [s[j]];
  }

  lemma TakeAll<T>(s: seq<T>)
    ensures s[..|s|] == s
  {
  }

  /** The inner loop of the grouping: the clauses of one document, in order. */
  method GroupClauses(doc: Document, supersededBy: map<int, int>, byType0: map<string, seq<Candidate>>,
                      order0: seq<string>, ghost done0: seq<Candidate>)
    returns (byType: map<string, seq<Candidate>>, order: seq<string>)
    requires Grouped(byType0, order0, done0)
    ensures Grouped(byType, order, done0 + DocCandidates(doc, supersededBy))
  {
    byType, order := byType0, order0;
    ghost var done := done0;
    var j := 0;
    while j < |doc.clauses|
      invariant 0 <= j <= |doc.clauses|
      invariant done == done0 + DocCandidates(doc, supersededBy)[..j]
      invariant Grouped(byType, order, done)
    {
      var clause := doc.clauses[j];
      var c := CandidateOf(clause, doc, supersededBy);
      if clause.clauseType in byType {
        GroupStepSeen(byType, order, done, c);
        byType := byType[clause.clauseType := byType[clause.clauseType] + [c]];
      } else {
        GroupStepNew(byType, order, done, c);
        byType := byType[clause.clauseType := [c]];
        order := order + [clause.clauseType];
      }
      AppendTakeSnoc(done0, DocCandidates(doc, supersededBy), j);
      done := done + [c];
      j := j + 1;
    }
    TakeAll(DocCandidates(doc, supersededBy));
  }

  /** The second loop: every clause, with its document's supersession state, appended to the
      list of its clause type; `order` records the types in order of first appearance, as the
      insertion order of the `defaultdict`. */
  method GroupByType(documents: seq<Document>, supersededBy: map<int, int>)
    returns (byType: map<string, seq<Candidate>>, order: seq<string>)
    ensures Grouped(byType, order, AllCandidates(documents, supersededBy))
  {
    byType := map[];
    order := [];
    var i := 0;
    while i < |documents|
      invariant 0 <= i <= |documents|
      invariant Grouped(byType, order, AllCandidates(documents[..i], supersededBy))
    {
      assert documents[..i + 1][..i] == documents[..i];
      assert AllCandidates(documents[..i + 1], supersededBy)
          == AllCandidates(documents[..i], supersededBy) + DocCandidates(documents[i], supersededBy);
      byType, order := GroupClauses(documents[i], supersededBy, byType, order, AllCandidates(documents[..i], supersededBy));
      i := i + 1;
    }
    assert documents[..i] == documents;
  }

  /** One clause type: the competing candidates sorted, the first wins, the rest and every
      superseded candidate not among the sorted ones lose. */
  method ResolveType(candidates: seq<Candidate>) returns (winner: Candidate, losers: seq<Candidate>)
    requires candidates != []
    ensures winner == Winner(candidates)
    ensures losers == Losers(candidates)
  {
    var active := Active(candidates);
    if active == [] {
      active := candidates;
    }
    var ranked := Sorting.Sort(active, RanksAbove);
    winner := ranked[0];
    losers := ranked[1..] + SupersededNotIn(candidates, ranked);
  }

  /** The overridden list of one clause type, one entry per loser in order. */
  method OverriddenEntries(winner: Candidate, losers: seq<Candidate>) returns (entries: seq<OverriddenTerm>)
    ensures entries == OverriddenList(winner, losers)
  {
    entries := [];
    var m := 0;
    while m < |losers|
      invariant 0 <= m <= |losers|
      invariant entries == OverriddenList(winner, losers[..m])
    {
      entries := entries + [OverriddenEntry(winner, losers[m])];
      m := m + 1;
    }
    assert losers[..m] == losers;
  }

  lemma ElemsOfSnoc<T>(order: seq<T>, k: nat)
    requires k < |order|
    ensures ElemsOf(order[..k + 1]) == ElemsOf(order[..k]) + {order[k]}
  {
    assert order[..k + 1] == order[..k] + [order[k]];
  }

  /** What one iteration of the third loop stores is the specification's entry for that type. */
  lemma ResolvedEntries(all: seq<Candidate>, t: string, winner: Candidate, losers: seq<Candidate>)
    requires t in TypesOf(all) && OfType(all, t) != []
    requires winner == Winner(OfType(all, t)) && losers == Losers(OfType(all, t))
    ensures t in AllTerms(all) && AllTerms(all)[t] == EffectiveEntry(t, winner)
    ensures t in AllOverridden(all) <==> losers != []
    ensures losers != [] ==> AllOverridden(all)[t] == OverriddenList(winner, losers)
  {
    LosersCount(OfType(all, t));
  }

  /** The third loop: per clause type, the winner and the overridden list. */
  method ResolveTypes(ghost all: seq<Candidate>, byType: map<string, seq<Candidate>>, order: seq<string>)
    returns (effective: map<string, EffectiveTerm>, overridden: map<string, seq<OverriddenTerm>>)
    requires Grouped(byType, order, all)
    ensures effective == AllTerms(all)
    ensures overridden == AllOverridden(all)
  {
    effective := map[];
    overridden := map[];
    var k := 0;
    while k < |order|
      invariant 0 <= k <= |order|
      invariant effective == Restrict(AllTerms(all), ElemsOf(order[..k]))
      invariant overridden == Restrict(AllOverridden(all), ElemsOf(order[..k]))
    {
      var t := order[k];
      var winner, losers := ResolveType(byType[t]);
      ElemsOfSnoc(order, k);
      RestrictStep(AllTerms(all), ElemsOf(order[..k]), t);
      RestrictStep(AllOverridden(all), ElemsOf(order[..k]), t);
      ResolvedEntries(all, t, winner, losers);
      effective := effective[t := EffectiveEntry(t, winner)];
      if losers != [] {
        var entries := OverriddenEntries(winner, losers);
        overridden := overridden[t := entries];
      }
      k := k + 1;
    }
    TakeAll(order);
    RestrictAll(AllTerms(all), TypesOf(all));
    RestrictAll(AllOverridden(all), TypesOf(all));
  }

  /** `calculate_effective_terms` on the investor's documents. */
  method CalculateEffectiveTerms(documents: seq<Document>) returns (result: EffectiveTerms)
    ensures result == EffectiveTermsOf(documents)
  {
    if documents == [] {
      return EffectiveTerms(map[], map[], map[]);
    }
    var supersededBy := IndexSupersession(documents);
    var byType, order := GroupByType(documents, supersededBy);
    var effective, overridden := ResolveTypes(AllCandidates(documents, supersededBy), byType, order);
    result := EffectiveTerms(effective, overridden, BuildTermsSummary(effective));
  }

  // ---------------------------------------------------------------------------------------
  // Properties of the resolver

  /** With no documents the result is three empty maps. */
  lemma NoDocuments()
    ensures EffectiveTermsOf([]) == EffectiveTerms(map[], map[], map[])
  {
  }

  /** The winner competes, nothing competing ranks strictly above it (no higher priority; at
      equal priority no later date, and no date at all only if it has none either), and among
      the competitors it ties with it comes first in input order. */
  lemma WinnerRanksFirst(cs: seq<Candidate>)
    requires cs != []
    ensures Winner(cs) in Competing(cs)
    ensures forall c :: c in Competing(cs) ==> !RanksAbove(c, Winner(cs))
    ensures forall c :: c in Competing(cs) ==> c.document.priority <= Winner(cs).document.priority
    ensures exists i :: 0 <= i < |Competing(cs)| && Competing(cs)[i] == Winner(cs)
                        && forall j :: 0 <= j < i ==> RanksAbove(Winner(cs), Competing(cs)[j])
  {
    RanksAboveIsStrictWeakOrder();
    CompetingIs(cs);
    Sorting.SortFirst(Competing(cs), RanksAbove);
  }

  /** A superseded clause wins only when every clause of its type is superseded. */
  lemma SupersededWinsOnlyAsFallback(cs: seq<Candidate>)
    requires cs != []
    ensures Winner(cs).isSuperseded ==> forall c :: c in cs ==> c.isSuperseded
  {
    WinnerRanksFirst(cs);
    CompetingIs(cs);
  }

  /** An active loser is ranked among the competitors, so it never outranks the winner, and
      the winner is then active as well. */
  lemma ActiveLoserBelowWinner(cs: seq<Candidate>, l: Candidate)
    requires cs != [] && l in Losers(cs) && !l.isSuperseded
    ensures !Winner(cs).isSuperseded && !RanksAbove(l, Winner(cs))
  {
    LosersSplit(cs);
    var ranked := Ranked(cs);
    if l !in ranked[1..] {
      SupersededMember(cs, l);
    }
    assert l in multiset(Competing(cs));
    CompetingIs(cs);
    WinnerRanksFirst(cs);
  }

  /** The reason table read on its own: an active loser that ranks strictly below the winner is
      never given the generic reason, and the generic reason goes only to a loser that ties. */
  lemma ReasonTable(w: Candidate, l: Candidate)
    ensures !l.isSuperseded && RanksAbove(w, l) ==> OverrideReasonFor(w, l) != LowerPriority
    ensures OverrideReasonFor(w, l) == LowerPriority && !RanksAbove(l, w) ==> Sorting.Tied(RanksAbove, w, l)
  {
  }

  /** The reason attached to a loser agrees with how it lost: a superseded loser names the
      winner's title; an active loser never outranks the winner, which is then active too, and
      the generic "Lower priority" is given only to a loser tied with the winner. */
  lemma ReasonsAgreeWithRanking(cs: seq<Candidate>, l: Candidate)
    requires cs != [] && l in Losers(cs)
    ensures l.isSuperseded ==> OverrideReasonFor(Winner(cs), l) == SupersededBy(Winner(cs).document.title)
    ensures !l.isSuperseded ==> !Winner(cs).isSuperseded && !RanksAbove(l, Winner(cs))
    ensures !l.isSuperseded && RanksAbove(Winner(cs), l) ==> OverrideReasonFor(Winner(cs), l) != LowerPriority
    ensures OverrideReasonFor(Winner(cs), l) == LowerPriority ==> Sorting.Tied(RanksAbove, Winner(cs), l)
  {
    if !l.isSuperseded {
      ActiveLoserBelowWinner(cs, l);
    }
    ReasonTable(Winner(cs), l);
  }

  /** All clauses of all documents, with their supersession state. */
  function Candidates(docs: seq<Document>): seq<Candidate> {
    AllCandidates(docs, SupersededByIndex(docs))
  }

  /** The clause types that occur on the documents. */
  function ClauseTypes(docs: seq<Document>): set<string> {
    set i, j | 0 <= i < |docs| && 0 <= j < |docs[i].clauses| :: docs[i].clauses[j].clauseType
  }

  function DocTypes(d: Document): set<string> {
    set j | 0 <= j < |d.clauses| :: d.clauses[j].clauseType
  }

  lemma {:induction false} TypesOfAppend(a: seq<Candidate>, b: seq<Candidate>)
    ensures TypesOf(a + b) == TypesOf(a) + TypesOf(b)
    decreases |b|
  {
    if b != [] {
      assert (a + b)[..|a + b| - 1] == a + b[..|b| - 1];
      TypesOfAppend(a, b[..|b| - 1]);
    } else {
      assert a + b == a;
    }
  }

  lemma {:induction false} TypesOfDoc(d: Document, sb: map<int, int>, n: nat)
    requires n <= |d.clauses|
    ensures TypesOf(DocCandidates(d, sb)[..n]) == set j | 0 <= j < n :: d.clauses[j].clauseType
    decreases n
  {
    if n > 0 {
      TypesOfDoc(d, sb, n - 1);
      assert DocCandidates(d, sb)[..n][..n - 1] == DocCandidates(d, sb)[..n - 1];
    }
  }

  /** Every candidate is a clause of one of the documents, flagged by the index. */
  lemma {:induction false} AllCandidatesFrom(docs: seq<Document>, sb: map<int, int>, c: Candidate)
    requires c in AllCandidates(docs, sb)
    ensures exists i, j :: 0 <= i < |docs| && 0 <= j < |docs[i].clauses|
                           && c == CandidateOf(docs[i].clauses[j], docs[i], sb)
    decreases |docs|
  {
    var init, d := docs[..|docs| - 1], docs[|docs| - 1];
    if c in AllCandidates(init, sb) {
      AllCandidatesFrom(init, sb, c);
      var i, j :| 0 <= i < |init| && 0 <= j < |init[i].clauses| && c == CandidateOf(init[i].clauses[j], init[i], sb);
      assert init[i] == docs[i];
    } else {
      var j :| 0 <= j < |DocCandidates(d, sb)| && DocCandidates(d, sb)[j] == c;
      assert c == CandidateOf(docs[|docs| - 1].clauses[j], docs[|docs| - 1], sb);
    }
  }

  /** A clause is marked superseded exactly when some document names its document as the one
      it supersedes, and it then records the id of the last such document. */
  lemma CandidateSupersession(docs: seq<Document>, c: Candidate)
    requires c in Candidates(docs)
    ensures c.isSuperseded <==> exists i :: 0 <= i < |docs| && Supersedes(docs[i], c.document.id)
    ensures c.isSuperseded ==> exists i :: 0 <= i < |docs| && Supersedes(docs[i], c.document.id)
                                          && c.supersededBy == Some(docs[i].id)
                                          && forall j :: i < j < |docs| ==> !Supersedes(docs[j], c.document.id)
    ensures !c.isSuperseded ==> c.supersededBy.None?
  {
    var sb := SupersededByIndex(docs);
    AllCandidatesFrom(docs, sb, c);
    SupersededByIndexKeys(docs, c.document.id);
    if c.isSuperseded {
      SupersededByIndexLast(docs, c.document.id);
    }
  }

  /** The clause types of documents with one more at the end. */
  lemma ClauseTypesSnoc(docs: seq<Document>)
    requires docs != []
    ensures ClauseTypes(docs) == ClauseTypes(docs[..|docs| - 1]) + DocTypes(docs[|docs| - 1])
  {
    var init, d := docs[..|docs| - 1], docs[|docs| - 1];
    forall t | t in ClauseTypes(docs) ensures t in ClauseTypes(init) || t in DocTypes(d) {
      var i, j :| 0 <= i < |docs| && 0 <= j < |docs[i].clauses| && docs[i].clauses[j].clauseType == t;
      if i < |init| {
        assert init[i] == docs[i];
      }
    }
    forall t | t in ClauseTypes(init) ensures t in ClauseTypes(docs) {
      var i, j :| 0 <= i < |init| && 0 <= j < |init[i].clauses| && init[i].clauses[j].clauseType == t;
      assert init[i] == docs[i];
    }
    forall t | t in DocTypes(d) ensures t in ClauseTypes(docs) {
      var j :| 0 <= j < |d.clauses| && d.clauses[j].clauseType == t;
      assert docs[|docs| - 1].clauses[j].clauseType == t;
    }
  }

  lemma {:induction false} TypesOfAll(docs: seq<Document>, sb: map<int, int>)
    ensures TypesOf(AllCandidates(docs, sb)) == ClauseTypes(docs)
    decreases |docs|
  {
    if docs != [] {
      var init, d := docs[..|docs| - 1], docs[|docs| - 1];
      TypesOfAll(init, sb);
      TypesOfAppend(AllCandidates(init, sb), DocCandidates(d, sb));
      TypesOfDoc(d, sb, |d.clauses|);
      assert DocCandidates(d, sb)[..|d.clauses|] == DocCandidates(d, sb);
      assert (set j | 0 <= j < |d.clauses| :: d.clauses[j].clauseType) == DocTypes(d);
      ClauseTypesSnoc(docs);
    }
  }

  /** The keys of `terms` are exactly the clause types on the investor's documents. */
  lemma TermsKeys(docs: seq<Document>)
    ensures EffectiveTermsOf(docs).terms.Keys == ClauseTypes(docs)
  {
    var all := Candidates(docs);
    TypesOfAll(docs, SupersededByIndex(docs));
    forall t | t in TypesOf(all) ensures OfType(all, t) != [] {
      OfTypeEmpty(all, t);
    }
  }

  /** A clause type has an `overridden` entry exactly when at least two clauses have that type,
      and the entry then lists every clause but the winner. */
  lemma OverriddenKeys(docs: seq<Document>, t: string)
    requires docs != []
    ensures t in EffectiveTermsOf(docs).overridden <==> |OfType(Candidates(docs), t)| >= 2
    ensures t in EffectiveTermsOf(docs).overridden ==> |EffectiveTermsOf(docs).overridden[t]| == |OfType(Candidates(docs), t)| - 1
  {
    var all := Candidates(docs);
    var cs := OfType(all, t);
    OfTypeEmpty(all, t);
    if cs != [] {
      LosersCount(cs);
    }
  }
}
