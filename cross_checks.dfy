/** The demo investor of the backend's seed data run through the backend resolver and then the
    fee calculator: the Side Letter's 1.75% wins the Management Fee over the PPM's and the
    Subscription Agreement's 2.00%, and from year 4 the Side Letter's 0.25% step-down applies. */
module CrossChecks {
  import opened Wrappers
  import TermsEngine
  import FeeLogic
  import Text

  function SeedClause(id: int, clauseType: string, rate: Option<real>, discount: Option<real>,
                      threshold: Option<string>, sectionRef: string): TermsEngine.Clause {
    TermsEngine.Clause(id, clauseType, None, rate, threshold, None, discount, None, None, Some(sectionRef))
  }

  const PpmFee := SeedClause(1, "Management Fee", Some(2.0), None, None, "6.1")
  const SubscriptionFee := SeedClause(2, "Management Fee", Some(2.0), None, None, "4.2")
  const SideLetterFee := SeedClause(3, "Management Fee", Some(1.75), None, None, "3.2")
  const SideLetterStepDown := SeedClause(4, "Fee Step-Down", None, Some(0.25), Some("Year 4"), "3.3")
  const SideLetterMfn := SeedClause(5, "MFN (Most Favored Nation)", None, None, None, "5.1")

  /** The three documents of the seeded investor, with the priorities `derive_priority` gives
      their types and their effective dates as ordinals (2024-01-01, 2024-01-15, 2024-02-01). */
  function SeedDocuments(): seq<TermsEngine.Document> {
    [ TermsEngine.Document(1, "Mock Fund I PPM", Some("PPM"), Some("Active"), Some(738886), None, 1, [PpmFee]),
      TermsEngine.Document(2, "Mock Capital Subscription Agreement", Some("Subscription Agreement"), Some("Active"),
                           Some(738900), None, 2, [SubscriptionFee]),
      TermsEngine.Document(3, "Mock Capital Side Letter", Some("Side Letter"), Some("Active"), Some(738917), None, 3,
                           [SideLetterFee, SideLetterStepDown, SideLetterMfn]) ]
  }

  function SeedCandidate(c: TermsEngine.Clause, d: TermsEngine.Document): TermsEngine.Candidate {
    TermsEngine.CandidateOf(c, d, map[])
  }

  function SeedCandidates(): seq<TermsEngine.Candidate> {
    var docs := SeedDocuments();
    [ SeedCandidate(PpmFee, docs[0]), SeedCandidate(SubscriptionFee, docs[1]), SeedCandidate(SideLetterFee, docs[2]),
      SeedCandidate(SideLetterStepDown, docs[2]), SeedCandidate(SideLetterMfn, docs[2]) ]
  }

  /** No seed document supersedes another, and the candidates are the five clauses in order. */
  lemma SeedAllCandidates()
    ensures TermsEngine.SupersededByIndex(SeedDocuments()) == map[]
    ensures TermsEngine.AllCandidates(SeedDocuments(), map[]) == SeedCandidates()
  {
    var docs := SeedDocuments();
    assert docs[..1][..0] == [];
    assert docs[..2][..1] == docs[..1];
    assert docs[..3][..2] == docs[..2];
    assert TermsEngine.SupersededByIndex(docs[..1]) == map[];
    assert TermsEngine.SupersededByIndex(docs[..2]) == map[];
    assert TermsEngine.AllCandidates(docs[..1], map[]) == [SeedCandidate(PpmFee, docs[0])];
    assert TermsEngine.AllCandidates(docs[..2], map[])
           == [SeedCandidate(PpmFee, docs[0]), SeedCandidate(SubscriptionFee, docs[1])];
    assert TermsEngine.DocCandidates(docs[2], map[])
           == [SeedCandidate(SideLetterFee, docs[2]), SeedCandidate(SideLetterStepDown, docs[2]),
               SeedCandidate(SideLetterMfn, docs[2])];
    assert docs == docs[..2] + [docs[2]];
  }

  function Keep(c: TermsEngine.Candidate, t: string): seq<TermsEngine.Candidate> {
    if c.clause.clauseType == t then [c] else []
  }

  /** The candidates of clause type `t`, spelled out over the five seed candidates. */
  lemma SeedOfTypeIs(t: string)
    ensures var cs := SeedCandidates();
            TermsEngine.OfType(cs, t) == Keep(cs[0], t) + Keep(cs[1], t) + Keep(cs[2], t) + Keep(cs[3], t) + Keep(cs[4], t)
  {
    var cs := SeedCandidates();
    assert cs[..1][..0] == [];
    TermsEngine.OfTypeInit(cs[..1], t);
    assert cs[..2][..1] == cs[..1];
    TermsEngine.OfTypeInit(cs[..2], t);
    assert cs[..3][..2] == cs[..2];
    TermsEngine.OfTypeInit(cs[..3], t);
    assert cs[..4][..3] == cs[..3];
    TermsEngine.OfTypeInit(cs[..4], t);
    assert cs[..5][..4] == cs[..4];
    TermsEngine.OfTypeInit(cs[..5], t);
    assert cs[..5] == cs;
  }

  /** The candidates of each clause type the calculator reads. */
  lemma SeedOfType()
    ensures var cs := SeedCandidates();
            && TermsEngine.OfType(cs, "Management Fee") == cs[..3]
            && TermsEngine.OfType(cs, "Fee Step-Down") == [cs[3]]
            && TermsEngine.OfType(cs, "Fee Waiver/Discount") == []
  {
    var cs := SeedCandidates();
    SeedOfTypeIs("Management Fee");
    SeedOfTypeIs("Fee Step-Down");
    SeedOfTypeIs("Fee Waiver/Discount");
  }

  /** Candidates whose documents nobody supersedes all compete. */
  lemma {:induction false} NoneSuperseded(cs: seq<TermsEngine.Candidate>)
    requires forall k :: 0 <= k < |cs| ==> !cs[k].isSuperseded
    ensures TermsEngine.Active(cs) == cs
    decreases |cs|
  {
    if cs != [] {
      NoneSuperseded(cs[..|cs| - 1]);
    }
  }

  /** The Side Letter's clause wins the Management Fee: it is the only one at priority 3. */
  lemma SeedFeeWinner()
    ensures TermsEngine.Winner(SeedCandidates()[..3]) == SeedCandidates()[2]
  {
    var fees := SeedCandidates()[..3];
    NoneSuperseded(fees);
    TermsEngine.WinnerRanksFirst(fees);
  }

  lemma SeedStepDownWinner()
    ensures TermsEngine.Winner([SeedCandidates()[3]]) == SeedCandidates()[3]
  {
    var steps := [SeedCandidates()[3]];
    NoneSuperseded(steps);
    TermsEngine.WinnerRanksFirst(steps);
  }

  /** The resolver's terms for the seeded investor are the winners among the five candidates. */
  lemma SeedResolved()
    ensures TermsEngine.EffectiveTermsOf(SeedDocuments()).terms == TermsEngine.AllTerms(SeedCandidates())
  {
    SeedAllCandidates();
  }

  /** The Side Letter's Management Fee at 1.75 wins its type. */
  lemma SeedManagementFee()
    ensures "Management Fee" in TermsEngine.AllTerms(SeedCandidates())
    ensures TermsEngine.AllTerms(SeedCandidates())["Management Fee"].rate == Some(1.75)
    ensures TermsEngine.AllTerms(SeedCandidates())["Management Fee"].source.documentId == 3
  {
    SeedOfType();
    TermsEngine.OfTypeEmpty(SeedCandidates(), "Management Fee");
    SeedFeeWinner();
  }

  /** The Side Letter's step-down of 0.25 at "Year 4" is the only one of its type. */
  lemma SeedStepDown()
    ensures "Fee Step-Down" in TermsEngine.AllTerms(SeedCandidates())
    ensures TermsEngine.AllTerms(SeedCandidates())["Fee Step-Down"].discount == Some(0.25)
    ensures TermsEngine.AllTerms(SeedCandidates())["Fee Step-Down"].threshold == Some("Year 4")
  {
    SeedOfType();
    var cs := SeedCandidates();
    TermsEngine.OfTypeEmpty(cs, "Fee Step-Down");
    SeedStepDownWinner();
    assert TermsEngine.TermOf(cs, "Fee Step-Down") == TermsEngine.EffectiveEntry("Fee Step-Down", cs[3]);
    assert cs[3].clause == SideLetterStepDown;
  }

  /** No seed document grants a fee waiver. */
  lemma SeedNoWaiver()
    ensures "Fee Waiver/Discount" !in TermsEngine.AllTerms(SeedCandidates())
  {
    SeedOfType();
    TermsEngine.OfTypeEmpty(SeedCandidates(), "Fee Waiver/Discount");
  }

  lemma YearFourThreshold()
    ensures FeeLogic.StepDownYear("Year 4") == 4
  {
    assert FeeLogic.FirstDigitAt("Year 4") == 5;
    assert "Year 4"[5..] == "4";
    assert FeeLogic.LeadingDigits("4") == "4" by { assert "4"[1..] == []; }
    assert FeeLogic.FirstDigitRun("Year 4") == Some("4");
    assert Text.DigitsValue("4") == 4 by { assert "4"[..0] == []; }
  }

  /** What the calculator reads from those terms. */
  lemma SeedFeeInputs(m: map<string, TermsEngine.EffectiveTerm>)
    requires "Management Fee" in m && m["Management Fee"].rate == Some(1.75)
    requires "Fee Step-Down" in m && m["Fee Step-Down"].discount == Some(0.25)
    requires m["Fee Step-Down"].threshold == Some("Year 4")
    requires "Fee Waiver/Discount" !in m
    ensures FeeLogic.BaseRate(Some(m)) == 1.75 && FeeLogic.Waiver(Some(m)).None?
    ensures FeeLogic.StepDownApplies(Some(m))
    ensures FeeLogic.StepDownYearOf(Some(m)) == 4 && FeeLogic.StepDownDiscount(Some(m)) == 0.25
  {
    YearFourThreshold();
  }

  /** The fee view for that investor, a 100,000,000 commitment and investment year 5: base rate
      1.75, the step-down entry from year 4 as the only discount, an effective rate of 1.5 and an
      annual fee of 1,500,000; the projection has only the "Years 4+" period at 1.5. */
  method SeedFeeCalculation() returns (f: FeeLogic.FeeCalculation)
    ensures f.baseRate == 1.75 && f.effectiveRate == 1.5 && f.annualFee == 1500000.0
    ensures |f.discounts| == 1 && f.discounts[0].kind == FeeLogic.StepDownFrom(4) && f.discounts[0].rate == -0.25
    ensures f.stepDowns == [FeeLogic.StepDown(FeeLogic.YearsFrom(4), 1.5, 1500000.0)]
  {
    var result := TermsEngine.CalculateEffectiveTerms(SeedDocuments());
    var terms := Some(result.terms);
    SeedResolved();
    SeedManagementFee();
    SeedStepDown();
    SeedNoWaiver();
    SeedFeeInputs(result.terms);
    f := FeeLogic.CalculateFees(100000000.0, terms, 5);
    assert FeeLogic.SumRates(f.discounts) == -0.25 by {
      assert f.discounts[..0] == [];
    }
  }
}
