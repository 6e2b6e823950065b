/** The fee calculator of the fee-logic view: from the resolver's effective terms, a commitment
    and an investment year it derives the base rate, the discount entries, the step-down
    projection, the effective rate and the annual fee. Rates are percentages, as `real`. */
module FeeLogic {
  import opened Wrappers
  import Text
  import TermsEngine

  // ---------------------------------------------------------------------------------------
  // Commitment input

  /** `value.replace(/[^0-9]/g, '')`: the ASCII digits of `s`, in order. */
  function DigitsOnly(s: string): (r: string)
    ensures |r| <= |s|
    ensures forall k :: 0 <= k < |r| ==> Text.IsDigit(r[k])
    decreases |s|
  {
    if s == [] then []
    else if Text.IsDigit(s[|s| - 1]) then DigitsOnly(s[..|s| - 1]) + [s[|s| - 1]]
    else DigitsOnly(s[..|s| - 1])
  }

  lemma {:induction false} DigitsOnlyAppend(a: string, b: string)
    ensures DigitsOnly(a + b) == DigitsOnly(a) + DigitsOnly(b)
    decreases |b|
  {
    if b == [] {
      assert a + b == a;
    } else {
      assert (a + b)[..|a + b| - 1] == a + b[..|b| - 1];
      DigitsOnlyAppend(a, b[..|b| - 1]);
    }
  }

  /** A string made of digits is kept whole. */
  lemma {:induction false} DigitsOnlyOfDigits(s: string)
    requires forall k :: 0 <= k < |s| ==> Text.IsDigit(s[k])
    ensures DigitsOnly(s) == s
    decreases |s|
  {
    if s != [] {
      assert s == s[..|s| - 1] + [s[|s| - 1]];
      DigitsOnlyOfDigits(s[..|s| - 1]);
    }
  }

  /** `parseCommitmentInput`: the digits of the input read as a decimal integer, and 0 when
      there are none (`parseInt('') || 0`). */
  function ParseCommitmentInput(value: string): nat {
    var numeric := DigitsOnly(value);
    if numeric == [] then 0 else Text.DigitsValue(numeric)
  }

  /** A number typed as plain digits is read back as itself. */
  lemma ParseCommitmentRoundTrip(n: nat)
    ensures ParseCommitmentInput(Text.NatToString(n)) == n
  {
    DigitsOnlyOfDigits(Text.NatToString(n));
    Text.NatToStringRoundTrip(n);
  }

  /** Inserting a character that is not a digit (a `$`, a thousands separator, a space) anywhere
      does not change the parsed commitment; a text with no digits parses as 0. */
  lemma ParseCommitmentIgnoresNonDigits(s: string, i: nat, c: char)
    requires i <= |s| && !Text.IsDigit(c)
    ensures ParseCommitmentInput(s[..i] + [c] + s[i..]) == ParseCommitmentInput(s)
  {
    DigitsOnlyAppend(s[..i] + [c], s[i..]);
    DigitsOnlyAppend(s[..i], [c]);
    assert [c][..0] == [];
    DigitsOnlyAppend(s[..i], s[i..]);
    assert s[..i] + s[i..] == s;
  }

  lemma {:induction false} ParseCommitmentNoDigits(s: string)
    requires forall k :: 0 <= k < |s| ==> !Text.IsDigit(s[k])
    ensures ParseCommitmentInput(s) == 0
    decreases |s|
  {
    if s != [] {
      ParseCommitmentNoDigits(s[..|s| - 1]);
    }
  }

  // ---------------------------------------------------------------------------------------
  // Threshold year

  /** The position of the first digit of `s`, or `|s|` when it has none. */
  function FirstDigitAt(s: string): (i: nat)
    ensures i <= |s|
    ensures forall k :: 0 <= k < i ==> !Text.IsDigit(s[k])
    ensures i < |s| ==> Text.IsDigit(s[i])
    decreases |s|
  {
    if s == [] || Text.IsDigit(s[0]) then 0
    else
      var j := FirstDigitAt(s[1..]);
      assert forall k :: 0 < k < j + 1 ==> s[k] == s[1..][k - 1];
      j + 1
  }

  /** The longest prefix of `s` made of digits. */
  function LeadingDigits(s: string): (r: string)
    ensures |r| <= |s| && r == s[..|r|]
    ensures forall k :: 0 <= k < |r| ==> Text.IsDigit(r[k])
    ensures |r| < |s| ==> !Text.IsDigit(s[|r|])
    decreases |s|
  {
    if s != [] && Text.IsDigit(s[0]) then [s[0]] + LeadingDigits(s[1..]) else []
  }

  /** The group `s.match(/(\d+)/)` captures: the leftmost maximal run of digits. It is absent
      exactly when `s` has no digit; otherwise it is non-empty, all digits, starts at the first
      digit of `s` and is not followed by another digit. */
  function FirstDigitRun(s: string): (r: Option<string>)
    ensures r.None? <==> forall k :: 0 <= k < |s| ==> !Text.IsDigit(s[k])
    ensures r.Some? ==> && r.value != []
                        && (forall k :: 0 <= k < |r.value| ==> Text.IsDigit(r.value[k]))
                        && Text.OccursAt(s, r.value, FirstDigitAt(s))
                        && (FirstDigitAt(s) + |r.value| < |s| ==> !Text.IsDigit(s[FirstDigitAt(s) + |r.value|]))
  {
    var i := FirstDigitAt(s);
    if i == |s| then None
    else
      var run := LeadingDigits(s[i..]);
      assert s[i..][0] == s[i];
      assert s[i..i + |run|] == run;
      assert i + |run| < |s| ==> s[i + |run|] == s[i..][|run|];
      Some(run)
  }

  /** `stepDownYear`: the first run of digits of the threshold as a decimal integer, else 4. */
  function StepDownYear(threshold: string): (y: nat)
    ensures FirstDigitRun(threshold).None? ==> y == 4
  {
    match FirstDigitRun(threshold)
    case Some(run) => Text.DigitsValue(run)
    case None => 4
  }

  /** The first digit of a digit-free prefix followed by a digit is where the prefix ends. */
  lemma FirstDigitAfter(prefix: string, rest: string)
    requires forall k :: 0 <= k < |prefix| ==> !Text.IsDigit(prefix[k])
    requires rest != [] && Text.IsDigit(rest[0])
    ensures FirstDigitAt(prefix + rest) == |prefix|
  {
    var s := prefix + rest;
    assert s[|prefix|] == rest[0];
    assert forall k :: 0 <= k < |prefix| ==> s[k] == prefix[k];
  }

  /** A run of digits followed by nothing or by a non-digit is the whole leading run. */
  lemma LeadingDigitsStop(d: string, suffix: string)
    requires forall k :: 0 <= k < |d| ==> Text.IsDigit(d[k])
    requires suffix == [] || !Text.IsDigit(suffix[0])
    ensures LeadingDigits(d + suffix) == d
  {
    var rest := d + suffix;
    var run := LeadingDigits(rest);
    assert forall k :: 0 <= k < |d| ==> rest[k] == d[k];
    assert |d| < |rest| ==> rest[|d|] == suffix[0];
    assert run == rest[..|d|] == d;
  }

  /** A threshold that reads the decimal rendering of `n` after a digit-free prefix, and is not
      followed by another digit, gives step-down year `n` ("Year 4" gives 4, "after 10 years"
      gives 10). */
  lemma StepDownYearReadsNumber(prefix: string, n: nat, suffix: string)
    requires forall k :: 0 <= k < |prefix| ==> !Text.IsDigit(prefix[k])
    requires suffix == [] || !Text.IsDigit(suffix[0])
    ensures StepDownYear(prefix + Text.NatToString(n) + suffix) == n
  {
    var d := Text.NatToString(n);
    var s := prefix + (d + suffix);
    assert prefix + d + suffix == s;
    FirstDigitAfter(prefix, d + suffix);
    assert s[|prefix|..] == d + suffix;
    LeadingDigitsStop(d, suffix);
    assert FirstDigitRun(s) == Some(d);
    Text.NatToStringRoundTrip(n);
  }

  // ---------------------------------------------------------------------------------------
  // The calculation

  /** What a discount row shows as its source: the document type (`null` printed as is) and the
      section reference, or "—" when it is empty. */
  datatype SourceLabel = SourceLabel(documentType: Option<string>, section: string)

  datatype DiscountLabel =
    | FeeDiscount                 // "Fee Discount"
    | StepDownFrom(year: int)     // "Step-Down (Year {year}+)"

  datatype Discount = Discount(kind: DiscountLabel, rate: real, source: SourceLabel, documentId: int)

  datatype Period =
    | YearsUpTo(last: int)        // "Years 1-{last}"
    | YearsFrom(first: int)       // "Years {first}+"

  datatype StepDown = StepDown(period: Period, rate: real, annualFee: real)

  datatype FeeCalculation = FeeCalculation(
    baseRate: real,
    discounts: seq<Discount>,
    effectiveRate: real,
    annualFee: real,
    stepDowns: seq<StepDown>)

  /** The terms the view holds: `null` before an investor is loaded, else the response's map. */
  type Terms = Option<map<string, TermsEngine.EffectiveTerm>>

  /** `terms?.terms?.[clauseType]`. */
  function TermFor(terms: Terms, clauseType: string): (t: Option<TermsEngine.EffectiveTerm>)
    ensures t.Some? <==> terms.Some? && clauseType in terms.value
  {
    if terms.Some? && clauseType in terms.value then Some(terms.value[clauseType]) else None
  }

  /** JavaScript truthiness of a nullable number (`0` and `null` are falsy). */
  function TruthyNumber(x: Option<real>): (r: Option<real>)
    ensures r.Some? <==> x.Some? && x.value != 0.0
    ensures r.Some? ==> r == x
  {
    if x.Some? && x.value != 0.0 then x else None
  }

  /** JavaScript truthiness of a nullable string (`''` and `null` are falsy). */
  predicate TruthyText(x: Option<string>) {
    x.Some? && x.value != ""
  }

  function SourceLabelOf(t: TermsEngine.EffectiveTerm): SourceLabel {
    SourceLabel(t.source.documentType, if TruthyText(t.sectionRef) then t.sectionRef.value else "—")
  }

  /** The yearly fee on a commitment at a percentage rate: `commitment * (rate / 100)`. */
  function FeeAt(commitment: real, rate: real): real {
    commitment * (rate / 100.0)
  }

  /** `discounts.reduce((sum, d) => sum + d.rate, 0)`. */
  function SumRates(ds: seq<Discount>): real
    decreases |ds|
  {
    if ds == [] then 0.0 else SumRates(ds[..|ds| - 1]) + ds[|ds| - 1].rate
  }

  lemma SumRatesSnoc(ds: seq<Discount>, d: Discount)
    ensures SumRates(ds + [d]) == SumRates(ds) + d.rate
  {
    assert (ds + [d])[..|ds|] == ds;
  }

  // The three clause types the calculator looks up.
  const ManagementFee: string := "Management Fee"
  const FeeWaiver: string := "Fee Waiver/Discount"
  const FeeStepDown: string := "Fee Step-Down"

  /** The base rate: the Management Fee term's rate when truthy, else the default 2.0. */
  function BaseRate(terms: Terms): real {
    var t := TermFor(terms, ManagementFee);
    if t.Some? && TruthyNumber(t.value.rate).Some? then t.value.rate.value else 2.0
  }

  /** The fee waiver discount, when the Fee Waiver/Discount term has a truthy discount. */
  function Waiver(terms: Terms): Option<real> {
    var t := TermFor(terms, FeeWaiver);
    if t.Some? then TruthyNumber(t.value.discount) else None
  }

  /** Whether the step-down logic runs: the Fee Step-Down term has a truthy discount and a
      truthy threshold. */
  predicate StepDownApplies(terms: Terms) {
    var t := TermFor(terms, FeeStepDown);
    t.Some? && TruthyNumber(t.value.discount).Some? && TruthyText(t.value.threshold)
  }

  function StepDownTerm(terms: Terms): TermsEngine.EffectiveTerm
    requires StepDownApplies(terms)
  {
    TermFor(terms, FeeStepDown).value
  }

  function StepDownDiscount(terms: Terms): real
    requires StepDownApplies(terms)
  {
    StepDownTerm(terms).discount.value
  }

  function StepDownYearOf(terms: Terms): nat
    requires StepDownApplies(terms)
  {
    StepDownYear(StepDownTerm(terms).threshold.value)
  }

  /** The discount entry a truthy fee waiver adds: "Fee Discount" at the negated waiver. */
  function WaiverEntries(terms: Terms): seq<Discount> {
    if Waiver(terms).Some?
    then [Discount(FeeDiscount, -Waiver(terms).value, SourceLabelOf(TermFor(terms, FeeWaiver).value),
                   TermFor(terms, FeeWaiver).value.source.documentId)]
    else []
  }

  /** The discount entry the step-down adds from its year on, at the negated step-down discount. */
  function StepDownEntries(terms: Terms, year: int): seq<Discount> {
    if StepDownApplies(terms) && year >= StepDownYearOf(terms)
    then [Discount(StepDownFrom(StepDownYearOf(terms)), -StepDownDiscount(terms),
                   SourceLabelOf(StepDownTerm(terms)), StepDownTerm(terms).source.documentId)]
    else []
  }

  /** `calculateFees(commitment, terms, year)`: the base rate, the discount entries in the order
      they are pushed (waiver, then step-down), the effective rate as the base rate plus every
      entry's (negative) rate, the annual fee at that rate, and the year-by-year projection. */
  method CalculateFees(commitment: real, terms: Terms, year: int) returns (f: FeeCalculation)
    ensures f.baseRate == BaseRate(terms)
    ensures f.discounts == WaiverEntries(terms) + StepDownEntries(terms, year)
    ensures f.effectiveRate == f.baseRate + SumRates(f.discounts)
    ensures f.annualFee == FeeAt(commitment, f.effectiveRate)
    ensures f.stepDowns == StepDowns(commitment, terms, year)
  {
    var baseRate := 2.0;
    var discounts: seq<Discount> := [];

    // Management fee from the effective terms.
    var managementFeeTerm := TermFor(terms, ManagementFee);
    if managementFeeTerm.Some? && TruthyNumber(managementFeeTerm.value.rate).Some? {
      baseRate := managementFeeTerm.value.rate.value;
    }

    // Fee waivers and discounts.
    var feeWaiverTerm := TermFor(terms, FeeWaiver);
    if feeWaiverTerm.Some? && TruthyNumber(feeWaiverTerm.value.discount).Some? {
      var t := feeWaiverTerm.value;
      var d := Discount(FeeDiscount, -t.discount.value, SourceLabelOf(t), t.source.documentId);
      SumRatesSnoc(discounts, d);
      discounts := discounts + [d];
      assert discounts == [d];
    }
    assert discounts == WaiverEntries(terms);
    assert SumRates(discounts) == -Waiver(terms).GetOr(0.0);

    var stepDowns := ProjectStepDowns(commitment, terms, year, baseRate, discounts);

    // Effective rate, then the step-down when the current year qualifies.
    var totalDiscount := SumRates(discounts);
    var effectiveRate := baseRate + totalDiscount;
    discounts, effectiveRate := ApplyStepDown(terms, year, discounts, effectiveRate);

    var annualFee := FeeAt(commitment, effectiveRate);
    f := FeeCalculation(baseRate, discounts, effectiveRate, annualFee, stepDowns);
  }

  /** The step-down projection of `calculateFees`, pushed onto the empty `stepDowns`. */
  method ProjectStepDowns(commitment: real, terms: Terms, year: int, baseRate: real, discounts: seq<Discount>)
    returns (stepDowns: seq<StepDown>)
    requires baseRate == BaseRate(terms) && discounts == WaiverEntries(terms)
    requires SumRates(discounts) == -Waiver(terms).GetOr(0.0)
    ensures stepDowns == StepDowns(commitment, terms, year)
  {
    stepDowns := [];
    var stepDownTerm := TermFor(terms, FeeStepDown);
    if stepDownTerm.Some? && TruthyNumber(stepDownTerm.value.discount).Some? && TruthyText(stepDownTerm.value.threshold) {
      var t := stepDownTerm.value;
      var stepDownYear: int := StepDownYear(t.threshold.value);
      var preStepDownRate := baseRate - SumRates(discounts);
      var postStepDownRate := preStepDownRate - t.discount.value;
      if year < stepDownYear {
        stepDowns := stepDowns + [StepDown(YearsUpTo(stepDownYear - 1), preStepDownRate,
                                           FeeAt(commitment, preStepDownRate))];
      }
      stepDowns := stepDowns + [StepDown(YearsFrom(stepDownYear), postStepDownRate,
                                         FeeAt(commitment, postStepDownRate))];
    }
  }

  /** The second step-down check of `calculateFees`: from the step-down year on, push the
      step-down entry and take its discount off the running effective rate. */
  method ApplyStepDown(terms: Terms, year: int, discounts0: seq<Discount>, effectiveRate0: real)
    returns (discounts: seq<Discount>, effectiveRate: real)
    ensures discounts == discounts0 + StepDownEntries(terms, year)
    ensures effectiveRate == effectiveRate0 - (if StepDownEntries(terms, year) == [] then 0.0 else StepDownDiscount(terms))
    ensures effectiveRate - SumRates(discounts) == effectiveRate0 - SumRates(discounts0)
  {
    discounts, effectiveRate := discounts0, effectiveRate0;
    var stepDownTerm := TermFor(terms, FeeStepDown);
    if stepDownTerm.Some? && TruthyNumber(stepDownTerm.value.discount).Some? && TruthyText(stepDownTerm.value.threshold) {
      var t := stepDownTerm.value;
      var stepDownYear := StepDownYear(t.threshold.value);
      if year >= stepDownYear {
        var d := Discount(StepDownFrom(stepDownYear), -t.discount.value, SourceLabelOf(t), t.source.documentId);
        SumRatesSnoc(discounts, d);
        discounts := discounts + [d];
        effectiveRate := effectiveRate - t.discount.value;
      }
    }
  }

  /** The year-by-year projection: nothing without a step-down; otherwise a "Years 1-(Y−1)"
      period while the year is before `Y`, then always the "Years Y+" period. The first period's
      rate is `baseRate − Σ entry.rate` over the waiver entries, whose rates are stored negated,
      so it is the base rate plus the waiver; the later period takes the step-down off that. */
  function StepDowns(commitment: real, terms: Terms, year: int): (r: seq<StepDown>)
    ensures |r| <= 2
    ensures r == [] <==> !StepDownApplies(terms)
    ensures StepDownApplies(terms) ==> r[|r| - 1].period == YearsFrom(StepDownYearOf(terms))
    ensures StepDownApplies(terms) ==> (|r| == 2 <==> year < StepDownYearOf(terms))
    ensures |r| == 2 ==> r[0].period == YearsUpTo(StepDownYearOf(terms) - 1)
    ensures forall k :: 0 <= k < |r| ==> r[k].annualFee == FeeAt(commitment, r[k].rate)
  {
    if !StepDownApplies(terms) then []
    else
      var y := StepDownYearOf(terms);
      var pre := BaseRate(terms) + Waiver(terms).GetOr(0.0);
      var post := pre - StepDownDiscount(terms);
      (if year < y then [StepDown(YearsUpTo(y - 1), pre, FeeAt(commitment, pre))] else [])
      + [StepDown(YearsFrom(y), post, FeeAt(commitment, post))]
  }

  /** The effective rate in closed form: the base rate less the waiver, less the step-down
      discount from year `Y` on, with no floor at zero. */
  lemma EffectiveRateIs(f: FeeCalculation, commitment: real, terms: Terms, year: int)
    requires f.discounts == WaiverEntries(terms) + StepDownEntries(terms, year)
    requires f.effectiveRate == f.baseRate + SumRates(f.discounts)
    ensures f.effectiveRate
            == f.baseRate - Waiver(terms).GetOr(0.0)
               - (if StepDownApplies(terms) && year >= StepDownYearOf(terms) then StepDownDiscount(terms) else 0.0)
    ensures |f.discounts| <= 2
    ensures Waiver(terms).Some? <==> f.discounts != [] && f.discounts[0].kind == FeeDiscount
    ensures StepDownApplies(terms) && year >= StepDownYearOf(terms)
            <==> f.discounts != [] && f.discounts[|f.discounts| - 1].kind.StepDownFrom?
  {
    var ds := f.discounts;
    if |ds| == 2 {
      assert SumRates(ds[..1]) == ds[0].rate by { assert ds[..1][..0] == []; }
      assert SumRates(ds) == ds[0].rate + ds[1].rate;
    } else if |ds| == 1 {
      assert SumRates(ds) == ds[0].rate by { assert ds[..0] == []; }
    }
  }

  /** As written, the projection's first period shows `base + w` while the effective rate for
      those same years is `base − w`: with a waiver the two differ by twice the waiver. */
  lemma PreStepDownRateAsWritten(commitment: real, terms: Terms, year: int)
    requires StepDownApplies(terms) && year < StepDownYearOf(terms)
    ensures StepDowns(commitment, terms, year)[0].rate == BaseRate(terms) + Waiver(terms).GetOr(0.0)
    ensures StepDowns(commitment, terms, year)[1].rate
            == BaseRate(terms) + Waiver(terms).GetOr(0.0) - StepDownDiscount(terms)
  {
  }

  /** A zero commitment has a zero fee, in every period too. */
  lemma ZeroCommitment(f: FeeCalculation, terms: Terms, year: int)
    requires f.annualFee == FeeAt(0.0, f.effectiveRate)
    requires f.stepDowns == StepDowns(0.0, terms, year)
    ensures f.annualFee == 0.0
    ensures forall k :: 0 <= k < |f.stepDowns| ==> f.stepDowns[k].annualFee == 0.0
  {
  }

  /** With no terms loaded the calculator shows the default 2% rate and nothing else. */
  lemma NoTermsDefaults(commitment: real, year: int)
    ensures BaseRate(None) == 2.0
    ensures Waiver(None).None? && !StepDownApplies(None)
    ensures StepDowns(commitment, None, year) == []
  {
  }
}
