/** The clause extraction service of the Python backend: which AI provider `extract_clauses`
    calls, and the pattern-matching mock `mock_extract_clauses` used when no provider is set up.
    The AI calls themselves, the environment and the regular-expression engine are outside the
    model: the environment is a parameter, and the matches of the four numeric patterns are given
    as `re.finditer` reports them. The document-type and MFN/co-investment cues, which are plain
    literals and character classes, are matched by the model itself. */
module Extraction {
  import opened Wrappers
  import Text

  // ---------------------------------------------------------------------------------------
  // Provider selection

  /** What the service finds in its environment: the two API keys (`os.environ.get`), and
      whether each client package could be imported. */
  datatype Environment = Environment(anthropicKey: Option<string>, openaiKey: Option<string>,
                                     anthropicAvailable: bool, openaiAvailable: bool)

  /** A key is usable when it is set and non-empty (Python truthiness). */
  predicate HasKey(key: Option<string>) {
    key.Some? && key.value != ""
  }

  /** The outcome of `extract_clauses`: a call to one provider with its key, or an error result
      whose `document_info` is `{}` and whose `clauses` is `[]`. */
  datatype Outcome = CallAnthropic(key: string) | CallOpenAi(key: string) | Failure(error: string)

  const NoProvider := "No AI provider available. Set ANTHROPIC_API_KEY or OPENAI_API_KEY environment variable."

  /** `extract_clauses(text, provider)`; the text only travels to the provider. */
  function ExtractClauses(env: Environment, provider: string): (r: Outcome)
    ensures r.CallAnthropic? ==> HasKey(env.anthropicKey) && env.anthropicAvailable && r.key == env.anthropicKey.value
    ensures r.CallOpenAi? ==> HasKey(env.openaiKey) && env.openaiAvailable && r.key == env.openaiKey.value
  {
    var chosen :=
      if provider != "auto" then Some(provider)
      else if HasKey(env.anthropicKey) && env.anthropicAvailable then Some("anthropic")
      else if HasKey(env.openaiKey) && env.openaiAvailable then Some("openai")
      else None;
    if chosen.None? then Failure(NoProvider)
    else if chosen.value == "anthropic" then
      if !HasKey(env.anthropicKey) then Failure("ANTHROPIC_API_KEY not set")
      else if !env.anthropicAvailable then Failure("anthropic package not installed")
      else CallAnthropic(env.anthropicKey.value)
    else if chosen.value == "openai" then
      if !HasKey(env.openaiKey) then Failure("OPENAI_API_KEY not set")
      else if !env.openaiAvailable then Failure("openai package not installed")
      else CallOpenAi(env.openaiKey.value)
    else Failure("Unknown provider: " + chosen.value)
  }

  /** In "auto" mode Anthropic is called exactly when its key and package are there, OpenAI
      exactly when Anthropic is not and its own key and package are, and otherwise the result is
      the "no provider" error. */
  lemma AutoSelection(env: Environment)
    ensures ExtractClauses(env, "auto").CallAnthropic? <==> HasKey(env.anthropicKey) && env.anthropicAvailable
    ensures ExtractClauses(env, "auto").CallOpenAi? <==>
              !(HasKey(env.anthropicKey) && env.anthropicAvailable) && HasKey(env.openaiKey) && env.openaiAvailable
    ensures ExtractClauses(env, "auto").Failure? ==> ExtractClauses(env, "auto").error == NoProvider
  {
  }

  /** Asked for Anthropic explicitly, a missing key is reported before a missing package. */
  lemma AnthropicErrors(env: Environment)
    ensures !HasKey(env.anthropicKey) ==> ExtractClauses(env, "anthropic") == Failure("ANTHROPIC_API_KEY not set")
    ensures HasKey(env.anthropicKey) && !env.anthropicAvailable
            ==> ExtractClauses(env, "anthropic") == Failure("anthropic package not installed")
    ensures HasKey(env.anthropicKey) && env.anthropicAvailable
            ==> ExtractClauses(env, "anthropic") == CallAnthropic(env.anthropicKey.value)
  {
  }

  /** The same for OpenAI. */
  lemma OpenAiErrors(env: Environment)
    ensures !HasKey(env.openaiKey) ==> ExtractClauses(env, "openai") == Failure("OPENAI_API_KEY not set")
    ensures HasKey(env.openaiKey) && !env.openaiAvailable
            ==> ExtractClauses(env, "openai") == Failure("openai package not installed")
    ensures HasKey(env.openaiKey) && env.openaiAvailable
            ==> ExtractClauses(env, "openai") == CallOpenAi(env.openaiKey.value)
  {
  }

  /** Any other provider name is rejected by name, whatever the environment. */
  lemma UnknownProvider(env: Environment, provider: string)
    requires provider != "auto" && provider != "anthropic" && provider != "openai"
    ensures ExtractClauses(env, provider) == Failure("Unknown provider: " + provider)
  {
  }

  // ---------------------------------------------------------------------------------------
  // Literal cues

  /** One position of a regular expression made of literals, character classes and `.`;
      Python's `.` matches anything but a newline. */
  datatype Class = OneOf(chars: set<char>) | NotNewline

  predicate ClassHas(c: Class, ch: char) {
    match c
    case OneOf(chars) => ch in chars
    case NotNewline => ch != '\n'
  }

  /** A fixed-length pattern, one class per character. */
  type Pattern = seq<Class>

  /** `p` matches `text` at position `i`. */
  predicate MatchesAt(text: string, p: Pattern, i: nat) {
    i + |p| <= |text| && forall k :: 0 <= k < |p| ==> ClassHas(p[k], text[i + k])
  }

  /** `p` matches somewhere at or after `from`. */
  predicate FoundFrom(text: string, p: Pattern, from: nat)
    decreases |text| - from
  {
    if from + |p| > |text| then false
    else MatchesAt(text, p, from) || FoundFrom(text, p, from + 1)
  }

  /** The scan finds a match exactly when there is one at or after `from`. */
  lemma {:induction false} FoundFromIff(text: string, p: Pattern, from: nat)
    ensures FoundFrom(text, p, from) <==> exists i: nat :: from <= i && MatchesAt(text, p, i)
    decreases |text| - from
  {
    if from + |p| <= |text| {
      FoundFromIff(text, p, from + 1);
      forall i: nat | from <= i && MatchesAt(text, p, i) && i != from ensures from + 1 <= i { }
    }
  }

  /** `re.search` of an alternation of fixed-length patterns succeeds. */
  predicate Search(text: string, alternatives: seq<Pattern>) {
    exists a :: 0 <= a < |alternatives| && FoundFrom(text, alternatives[a], 0)
  }

  /** The search succeeds exactly when some alternative matches somewhere. */
  lemma SearchIff(text: string, alternatives: seq<Pattern>)
    ensures Search(text, alternatives) <==>
            exists a: nat, i: nat :: a < |alternatives| && MatchesAt(text, alternatives[a], i)
  {
    forall a | 0 <= a < |alternatives|
      ensures FoundFrom(text, alternatives[a], 0) <==> exists i: nat :: MatchesAt(text, alternatives[a], i)
    {
      FoundFromIff(text, alternatives[a], 0);
    }
  }

  /** A literal string as a pattern. */
  function Lit(s: string): (p: Pattern)
    ensures |p| == |s|
    ensures forall k :: 0 <= k < |s| ==> p[k] == OneOf({s[k]})
  {
    seq(|s|, k requires 0 <= k < |s| => OneOf({s[k]}))
  }

  /** `[Xx]`: one of two letters. */
  function Either(a: char, b: char): Class {
    OneOf({a, b})
  }

  /** `[Ss]ide [Ll]etter` */
  const SideLetterCue := [[Either('S', 's')] + Lit("ide ") + [Either('L', 'l')] + Lit("etter")]
  /** `[Ss]ubscription [Aa]greement` */
  const SubscriptionCue := [[Either('S', 's')] + Lit("ubscription ") + [Either('A', 'a')] + Lit("greement")]
  /** `[Aa]mendment` */
  const AmendmentCue := [[Either('A', 'a')] + Lit("mendment")]
  /** `PPM|[Pp]rivate [Pp]lacement` */
  const PpmCue := [Lit("PPM"), [Either('P', 'p')] + Lit("rivate ") + [Either('P', 'p')] + Lit("lacement")]
  /** `[Ff]ee [Ss]chedule` */
  const FeeScheduleCue := [[Either('F', 'f')] + Lit("ee ") + [Either('S', 's')] + Lit("chedule")]
  /** `[Mm]ost [Ff]avored [Nn]ation|MFN` */
  const MfnCue := [[Either('M', 'm')] + Lit("ost ") + [Either('F', 'f')] + Lit("avored ") + [Either('N', 'n')] + Lit("ation"),
                   Lit("MFN")]
  /** `[Cc]o.?[Ii]nvestment`, the optional character spelled out as a second alternative. */
  const CoInvestmentCue := [[Either('C', 'c'), OneOf({'o'}), Either('I', 'i')] + Lit("nvestment"),
                            [Either('C', 'c'), OneOf({'o'}), NotNewline, Either('I', 'i')] + Lit("nvestment")]

  /** The document-type cues, in the order the `if`/`elif` chain tries them. */
  function DocTypeCues(): seq<(seq<Pattern>, string)> {
    [(SideLetterCue, "Side Letter"), (SubscriptionCue, "Subscription Agreement"), (AmendmentCue, "Amendment"),
     (PpmCue, "PPM"), (FeeScheduleCue, "Fee Schedule")]
  }

  /** The type of the first cue found in the text, or "Unknown". */
  function FirstCue(text: string, cues: seq<(seq<Pattern>, string)>): (t: string)
    decreases |cues|
  {
    if cues == [] then "Unknown"
    else if Search(text, cues[0].0) then cues[0].1
    else FirstCue(text, cues[1..])
  }

  /** The detected type is the one of the earliest cue in the list that the text matches, and
      "Unknown" exactly when it matches none. */
  lemma {:induction false} FirstCueIsEarliest(text: string, cues: seq<(seq<Pattern>, string)>, j: nat)
    requires j < |cues| && Search(text, cues[j].0)
    requires forall i :: 0 <= i < j ==> !Search(text, cues[i].0)
    ensures FirstCue(text, cues) == cues[j].1
    decreases j
  {
    if j > 0 {
      FirstCueIsEarliest(text, cues[1..], j - 1);
    }
  }

  lemma {:induction false} FirstCueUnknown(text: string, cues: seq<(seq<Pattern>, string)>)
    requires forall i :: 0 <= i < |cues| ==> !Search(text, cues[i].0)
    ensures FirstCue(text, cues) == "Unknown"
    decreases |cues|
  {
    if cues != [] {
      FirstCueUnknown(text, cues[1..]);
    }
  }

  // ---------------------------------------------------------------------------------------
  // The mock extraction

  /** Which term a numeric pattern fills. */
  datatype TermField = RateField | DiscountField

  /** One entry of the `patterns` list. */
  datatype NumericPattern = NumericPattern(clauseType: string, field: TermField)

  function Patterns(): seq<NumericPattern> {
    [NumericPattern("Management Fee", RateField), NumericPattern("Preferred Return", RateField),
     NumericPattern("Carry Terms", RateField), NumericPattern("Fee Step-Down", DiscountField)]
  }

  /** One match reported by `re.finditer`: its span and `float(match.group(1))`. */
  datatype RegexMatch = RegexMatch(start: nat, end: nat, value: real)

  /** An extracted clause record. */
  datatype ExtractedClause = ExtractedClause(
    clauseType: string, rate: Option<real>, discount: Option<real>, threshold: Option<string>,
    thresholdAmount: Option<real>, effectiveDate: Option<string>, sectionRef: Option<string>,
    pageNumber: Option<int>, clauseText: string, confidence: real, notes: string)

  /** The result of `mock_extract_clauses`: `document_info` and `clauses`. */
  datatype MockResult = MockResult(detectedType: string, detectedInvestor: Option<string>,
                                   detectedFund: Option<string>, effectiveDate: Option<string>,
                                   clauses: seq<ExtractedClause>)

  /** The context window around a match: up to 50 characters before and 100 after, clipped to
      the text. */
  function ContextWindow(len: nat, m: RegexMatch): (w: (nat, nat))
    requires m.start <= m.end <= len
    ensures 0 <= w.0 <= m.start <= m.end <= w.1 <= len
    ensures m.start - w.0 <= 50 && (w.0 == 0 || m.start - w.0 == 50)
    ensures w.1 - m.end <= 100 && (w.1 == len || w.1 - m.end == 100)
  {
    var start := if m.start >= 50 then m.start - 50 else 0;
    var end := if m.end + 100 <= len then m.end + 100 else len;
    (start, end)
  }

  /** The clause a numeric match yields. */
  function PatternClause(text: string, p: NumericPattern, m: RegexMatch): ExtractedClause
    requires m.start <= m.end <= |text|
  {
    var w := ContextWindow(|text|, m);
    ExtractedClause(p.clauseType, if p.field == RateField then Some(m.value) else None,
                    if p.field == DiscountField then Some(m.value) else None, None, None, None, None, None,
                    Text.StripPy(text[w.0..w.1]), 0.6, "Extracted via pattern matching (mock mode)")
  }

  /** Matches that lie inside the text, as the regular-expression engine reports them. */
  predicate InText(text: string, ms: seq<RegexMatch>) {
    forall k :: 0 <= k < |ms| ==> ms[k].start <= ms[k].end <= |text|
  }

  /** The clauses of one pattern's matches, in match order. */
  function MatchClauses(text: string, p: NumericPattern, ms: seq<RegexMatch>): seq<ExtractedClause>
    requires InText(text, ms)
  {
    seq(|ms|, k requires 0 <= k < |ms| => PatternClause(text, p, ms[k]))
  }

  /** The clauses of the first `n` patterns' matches, pattern by pattern. */
  function PatternClauses(text: string, found: seq<seq<RegexMatch>>, n: nat): seq<ExtractedClause>
    requires n <= |found| <= |Patterns()|
    requires forall i :: 0 <= i < |found| ==> InText(text, found[i])
  {
    if n == 0 then [] else PatternClauses(text, found, n - 1) + MatchClauses(text, Patterns()[n - 1], found[n - 1])
  }

  /** The clause added when a cue is found, with the trimmed context the second search reports. */
  function CueClause(clauseType: string, context: string, notes: string): ExtractedClause {
    ExtractedClause(clauseType, None, None, None, None, None, None, None, Text.StripPy(context), 0.7, notes)
  }

  const MfnNotes := "MFN clause detected (mock mode)"
  const CoInvestmentNotes := "Co-investment rights detected (mock mode)"

  /** What `mock_extract_clauses` returns. `found[i]` are the matches of `Patterns()[i]`;
      `mfnContext` and `coInvestmentContext` are `group(1)` of the context searches, which match
      whenever their cue does. */
  function MockExtraction(text: string, found: seq<seq<RegexMatch>>, mfnContext: Option<string>,
                          coInvestmentContext: Option<string>): MockResult
    requires |found| == |Patterns()|
    requires forall i :: 0 <= i < |found| ==> InText(text, found[i])
  {
    var mfn := if Search(text, MfnCue) && mfnContext.Some?
               then [CueClause("MFN (Most Favored Nation)", mfnContext.value, MfnNotes)] else [];
    var coInvestment := if Search(text, CoInvestmentCue) && coInvestmentContext.Some?
                        then [CueClause("Co-investment Rights", coInvestmentContext.value, CoInvestmentNotes)] else [];
    MockResult(FirstCue(text, DocTypeCues()), None, None, None,
               PatternClauses(text, found, |found|) + mfn + coInvestment)
  }

  /** A clause from a numeric pattern: exactly the term its type's pattern fills, at
      confidence 0.6, every other term missing. */
  predicate PatternShaped(c: ExtractedClause) {
    && (c.rate.Some? <==> c.clauseType != "Fee Step-Down")
    && (c.discount.Some? <==> c.clauseType == "Fee Step-Down")
    && c.threshold.None? && c.thresholdAmount.None? && c.effectiveDate.None?
    && c.sectionRef.None? && c.pageNumber.None? && c.confidence == 0.6
  }

  lemma MatchClausesShape(text: string, i: nat, ms: seq<RegexMatch>)
    requires i < |Patterns()| && InText(text, ms)
    ensures forall k :: 0 <= k < |ms| ==> PatternShaped(MatchClauses(text, Patterns()[i], ms)[k])
  {
  }

  /** Each pattern clause carries exactly the term its pattern names, at confidence 0.6. */
  lemma {:induction false} PatternClausesShape(text: string, found: seq<seq<RegexMatch>>, n: nat)
    requires n <= |found| <= |Patterns()|
    requires forall i :: 0 <= i < |found| ==> InText(text, found[i])
    ensures forall k :: 0 <= k < |PatternClauses(text, found, n)| ==> PatternShaped(PatternClauses(text, found, n)[k])
    decreases n
  {
    if n > 0 {
      PatternClausesShape(text, found, n - 1);
      MatchClausesShape(text, n - 1, found[n - 1]);
      var a := PatternClauses(text, found, n - 1);
      var b := MatchClauses(text, Patterns()[n - 1], found[n - 1]);
      assert PatternClauses(text, found, n) == a + b;
      forall k | 0 <= k < |a + b| ensures PatternShaped((a + b)[k]) {
        if k < |a| { assert (a + b)[k] == a[k]; } else { assert (a + b)[k] == b[k - |a|]; }
      }
    }
  }

  /** There is one pattern clause per match. */
  lemma {:induction false} PatternClausesCount(text: string, found: seq<seq<RegexMatch>>, n: nat)
    requires n <= |found| <= |Patterns()|
    requires forall i :: 0 <= i < |found| ==> InText(text, found[i])
    ensures |PatternClauses(text, found, n)| == MatchCount(found, n)
    decreases n
  {
    if n > 0 {
      PatternClausesCount(text, found, n - 1);
    }
  }

  function MatchCount(found: seq<seq<RegexMatch>>, n: nat): nat
    requires n <= |found|
  {
    if n == 0 then 0 else MatchCount(found, n - 1) + |found[n - 1]|
  }

  /** After the pattern clauses come at most one MFN and at most one co-investment clause, in
      that order, each at confidence 0.7 and present exactly when its cue is found. */
  lemma CueClauses(text: string, found: seq<seq<RegexMatch>>, mfnContext: Option<string>,
                   coInvestmentContext: Option<string>)
    requires |found| == |Patterns()|
    requires forall i :: 0 <= i < |found| ==> InText(text, found[i])
    requires mfnContext.Some? && coInvestmentContext.Some?
    ensures var r := MockExtraction(text, found, mfnContext, coInvestmentContext).clauses;
            var n := |PatternClauses(text, found, |found|)|;
            && |r| == n + (if Search(text, MfnCue) then 1 else 0) + (if Search(text, CoInvestmentCue) then 1 else 0)
            && (forall k :: n <= k < |r| ==> r[k].confidence == 0.7)
            && (Search(text, MfnCue) ==> r[n].clauseType == "MFN (Most Favored Nation)")
            && (Search(text, CoInvestmentCue) ==> r[|r| - 1].clauseType == "Co-investment Rights")
  {
  }

  /** The detected type follows the cue order, and the investor, fund and date are never
      detected. */
  lemma MockDocumentInfo(text: string, found: seq<seq<RegexMatch>>, mfnContext: Option<string>,
                         coInvestmentContext: Option<string>)
    requires |found| == |Patterns()|
    requires forall i :: 0 <= i < |found| ==> InText(text, found[i])
    ensures var r := MockExtraction(text, found, mfnContext, coInvestmentContext);
            && r.detectedInvestor.None? && r.detectedFund.None? && r.effectiveDate.None?
            && (Search(text, SideLetterCue) ==> r.detectedType == "Side Letter")
            && (!Search(text, SideLetterCue) && Search(text, SubscriptionCue) ==> r.detectedType == "Subscription Agreement")
            && (forall j :: 0 <= j < |DocTypeCues()| ==> !Search(text, DocTypeCues()[j].0)) == (r.detectedType == "Unknown")
  {
    var cues := DocTypeCues();
    if Search(text, SideLetterCue) {
      FirstCueIsEarliest(text, cues, 0);
    } else if Search(text, SubscriptionCue) {
      FirstCueIsEarliest(text, cues, 1);
    }
    if forall j :: 0 <= j < |cues| ==> !Search(text, cues[j].0) {
      FirstCueUnknown(text, cues);
    } else {
      var j :| 0 <= j < |cues| && Search(text, cues[j].0);
      FirstFound(text, cues, j);
    }
  }

  /** When some cue is found, the type is a real one. */
  lemma {:induction false} FirstFound(text: string, cues: seq<(seq<Pattern>, string)>, j: nat)
    requires j < |cues| && Search(text, cues[j].0)
    requires forall i :: 0 <= i < |cues| ==> cues[i].1 != "Unknown"
    ensures FirstCue(text, cues) != "Unknown"
    decreases j
  {
    if !Search(text, cues[0].0) {
      FirstFound(text, cues[1..], j - 1);
    }
  }

  /** The inner loop: one clause appended per match of pattern `p`. */
  method AppendMatchClauses(text: string, p: NumericPattern, matches: seq<RegexMatch>, clauses0: seq<ExtractedClause>)
    returns (clauses: seq<ExtractedClause>)
    requires InText(text, matches)
    ensures clauses == clauses0 + MatchClauses(text, p, matches)
  {
    clauses := clauses0;
    for j := 0 to |matches|
      invariant clauses == clauses0 + MatchClauses(text, p, matches[..j])
    {
      var m := matches[j];
      var w := ContextWindow(|text|, m);
      var context := Text.StripPy(text[w.0..w.1]);
      var clause := ExtractedClause(p.clauseType, if p.field == RateField then Some(m.value) else None,
                                    if p.field == DiscountField then Some(m.value) else None,
                                    None, None, None, None, None, context, 0.6,
                                    "Extracted via pattern matching (mock mode)");
      assert MatchClauses(text, p, matches[..j + 1]) == MatchClauses(text, p, matches[..j]) + [clause];
      clauses := clauses + [clause];
    }
    assert matches[..|matches|] == matches;
  }

  /** The outer loop over the patterns. */
  method PushPatternClauses(text: string, found: seq<seq<RegexMatch>>) returns (clauses: seq<ExtractedClause>)
    requires |found| == |Patterns()|
    requires forall i :: 0 <= i < |found| ==> InText(text, found[i])
    ensures clauses == PatternClauses(text, found, |found|)
  {
    clauses := [];
    var patterns := Patterns();
    for i := 0 to |patterns|
      invariant clauses == PatternClauses(text, found, i)
    {
      clauses := AppendMatchClauses(text, patterns[i], found[i], clauses);
    }
  }

  /** The `if`/`elif` chain that reassigns `doc_type`. */
  method DetectDocType(text: string) returns (docType: string)
    ensures docType == FirstCue(text, DocTypeCues())
  {
    docType := "Unknown";
    if Search(text, SideLetterCue) {
      docType := "Side Letter";
    } else if Search(text, SubscriptionCue) {
      docType := "Subscription Agreement";
    } else if Search(text, AmendmentCue) {
      docType := "Amendment";
    } else if Search(text, PpmCue) {
      docType := "PPM";
    } else if Search(text, FeeScheduleCue) {
      docType := "Fee Schedule";
    }
    DocTypeChain(text);
  }

  /** `mock_extract_clauses(text)`. */
  method MockExtractClauses(text: string, found: seq<seq<RegexMatch>>, mfnContext: Option<string>,
                            coInvestmentContext: Option<string>) returns (r: MockResult)
    requires |found| == |Patterns()|
    requires forall i :: 0 <= i < |found| ==> InText(text, found[i])
    ensures r == MockExtraction(text, found, mfnContext, coInvestmentContext)
  {
    var clauses := PushPatternClauses(text, found);
    if Search(text, MfnCue) {
      if mfnContext.Some? {
        clauses := clauses + [CueClause("MFN (Most Favored Nation)", mfnContext.value, MfnNotes)];
      }
    }
    if Search(text, CoInvestmentCue) {
      if coInvestmentContext.Some? {
        clauses := clauses + [CueClause("Co-investment Rights", coInvestmentContext.value, CoInvestmentNotes)];
      }
    }
    var docType := DetectDocType(text);
    r := MockResult(docType, None, None, None, clauses);
  }

  /** The `if`/`elif` chain over the cues is `FirstCue` over the cue list. */
  lemma DocTypeChain(text: string)
    ensures FirstCue(text, DocTypeCues())
            == if Search(text, SideLetterCue) then "Side Letter"
               else if Search(text, SubscriptionCue) then "Subscription Agreement"
               else if Search(text, AmendmentCue) then "Amendment"
               else if Search(text, PpmCue) then "PPM"
               else if Search(text, FeeScheduleCue) then "Fee Schedule"
               else "Unknown"
  {
    var cues := DocTypeCues();
    assert cues[1..][1..][1..][1..][1..] == [];
  }

  /** A text naming both a side letter and an amendment is detected as a side letter. */
  lemma SideLetterBeforeAmendment()
    ensures FirstCue("Amendment to the Side Letter", DocTypeCues()) == "Side Letter"
  {
    var text := "Amendment to the Side Letter";
    var p := SideLetterCue[0];
    assert |p| == 11;
    assert MatchesAt(text, p, 17) by {
      forall k | 0 <= k < 11 ensures ClassHas(p[k], text[17 + k]) {
        assert text[17..28] == "Side Letter";
        assert text[17 + k] == "Side Letter"[k];
      }
    }
    FoundFromIff(text, p, 0);
    assert Search(text, SideLetterCue);
    FirstCueIsEarliest(text, DocTypeCues(), 0);
  }
}
