/**
  The completeness scorer of the PRD reviewer: a document is checked against
  a template of weighted sections, each detected by case-insensitive keyword
  containment, and the results are classified into a report.
 */
module ValidatorAgent {
  import opened Strings

  // ---------------------------------------------------------------------------
  // Data model
  // ---------------------------------------------------------------------------

  /** One section of the parsed template. */
  datatype Section = Section(name: string, required: bool, severity: string, keywords: seq<string>)

  /**
    The parsed template: its sections in order and its `scoring` table, whose
    keys are of the form `<severity>_weight`.
   */
  datatype Template = Template(sections: seq<Section>, scoring: map<string, int>)

  /** The verdict for a single section. */
  datatype ValidationResult = ValidationResult(
    sectionName: string,
    required: bool,
    found: bool,
    severity: string,
    keywordsFound: seq<string>,
    score: int)

  /** The structured report built from a list of results and the overall score. */
  datatype Report = Report(
    score: int,
    status: string,
    statusEmoji: string,
    missingCritical: seq<string>,
    missingHigh: seq<string>,
    missingMedium: seq<string>,
    foundSections: seq<string>,
    totalSections: nat,
    foundCount: nat,
    missingCount: int)

  const ReadyForReview := "READY FOR REVIEW"
  const NeedsImprovement := "NEEDS IMPROVEMENT"
  const NotReady := "NOT READY"

  // ---------------------------------------------------------------------------
  // Scoring of one section
  // ---------------------------------------------------------------------------

  function WeightKey(severity: string): string {
    severity + "_weight"
  }

  /** The weight of a severity tier; a tier without an entry weighs 0. */
  function Weight(scoring: map<string, int>, severity: string): (w: int)
    ensures WeightKey(severity) in scoring ==> w == scoring[WeightKey(severity)]
    ensures WeightKey(severity) !in scoring ==> w == 0
  {
    var key := WeightKey(severity);
    if key in scoring then scoring[key] else 0
  }

  /** The keywords, in template order, that occur in the lower-cased document. */
  function KeywordsFound(prdLower: string, keywords: seq<string>): (r: seq<string>)
    ensures |r| <= |keywords|
    ensures forall kw :: kw in r <==> kw in keywords && Contains(prdLower, Lower(kw))
  {
    if keywords == [] then []
    else
      var rest := KeywordsFound(prdLower, keywords[1..]);
      if Contains(prdLower, Lower(keywords[0])) then [keywords[0]] + rest else rest
  }

  /** The result for one section of the template. */
  function EvalSection(prdLower: string, section: Section, scoring: map<string, int>): (r: ValidationResult)
    ensures r.sectionName == section.name && r.required == section.required && r.severity == section.severity
    ensures r.keywordsFound == KeywordsFound(prdLower, section.keywords)
    ensures r.found <==> exists kw :: kw in section.keywords && Contains(prdLower, Lower(kw))
    ensures r.score == if r.found then Weight(scoring, section.severity) else 0
  {
    var found := KeywordsFound(prdLower, section.keywords);
    assert found != [] ==> found[0] in found;
    ValidationResult(
      section.name, section.required, |found| > 0, section.severity, found,
      if |found| > 0 then Weight(scoring, section.severity) else 0)
  }

  /** The results for a list of sections, one per section, in order. */
  function Evaluate(prdLower: string, sections: seq<Section>, scoring: map<string, int>): (r: seq<ValidationResult>)
    ensures |r| == |sections|
  {
    if sections == [] then []
    else
      var n := |sections| - 1;
      Evaluate(prdLower, sections[..n], scoring) + [EvalSection(prdLower, sections[n], scoring)]
  }

  /** The i-th result is the verdict on the i-th section. */
  lemma {:induction false} EvaluateAt(prdLower: string, sections: seq<Section>, scoring: map<string, int>)
    ensures forall i :: 0 <= i < |sections| ==>
              Evaluate(prdLower, sections, scoring)[i] == EvalSection(prdLower, sections[i], scoring)
  {
    if sections != [] {
      var n := |sections| - 1;
      EvaluateAt(prdLower, sections[..n], scoring);
      forall i | 0 <= i < |sections|
        ensures Evaluate(prdLower, sections, scoring)[i] == EvalSection(prdLower, sections[i], scoring)
      {
        if i < n { assert sections[..n][i] == sections[i]; }
      }
    }
  }

  // ---------------------------------------------------------------------------
  // Totals and the overall percentage
  // ---------------------------------------------------------------------------

  /** The earned total: the scores of all results, optional sections included. */
  function EarnedTotal(results: seq<ValidationResult>): int {
    if results == [] then 0
    else EarnedTotal(results[..|results| - 1]) + results[|results| - 1].score
  }

  predicate ScoresNonNegative(results: seq<ValidationResult>) {
    forall i :: 0 <= i < |results| ==> results[i].score >= 0
  }

  predicate ScoresAtMost(results: seq<ValidationResult>, bound: int) {
    forall i :: 0 <= i < |results| ==> results[i].score <= bound
  }

  predicate WeightsNonNegative(scoring: map<string, int>) {
    forall k :: k in scoring ==> scoring[k] >= 0
  }

  predicate RequiredWeightsAtMost(sections: seq<Section>, scoring: map<string, int>, bound: int) {
    forall i :: 0 <= i < |sections| && sections[i].required ==> Weight(scoring, sections[i].severity) <= bound
  }

  /** The possible total: the weights of the required sections, found or not. */
  function PossibleTotal(sections: seq<Section>, scoring: map<string, int>): int {
    if sections == [] then 0
    else
      var last := sections[|sections| - 1];
      PossibleTotal(sections[..|sections| - 1], scoring) + if last.required then Weight(scoring, last.severity) else 0
  }

  /** With non-negative scores the earned total is non-negative and bounds every single score. */
  lemma {:induction false} EarnedTotalBounds(results: seq<ValidationResult>)
    requires ScoresNonNegative(results)
    ensures 0 <= EarnedTotal(results) && ScoresAtMost(results, EarnedTotal(results))
  {
    if results != [] {
      var init := results[..|results| - 1];
      assert ScoresNonNegative(init) by {
        forall i | 0 <= i < |init| ensures init[i].score >= 0 { assert init[i] == results[i]; }
      }
      EarnedTotalBounds(init);
      forall i | 0 <= i < |results| ensures results[i].score <= EarnedTotal(results) {
        if i < |init| { assert init[i] == results[i]; }
      }
    }
  }

  /** With non-negative weights the possible total is non-negative and bounds every required section's weight. */
  lemma {:induction false} PossibleTotalBounds(sections: seq<Section>, scoring: map<string, int>)
    requires WeightsNonNegative(scoring)
    ensures 0 <= PossibleTotal(sections, scoring)
    ensures RequiredWeightsAtMost(sections, scoring, PossibleTotal(sections, scoring))
  {
    if sections != [] {
      var init := sections[..|sections| - 1];
      PossibleTotalBounds(init, scoring);
      forall i | 0 <= i < |sections| && sections[i].required
        ensures Weight(scoring, sections[i].severity) <= PossibleTotal(sections, scoring)
      {
        if i < |init| { assert init[i] == sections[i]; }
      }
    }
  }

  /** Python's `int(x / y)` for `y > 0`: the quotient truncated toward zero. */
  function TruncDiv(x: int, y: int): (q: int)
    requires y > 0
    ensures x >= 0 ==> 0 <= q && q * y <= x < (q + 1) * y
    ensures x < 0 ==> q <= 0 && (q - 1) * y < x <= q * y
  {
    if x >= 0 then DivBounds(x, y); x / y
    else DivBounds(-x, y); -((-x) / y)
  }

  lemma DivBounds(x: int, y: int)
    requires x >= 0 && y > 0
    ensures 0 <= x / y && (x / y) * y <= x < (x / y + 1) * y
  {
    var q, m := x / y, x % y;
    assert x == q * y + m && 0 <= m < y;
    assert (q + 1) * y == q * y + y;
  }

  /** The overall percentage: `earned * 100 / possible` truncated, or 0 when nothing is possible. */
  function OverallScore(earned: int, possible: int): (r: int)
    ensures possible <= 0 ==> r == 0
    ensures possible > 0 && earned >= 0 ==> 0 <= r && r * possible <= earned * 100 < (r + 1) * possible
    ensures possible > 0 && earned < 0 ==> r <= 0 && (r - 1) * possible < earned * 100 <= r * possible
  {
    if possible > 0 then TruncDiv(earned * 100, possible) else 0
  }

  // ---------------------------------------------------------------------------
  // ValidatorAgent.validate
  // ---------------------------------------------------------------------------

  /**
    Walks the template's sections in order, evaluating each against the
    lower-cased document and keeping the earned and possible running totals.
   */
  method Validate(template: Template, prdText: string) returns (results: seq<ValidationResult>, overallScore: int)
    ensures results == Evaluate(Lower(prdText), template.sections, template.scoring)
    ensures overallScore == OverallScore(EarnedTotal(results), PossibleTotal(template.sections, template.scoring))
  {
    var prdLower := Lower(prdText);
    var sections := template.sections;
    results := [];
    var totalScore := 0;
    var maxScore := 0;
    for i := 0 to |sections|
      invariant results == Evaluate(prdLower, sections[..i], template.scoring)
      invariant totalScore == EarnedTotal(results)
      invariant maxScore == PossibleTotal(sections[..i], template.scoring)
    {
      var section := sections[i];
      var result := EvaluateSection(prdLower, section, template.scoring);
      if section.required {
        maxScore := maxScore + Weight(template.scoring, section.severity);
      }
      totalScore := totalScore + result.score;
      EvaluateStep(prdLower, sections, i, template.scoring);
      EarnedTotalStep(results, result);
      results := results + [result];
    }
    assert sections[..|sections|] == sections;
    overallScore := if maxScore > 0 then TruncDiv(totalScore * 100, maxScore) else 0;
  }

  /**
    The verdict on one section, computed step by step as the body of the
    section loop does it: the keywords found, whether the section is found,
    and the score it earns. It is the imperative form of `EvalSection`, which
    states what the verdict means.
   */
  method EvaluateSection(prdLower: string, section: Section, scoring: map<string, int>) returns (result: ValidationResult)
    ensures result == EvalSection(prdLower, section, scoring)
  {
    var keywordsFound := KeywordsFound(prdLower, section.keywords);
    var found := |keywordsFound| > 0;
    var sectionWeight := Weight(scoring, section.severity);
    var sectionScore := if found then sectionWeight else 0;
    result := ValidationResult(section.name, section.required, found, section.severity, keywordsFound, sectionScore);
    EvalSectionParts(prdLower, section, scoring, keywordsFound);
  }

  /** One more section extends the results by its verdict and the possible total by its share. */
  lemma EvaluateStep(prdLower: string, sections: seq<Section>, i: nat, scoring: map<string, int>)
    requires i < |sections|
    ensures Evaluate(prdLower, sections[..i + 1], scoring)
         == Evaluate(prdLower, sections[..i], scoring) + [EvalSection(prdLower, sections[i], scoring)]
    ensures PossibleTotal(sections[..i + 1], scoring)
         == PossibleTotal(sections[..i], scoring) + if sections[i].required then Weight(scoring, sections[i].severity) else 0
  {
    assert sections[..i + 1][..i] == sections[..i];
  }

  lemma EvalSectionParts(prdLower: string, section: Section, scoring: map<string, int>, keywordsFound: seq<string>)
    requires keywordsFound == KeywordsFound(prdLower, section.keywords)
    ensures EvalSection(prdLower, section, scoring)
         == ValidationResult(section.name, section.required, |keywordsFound| > 0, section.severity, keywordsFound,
                             if |keywordsFound| > 0 then Weight(scoring, section.severity) else 0)
  {
  }

  lemma EarnedTotalStep(results: seq<ValidationResult>, r: ValidationResult)
    ensures EarnedTotal(results + [r]) == EarnedTotal(results) + r.score
  {
    assert (results + [r])[..|results|] == results;
  }

  // ---------------------------------------------------------------------------
  // Properties of the scorer
  // ---------------------------------------------------------------------------

  /** Keyword filtering preserves template order: it distributes over concatenation. */
  lemma {:induction false} KeywordsFoundAppend(prdLower: string, a: seq<string>, b: seq<string>)
    ensures KeywordsFound(prdLower, a + b) == KeywordsFound(prdLower, a) + KeywordsFound(prdLower, b)
  {
    if a != [] {
      assert (a + b)[1..] == a[1..] + b;
      KeywordsFoundAppend(prdLower, a[1..], b);
    } else {
      assert a + b == b;
    }
  }

  /** Adding a keyword to a section that is already found leaves its score unchanged. */
  lemma ExtraKeywordKeepsScore(prdLower: string, section: Section, kw: string, scoring: map<string, int>)
    requires EvalSection(prdLower, section, scoring).found
    ensures EvalSection(prdLower, section.(keywords := section.keywords + [kw]), scoring).score
         == EvalSection(prdLower, section, scoring).score
  {
    var kw0 :| kw0 in section.keywords && Contains(prdLower, Lower(kw0));
    assert kw0 in section.(keywords := section.keywords + [kw]).keywords;
  }

  /** A keyword matches every case variant of itself that occurs in the document. */
  lemma CaseInsensitiveMatch(prdText: string, section: Section, kw: string, variant: string, scoring: map<string, int>)
    requires kw in section.keywords
    requires Contains(prdText, variant) && Lower(variant) == Lower(kw)
    ensures kw in EvalSection(Lower(prdText), section, scoring).keywordsFound
    ensures EvalSection(Lower(prdText), section, scoring).found
  {
    ContainsLower(prdText, variant);
  }

  lemma {:induction false} EarnedWithinPossible(prdLower: string, sections: seq<Section>, scoring: map<string, int>)
    requires forall i :: 0 <= i < |sections| ==> sections[i].required
    requires forall i :: 0 <= i < |sections| ==> Weight(scoring, sections[i].severity) >= 0
    ensures 0 <= EarnedTotal(Evaluate(prdLower, sections, scoring)) <= PossibleTotal(sections, scoring)
  {
    if sections != [] {
      var n := |sections| - 1;
      var rs := Evaluate(prdLower, sections, scoring);
      assert rs[..n] == Evaluate(prdLower, sections[..n], scoring);
      EarnedWithinPossible(prdLower, sections[..n], scoring);
    }
  }

  lemma PercentAtMostHundred(earned: int, possible: int)
    requires 0 <= earned <= possible
    ensures OverallScore(earned, possible) <= 100
  {
    if possible > 0 {
      var r := OverallScore(earned, possible);
      assert r * possible <= earned * 100;
      assert earned * 100 <= possible * 100;
      if r > 100 {
        MulStrict(100, r, possible);
      }
    }
  }

  lemma MulStrict(a: int, b: int, c: int)
    requires a < b && c > 0
    ensures a * c < b * c
  {
  }

  /**
    With non-negative weights and every section required, the overall score
    lies between 0 and 100.
   */
  lemma ScoreWithinRange(template: Template, prdText: string)
    requires forall i :: 0 <= i < |template.sections| ==> template.sections[i].required
    requires forall i :: 0 <= i < |template.sections| ==> Weight(template.scoring, template.sections[i].severity) >= 0
    ensures var results := Evaluate(Lower(prdText), template.sections, template.scoring);
            0 <= OverallScore(EarnedTotal(results), PossibleTotal(template.sections, template.scoring)) <= 100
  {
    var results := Evaluate(Lower(prdText), template.sections, template.scoring);
    var earned := EarnedTotal(results);
    var possible := PossibleTotal(template.sections, template.scoring);
    EarnedWithinPossible(Lower(prdText), template.sections, template.scoring);
    if possible > 0 {
      PercentAtMostHundred(earned, possible);
    }
  }

  /**
    An optional section that is found adds to the earned total and not to the
    possible total: a required and an optional section of the same severity,
    both found, give an overall score of 200.
   */
  lemma OptionalSectionCanExceedHundred(prdLower: string, req: Section, opt: Section, scoring: map<string, int>)
    requires req.required && !opt.required && req.severity == opt.severity
    requires Weight(scoring, req.severity) > 0
    requires EvalSection(prdLower, req, scoring).found && EvalSection(prdLower, opt, scoring).found
    ensures var results := Evaluate(prdLower, [req, opt], scoring);
            OverallScore(EarnedTotal(results), PossibleTotal([req, opt], scoring)) == 200
  {
    var w := Weight(scoring, req.severity);
    var sections := [req, opt];
    var results := Evaluate(prdLower, sections, scoring);
    assert sections[..1] == [req] && [req][..0] == [];
    assert results[..1] == Evaluate(prdLower, [req], scoring);
    assert results[..1][..0] == [];
    assert results[0].score == w && results[1].score == w;
    assert EarnedTotal(results[..1]) == w;
    assert EarnedTotal(results) == w + w;
    assert PossibleTotal(sections[..1], scoring) == PossibleTotal([req], scoring) == w;
    assert PossibleTotal(sections, scoring) == w;
    ExactPercent(200, w);
  }

  lemma ExactPercent(k: nat, y: int)
    requires y > 0 && k % 100 == 0
    ensures OverallScore(k / 100 * y, y) == k
  {
    var x := k / 100 * y * 100;
    assert x == k * y;
    var q := x / y;
    assert x == q * y + x % y;
    assert k * y == q * y + x % y;
    if q < k {
      MulStrict(q, k, y);
      assert (q + 1) * y <= k * y by { MulMono(q + 1, k, y); }
    } else if q > k {
      MulStrict(k, q, y);
    }
  }

  lemma MulMono(a: int, b: int, c: int)
    requires a <= b && c >= 0
    ensures a * c <= b * c
  {
  }

  /** On an empty document no section whose keywords are all non-empty is found. */
  lemma EmptyDocumentFindsNothing(template: Template)
    requires forall s, kw :: s in template.sections && kw in s.keywords ==> kw != []
    ensures var results := Evaluate(Lower(""), template.sections, template.scoring);
            forall i :: 0 <= i < |results| ==> !results[i].found && results[i].score == 0
  {
    EvaluateAt(Lower(""), template.sections, template.scoring);
  }

  // ---------------------------------------------------------------------------
  // ValidatorAgent.format_report
  // ---------------------------------------------------------------------------

  predicate IsFound(r: ValidationResult) { r.found }
  predicate IsMissing(r: ValidationResult) { !r.found }
  predicate IsMissingCritical(r: ValidationResult) { !r.found && r.required && r.severity == "critical" }
  predicate IsMissingHigh(r: ValidationResult) { !r.found && r.required && r.severity == "high" }
  /** Not gated on `required`: a missing medium section is listed even when optional. */
  predicate IsMissingMedium(r: ValidationResult) { !r.found && r.severity == "medium" }

  /** The results satisfying `keep`, in their original order. */
  function Select(results: seq<ValidationResult>, keep: ValidationResult -> bool): (r: seq<ValidationResult>)
    ensures |r| <= |results|
    ensures forall x :: x in r <==> x in results && keep(x)
  {
    if results == [] then []
    else
      var rest := Select(results[1..], keep);
      if keep(results[0]) then [results[0]] + rest else rest
  }

  /** The section names of a list of results. */
  function Names(results: seq<ValidationResult>): (r: seq<string>)
    ensures |r| == |results|
    ensures forall i :: 0 <= i < |results| ==> r[i] == results[i].sectionName
  {
    if results == [] then [] else [results[0].sectionName] + Names(results[1..])
  }

  lemma NamesMembership(results: seq<ValidationResult>, n: string)
    ensures n in Names(results) <==> exists x :: x in results && x.sectionName == n
  {
    var names := Names(results);
    if n in names {
      var i :| 0 <= i < |names| && names[i] == n;
      assert results[i] in results;
    }
    if exists x :: x in results && x.sectionName == n {
      var x :| x in results && x.sectionName == n;
      var i :| 0 <= i < |results| && results[i] == x;
      assert names[i] == n;
    }
  }

  /** The readiness label: thresholds at 90 and 70, both inclusive lower bounds. */
  function Status(score: int): (s: string)
    ensures s == ReadyForReview <==> score >= 90
    ensures s == NeedsImprovement <==> 70 <= score < 90
    ensures s == NotReady <==> score < 70
  {
    if score >= 90 then ReadyForReview else if score >= 70 then NeedsImprovement else NotReady
  }

  function StatusEmoji(score: int): (emoji: string)
    ensures emoji == "\U{2705}" <==> Status(score) == ReadyForReview
    ensures emoji == "\U{26A0}\U{FE0F}" <==> Status(score) == NeedsImprovement
    ensures emoji == "\U{274C}" <==> Status(score) == NotReady
  {
    if score >= 90 then "\U{2705}" else if score >= 70 then "\U{26A0}\U{FE0F}" else "\U{274C}"
  }

  /** Sorts the results into the missing and found lists and derives counts and status. */
  function FormatReport(results: seq<ValidationResult>, score: int): (rep: Report)
    ensures rep.score == score && rep.status == Status(score) && rep.statusEmoji == StatusEmoji(score)
    ensures forall n :: n in rep.missingCritical <==> exists x :: x in results && IsMissingCritical(x) && x.sectionName == n
    ensures forall n :: n in rep.missingHigh <==> exists x :: x in results && IsMissingHigh(x) && x.sectionName == n
    ensures forall n :: n in rep.missingMedium <==> exists x :: x in results && IsMissingMedium(x) && x.sectionName == n
    ensures forall n :: n in rep.foundSections <==> exists x :: x in results && x.found && x.sectionName == n
    ensures rep.totalSections == |results|
    ensures rep.foundCount == |rep.foundSections|
    ensures rep.foundCount + rep.missingCount == rep.totalSections
    ensures rep.missingCount == |Select(results, IsMissing)|
  {
    var missingCritical := Select(results, IsMissingCritical);
    var missingHigh := Select(results, IsMissingHigh);
    var missingMedium := Select(results, IsMissingMedium);
    var found := Select(results, IsFound);
    forall n ensures n in Names(missingCritical) <==> exists x :: x in results && IsMissingCritical(x) && x.sectionName == n {
      NamesMembership(missingCritical, n);
    }
    forall n ensures n in Names(missingHigh) <==> exists x :: x in results && IsMissingHigh(x) && x.sectionName == n {
      NamesMembership(missingHigh, n);
    }
    forall n ensures n in Names(missingMedium) <==> exists x :: x in results && IsMissingMedium(x) && x.sectionName == n {
      NamesMembership(missingMedium, n);
    }
    forall n ensures n in Names(found) <==> exists x :: x in results && x.found && x.sectionName == n {
      NamesMembership(found, n);
    }
    SelectPartition(results);
    Report(
      score, Status(score), StatusEmoji(score),
      Names(missingCritical), Names(missingHigh), Names(missingMedium), Names(found),
      |results|, |found|, |results| - |found|)
  }

  /** Every result is either found or missing, never both. */
  lemma {:induction false} SelectPartition(results: seq<ValidationResult>)
    ensures |Select(results, IsFound)| + |Select(results, IsMissing)| == |results|
  {
    if results != [] {
      SelectPartition(results[1..]);
    }
  }

  lemma {:induction false} SelectAppend(a: seq<ValidationResult>, b: seq<ValidationResult>, keep: ValidationResult -> bool)
    ensures Select(a + b, keep) == Select(a, keep) + Select(b, keep)
  {
    if a != [] {
      assert (a + b)[1..] == a[1..] + b;
      SelectAppend(a[1..], b, keep);
    } else {
      assert a + b == b;
    }
  }

  lemma {:induction false} NamesAppend(a: seq<ValidationResult>, b: seq<ValidationResult>)
    ensures Names(a + b) == Names(a) + Names(b)
  {
    if a != [] {
      assert (a + b)[1..] == a[1..] + b;
      NamesAppend(a[1..], b);
    } else {
      assert a + b == b;
    }
  }

  /**
    The four lists are built in one order-preserving pass: the report of a
    concatenation lists the first part's sections before the second part's.
   */
  lemma FormatReportAppend(a: seq<ValidationResult>, b: seq<ValidationResult>, score: int)
    ensures FormatReport(a + b, score).missingCritical == FormatReport(a, score).missingCritical + FormatReport(b, score).missingCritical
    ensures FormatReport(a + b, score).missingHigh == FormatReport(a, score).missingHigh + FormatReport(b, score).missingHigh
    ensures FormatReport(a + b, score).missingMedium == FormatReport(a, score).missingMedium + FormatReport(b, score).missingMedium
    ensures FormatReport(a + b, score).foundSections == FormatReport(a, score).foundSections + FormatReport(b, score).foundSections
  {
    SelectAppend(a, b, IsMissingCritical);
    NamesAppend(Select(a, IsMissingCritical), Select(b, IsMissingCritical));
    SelectAppend(a, b, IsMissingHigh);
    NamesAppend(Select(a, IsMissingHigh), Select(b, IsMissingHigh));
    SelectAppend(a, b, IsMissingMedium);
    NamesAppend(Select(a, IsMissingMedium), Select(b, IsMissingMedium));
    SelectAppend(a, b, IsFound);
    NamesAppend(Select(a, IsFound), Select(b, IsFound));
  }

  /** For one result, each list holds its name exactly when the result falls into that list. */
  lemma FormatReportSingle(r: ValidationResult, score: int)
    ensures FormatReport([r], score).missingCritical == if IsMissingCritical(r) then [r.sectionName] else []
    ensures FormatReport([r], score).missingHigh == if IsMissingHigh(r) then [r.sectionName] else []
    ensures FormatReport([r], score).missingMedium == if IsMissingMedium(r) then [r.sectionName] else []
    ensures FormatReport([r], score).foundSections == if r.found then [r.sectionName] else []
  {
  }

  /**
    End to end: a name is listed as missing-critical exactly when some required
    critical section of that name has no keyword occurring in the document.
   */
  lemma MissingCriticalSections(template: Template, prdText: string, score: int, n: string)
    ensures n in FormatReport(Evaluate(Lower(prdText), template.sections, template.scoring), score).missingCritical
            <==> exists s :: s in template.sections && MissingCriticalSection(Lower(prdText), s, n)
  {
    var doc := Lower(prdText);
    var results := Evaluate(doc, template.sections, template.scoring);
    var rep := FormatReport(results, score);
    assert n in rep.missingCritical <==> exists x :: x in results && IsMissingCritical(x) && x.sectionName == n;
    if n in rep.missingCritical {
      MissingCriticalFromResult(doc, template, n);
    }
    if exists s :: s in template.sections && MissingCriticalSection(doc, s, n) {
      MissingCriticalToResult(doc, template, n);
    }
  }

  lemma MissingCriticalFromResult(doc: string, template: Template, n: string)
    requires exists x :: x in Evaluate(doc, template.sections, template.scoring) && IsMissingCritical(x) && x.sectionName == n
    ensures exists s :: s in template.sections && MissingCriticalSection(doc, s, n)
  {
    var results := Evaluate(doc, template.sections, template.scoring);
    EvaluateAt(doc, template.sections, template.scoring);
    var x :| x in results && IsMissingCritical(x) && x.sectionName == n;
    var i :| 0 <= i < |results| && results[i] == x;
    assert template.sections[i] in template.sections;
    assert MissingCriticalSection(doc, template.sections[i], n);
  }

  lemma MissingCriticalToResult(doc: string, template: Template, n: string)
    requires exists s :: s in template.sections && MissingCriticalSection(doc, s, n)
    ensures exists x :: x in Evaluate(doc, template.sections, template.scoring) && IsMissingCritical(x) && x.sectionName == n
  {
    var results := Evaluate(doc, template.sections, template.scoring);
    var s :| s in template.sections && MissingCriticalSection(doc, s, n);
    EvaluateAt(doc, template.sections, template.scoring);
    var i :| 0 <= i < |template.sections| && template.sections[i] == s;
    assert results[i] in results && IsMissingCritical(results[i]) && results[i].sectionName == n;
  }

  /** `s` is a required critical section named `n` none of whose keywords occurs in the document. */
  predicate MissingCriticalSection(prdLower: string, s: Section, n: string) {
    s.required && s.severity == "critical" && s.name == n &&
    forall kw :: kw in s.keywords ==> !Contains(prdLower, Lower(kw))
  }
}
