/**
  The pure parts of the review orchestrator: the executive summary's
  readiness label and the two string helpers that name a review (the PRD
  name taken from the document or its file, and the file-system-safe form of
  that name).
 */
module Orchestrator {
  import opened Strings
  import ValidatorAgent

  // ---------------------------------------------------------------------------
  // PRDReviewOrchestrator._generate_summary
  // ---------------------------------------------------------------------------

  datatype Summary = Summary(
    overallStatus: string,
    recommendation: string,
    completenessScore: int,
    criticalGaps: nat,
    highPriorityGaps: nat,
    keyInsight: string)

  const ReadyForEngineeringReview := "READY FOR ENGINEERING REVIEW"
  const NeedsIteration := "NEEDS ITERATION"
  const NotReady := "NOT READY"

  const ReadyAdvice := "PRD meets quality standards. Address technical questions before kickoff."
  const IterationAdvice := "Address missing sections and technical concerns before engineering review."
  const NotReadyAdvice := "Significant gaps in completeness and technical clarity. Requires substantial work."
  const KeyInsight := "Multi-agent review complete. See detailed validation and technical critique below."

  /**
    The combined readiness verdict. Unlike the validator's own status, the top
    tier also demands that no critical section is missing.
   */
  function GenerateSummary(report: ValidatorAgent.Report): (s: Summary)
    ensures s.overallStatus == ReadyForEngineeringReview <==> report.score >= 90 && |report.missingCritical| == 0
    ensures s.overallStatus == NeedsIteration <==>
            report.score >= 70 && !(report.score >= 90 && |report.missingCritical| == 0)
    ensures s.overallStatus == NotReady <==> report.score < 70
    ensures s.recommendation == (if s.overallStatus == ReadyForEngineeringReview then ReadyAdvice
                                 else if s.overallStatus == NeedsIteration then IterationAdvice
                                 else NotReadyAdvice)
    ensures s.completenessScore == report.score
    ensures s.criticalGaps == |report.missingCritical| && s.highPriorityGaps == |report.missingHigh|
    ensures s.keyInsight == KeyInsight
  {
    var score := report.score;
    var missingCritical := |report.missingCritical|;
    var missingHigh := |report.missingHigh|;
    var (status, advice) :=
      if score >= 90 && missingCritical == 0 then (ReadyForEngineeringReview, ReadyAdvice)
      else if score >= 70 then (NeedsIteration, IterationAdvice)
      else (NotReady, NotReadyAdvice);
    Summary(status, advice, score, missingCritical, missingHigh, KeyInsight)
  }

  /**
    The summary's label refines the validator's: the top tier implies the
    validator's top tier, the bottom tiers coincide, and a score of 90 or more
    with a critical gap is demoted to iteration.
   */
  lemma SummaryRefinesReportStatus(results: seq<ValidatorAgent.ValidationResult>, score: int)
    ensures var rep := ValidatorAgent.FormatReport(results, score);
            var s := GenerateSummary(rep);
            && (s.overallStatus == ReadyForEngineeringReview ==> rep.status == ValidatorAgent.ReadyForReview)
            && (s.overallStatus == NotReady <==> rep.status == ValidatorAgent.NotReady)
            && (rep.status == ValidatorAgent.NeedsImprovement ==> s.overallStatus == NeedsIteration)
            && (rep.status == ValidatorAgent.ReadyForReview && |rep.missingCritical| > 0 ==> s.overallStatus == NeedsIteration)
  {
  }

  /**
    A document judged ready for engineering review has, for every required
    critical section of its template, at least one keyword that occurs in it.
   */
  lemma ReadyMeansEveryCriticalSectionFound(template: ValidatorAgent.Template, prdText: string, score: int)
    requires GenerateSummary(ValidatorAgent.FormatReport(
               ValidatorAgent.Evaluate(Lower(prdText), template.sections, template.scoring), score)).overallStatus
             == ReadyForEngineeringReview
    ensures forall s :: s in template.sections && s.required && s.severity == "critical" ==>
              exists kw :: kw in s.keywords && Contains(Lower(prdText), Lower(kw))
  {
    var rep := ValidatorAgent.FormatReport(
      ValidatorAgent.Evaluate(Lower(prdText), template.sections, template.scoring), score);
    forall s | s in template.sections && s.required && s.severity == "critical"
      ensures exists kw :: kw in s.keywords && Contains(Lower(prdText), Lower(kw))
    {
      ValidatorAgent.MissingCriticalSections(template, prdText, score, s.name);
      if !exists kw :: kw in s.keywords && Contains(Lower(prdText), Lower(kw)) {
        assert ValidatorAgent.MissingCriticalSection(Lower(prdText), s, s.name);
      }
    }
  }

  // ---------------------------------------------------------------------------
  // The PRD name (main) and its safe form (save_review)
  // ---------------------------------------------------------------------------

  /** The first line of the document, stripped of surrounding whitespace. */
  function HeadingLine(prdText: string): string {
    Strip(FirstLine(prdText))
  }

  predicate IsHeading(prdText: string) {
    var line := HeadingLine(prdText);
    |line| > 0 && line[0] == '#'
  }

  /**
    The PRD's display name: the first line with its leading `#` marks removed,
    when that line is a heading; otherwise the file's base name with every
    `.md` removed.
   */
  function PrdName(prdText: string, prdFile: string): (name: string)
    ensures IsHeading(prdText) ==> name == [] || (!IsSpace(name[0]) && !IsSpace(name[|name| - 1]))
    ensures IsHeading(prdText) ==> |name| < |HeadingLine(prdText)|
    ensures !IsHeading(prdText) ==> |name| <= |Basename(prdFile)| && '/' !in name
  {
    if IsHeading(prdText) then HeadingName(HeadingLine(prdText)) else FileStem(prdFile)
  }

  /** `line.lstrip('#').strip()` */
  function HeadingName(line: string): (name: string)
    requires |line| > 0 && line[0] == '#'
    ensures name == [] || (!IsSpace(name[0]) && !IsSpace(name[|name| - 1]))
    ensures |name| < |line|
  {
    Strip(LStripChar(line, '#'))
  }

  /** `os.path.basename(prd_file).replace('.md', '')` */
  function FileStem(prdFile: string): (stem: string)
    ensures |stem| <= |Basename(prdFile)| && '/' !in stem
  {
    var base := Basename(prdFile);
    RemoveAllKeepsAbsentChar(base, ".md", '/');
    RemoveAll(base, ".md")
  }

  lemma {:induction false} RemoveAllKeepsAbsentChar(s: string, pat: string, c: char)
    requires pat != [] && c !in s
    ensures c !in RemoveAll(s, pat)
    decreases |s|
  {
    if |s| >= |pat| {
      if s[..|pat|] == pat {
        RemoveAllKeepsAbsentChar(s[|pat|..], pat, c);
      } else {
        RemoveAllKeepsAbsentChar(s[1..], pat, c);
      }
    }
  }

  /**
    A heading name starts with `#` only when whitespace separated the heading
    marks from it (as in `# # Title`).
   */
  lemma HeadingNameHashNeedsSpace(prdText: string, prdFile: string)
    requires IsHeading(prdText)
    requires var name := PrdName(prdText, prdFile); name != [] && name[0] == '#'
    ensures var rest := LStripChar(HeadingLine(prdText), '#'); rest != [] && IsSpace(rest[0])
  {
    var rest := LStripChar(HeadingLine(prdText), '#');
    var t := DropWhile(rest, IsSpace);
    assert PrdName(prdText, prdFile) == HeadingName(HeadingLine(prdText));
    var name := PrdName(prdText, prdFile);
    assert name == DropWhileRight(t, IsSpace) && name == t[..|name|];
    assert t[0] == '#';
  }

  /** Writing a Markdown heading and reading the name back gives the title. */
  lemma NameFromHeading(hashes: string, gap: string, title: string, body: string, prdFile: string)
    requires |hashes| > 0 && forall k :: 0 <= k < |hashes| ==> hashes[k] == '#'
    requires forall k :: 0 <= k < |gap| ==> IsSpace(gap[k]) && gap[k] != '\n'
    requires |title| > 0 && title[0] != '#' && !IsSpace(title[0]) && !IsSpace(title[|title| - 1])
    requires '\n' !in title
    ensures PrdName(hashes + gap + title + "\n" + body, prdFile) == title
  {
    var line := hashes + gap + title;
    HeadingFirstLine(hashes, gap, title, body);
    assert HeadingLine(hashes + gap + title + "\n" + body) == line;
    assert IsHeading(hashes + gap + title + "\n" + body);
    HeadingMarksStripped(hashes, gap, title);
    StripLeadingSpace(gap, title);
  }

  lemma HeadingFirstLine(hashes: string, gap: string, title: string, body: string)
    requires |hashes| > 0 && forall k :: 0 <= k < |hashes| ==> hashes[k] == '#'
    requires forall k :: 0 <= k < |gap| ==> gap[k] != '\n'
    requires |title| > 0 && !IsSpace(title[|title| - 1])
    requires '\n' !in title
    ensures HeadingLine(hashes + gap + title + "\n" + body) == hashes + gap + title
  {
    var line := hashes + gap + title;
    assert '\n' !in line by {
      forall k | 0 <= k < |line| ensures line[k] != '\n' {
        if k < |hashes| { assert line[k] == hashes[k]; }
        else if k < |hashes| + |gap| { assert line[k] == gap[k - |hashes|]; }
        else { assert line[k] == title[k - |hashes| - |gap|]; }
      }
    }
    assert hashes + gap + title + "\n" + body == line + "\n" + body;
    FirstLineOf(line, body);
    assert line[0] == '#' && line[|line| - 1] == title[|title| - 1];
    StripLeadingSpace([], line);
    assert [] + line == line;
  }

  lemma HeadingMarksStripped(hashes: string, gap: string, title: string)
    requires forall k :: 0 <= k < |hashes| ==> hashes[k] == '#'
    requires forall k :: 0 <= k < |gap| ==> IsSpace(gap[k])
    requires |title| > 0 && title[0] != '#'
    ensures LStripChar(hashes + gap + title, '#') == gap + title
  {
    if gap != [] {
      assert (gap + title)[0] == gap[0];
    } else {
      assert gap + title == title;
    }
    LStripCharAll(hashes, gap + title, '#');
    assert hashes + (gap + title) == hashes + gap + title;
  }

  /** Without a heading, a file `<dir>/<stem>.md` whose stem holds no `.md` is named by its stem. */
  lemma NameFromFile(prdText: string, dir: string, stem: string)
    requires !IsHeading(prdText)
    requires '/' !in stem && !Contains(stem, ".md")
    ensures PrdName(prdText, dir + "/" + stem + ".md") == stem
  {
    var file := dir + "/" + stem + ".md";
    assert Basename(file) == stem + ".md" by {
      assert '/' !in stem + ".md";
      assert file == dir + "/" + (stem + ".md");
      BasenameAfterSlash(dir, stem + ".md");
    }
    assert PrdName(prdText, file) == FileStem(file);
    assert RemoveAll(stem + ".md", ".md") == stem by {
      RemoveMdAfterClean(stem, "");
      assert stem + ".md" + "" == stem + ".md";
      assert RemoveAll("", ".md") == "";
    }
  }

  /** `prd_name.replace(' ', '_').replace('/', '-')`. */
  function SafeName(prdName: string): (r: string)
    ensures |r| == |prdName|
    ensures ' ' !in r && '/' !in r
    ensures forall i :: 0 <= i < |prdName| ==>
              r[i] == (if prdName[i] == ' ' then '_' else if prdName[i] == '/' then '-' else prdName[i])
  {
    ReplaceChar(ReplaceChar(prdName, ' ', '_'), '/', '-')
  }
}
