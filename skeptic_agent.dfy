/**
  The deterministic part of the skeptic agent: the user prompt that frames
  the PRD text with a summary of the validation report.
 */
module SkepticAgent {
  import opened Strings
  import ValidatorAgent

  datatype Option<T> = None | Some(value: T)

  /**
    The entries of the validation report that the prompt reads. The two
    lists are looked up with a default, so either may be absent.
   */
  datatype PromptInput = PromptInput(
    score: int,
    status: string,
    missingCritical: Option<seq<string>>,
    missingHigh: Option<seq<string>>)

  /** An absent list reads as the empty list. */
  function OrEmpty(list: Option<seq<string>>): seq<string> {
    match list
    case Some(sections) => sections
    case None => []
  }

  /** The prompt input taken from a report built by the validator, where both lists are present. */
  function FromReport(report: ValidatorAgent.Report): (input: PromptInput)
    ensures input.score == report.score && input.status == report.status
    ensures OrEmpty(input.missingCritical) == report.missingCritical
    ensures OrEmpty(input.missingHigh) == report.missingHigh
  {
    PromptInput(report.score, report.status, Some(report.missingCritical), Some(report.missingHigh))
  }

  const CriticalHeading := "**Critical Sections Missing:**\n"
  const HighHeading := "**High Priority Sections Missing:**\n"
  const Preamble := "Review this PRD with your technical expertise.\n\nVALIDATION RESULTS:\n"
  const PrdHeading := "\n\nPRD CONTENT:\n"
  const Trailer := "\n\n---\n\nProvide your technical critique following the format specified in your role.\n"
                 + "Focus on the HARDEST technical challenges and RISKIEST assumptions.\n"
                 + "Be specific and actionable."

  // ---------------------------------------------------------------------------
  // The validation summary, as a function
  // ---------------------------------------------------------------------------

  function ScoreHeader(score: int, status: string): string {
    "**Validation Score:** " + IntToString(score) + "/100 (" + status + ")\n\n"
  }

  function BulletLine(section: string): string {
    "- " + section + "\n"
  }

  /** One `- <section>` line per entry, in list order. */
  function Bullets(sections: seq<string>): string {
    if sections == [] then ""
    else Bullets(sections[..|sections| - 1]) + BulletLine(sections[|sections| - 1])
  }

  /** A heading, its bullet lines and a blank line; nothing at all for an empty list. */
  function Block(heading: string, sections: seq<string>): (b: string)
    requires heading != []
    ensures b == "" <==> sections == []
    ensures sections != [] ==> IsPrefix(heading, b) && b[|b| - 1] == '\n'
  {
    if sections == [] then "" else heading + Bullets(sections) + "\n"
  }

  /** The summary: the score header, then the critical block, then the high-priority block. */
  function ValidationSummary(input: PromptInput): (summary: string)
    ensures IsPrefix(ScoreHeader(input.score, input.status), summary)
    ensures OrEmpty(input.missingCritical) == [] && OrEmpty(input.missingHigh) == [] ==>
              summary == ScoreHeader(input.score, input.status)
    ensures summary[|summary| - 1] == '\n'
  {
    ScoreHeader(input.score, input.status)
      + Block(CriticalHeading, OrEmpty(input.missingCritical))
      + Block(HighHeading, OrEmpty(input.missingHigh))
  }

  // ---------------------------------------------------------------------------
  // SkepticAgent._build_user_prompt
  // ---------------------------------------------------------------------------

  /** Appends one bullet line per section to `text`, in order. */
  method AppendBullets(text: string, sections: seq<string>) returns (r: string)
    ensures r == text + Bullets(sections)
  {
    r := text;
    for i := 0 to |sections|
      invariant r == text + Bullets(sections[..i])
    {
      assert sections[..i + 1][..i] == sections[..i];
      r := r + "- " + sections[i] + "\n";
    }
    assert sections[..|sections|] == sections;
  }

  /**
    Grows the validation summary step by step, then frames it and the PRD
    text between the fixed preamble and trailer.
   */
  method BuildUserPrompt(prdText: string, report: PromptInput) returns (prompt: string)
    ensures prompt == Preamble + ValidationSummary(report) + PrdHeading + prdText + Trailer
  {
    var score := report.score;
    var status := report.status;
    var missingCritical := OrEmpty(report.missingCritical);
    var missingHigh := OrEmpty(report.missingHigh);

    var summary := "**Validation Score:** " + IntToString(score) + "/100 (" + status + ")\n\n";
    assert summary == ScoreHeader(score, status);
    if |missingCritical| > 0 {
      ghost var before := summary;
      summary := summary + CriticalHeading;
      summary := AppendBullets(summary, missingCritical);
      summary := summary + "\n";
      BlockAppended(before, CriticalHeading, missingCritical);
    }
    assert summary == ScoreHeader(score, status) + Block(CriticalHeading, missingCritical);
    if |missingHigh| > 0 {
      ghost var before := summary;
      summary := summary + HighHeading;
      summary := AppendBullets(summary, missingHigh);
      summary := summary + "\n";
      BlockAppended(before, HighHeading, missingHigh);
    }
    assert summary == ValidationSummary(report);
    prompt := Preamble + summary + PrdHeading + prdText + Trailer;
  }

  /** Appending a heading, its bullet lines and a newline appends the block. */
  lemma BlockAppended(before: string, heading: string, sections: seq<string>)
    requires heading != [] && sections != []
    ensures before + heading + Bullets(sections) + "\n" == before + Block(heading, sections)
  {
  }

  // ---------------------------------------------------------------------------
  // Properties of the prompt
  // ---------------------------------------------------------------------------

  /**
    The prompt opens with the preamble and the score header and ends with the
    trailer, and the PRD text sits verbatim right after the `PRD CONTENT:`
    line.
   */
  lemma PromptFrame(prdText: string, input: PromptInput)
    ensures var prompt := Preamble + ValidationSummary(input) + PrdHeading + prdText + Trailer;
            var start := |Preamble| + |ValidationSummary(input)| + |PrdHeading|;
            && IsPrefix(Preamble + ScoreHeader(input.score, input.status), prompt)
            && start + |prdText| + |Trailer| == |prompt|
            && prompt[start..start + |prdText|] == prdText
            && prompt[start + |prdText|..] == Trailer
  {
    Framed(Preamble, ScoreHeader(input.score, input.status), Block(CriticalHeading, OrEmpty(input.missingCritical)),
           Block(HighHeading, OrEmpty(input.missingHigh)), PrdHeading, prdText, Trailer);
  }

  lemma Framed(front: string, header: string, block1: string, block2: string, middle: string, text: string, back: string)
    ensures var whole := front + (header + block1 + block2) + middle + text + back;
            var start := |front| + |header + block1 + block2| + |middle|;
            && IsPrefix(front + header, whole)
            && start + |text| + |back| == |whole|
            && whole[start..start + |text|] == text
            && whole[start + |text|..] == back
  {
    var whole := front + (header + block1 + block2) + middle + text + back;
    assert whole == (front + header) + (block1 + block2 + middle + text + back);
    assert whole == (front + (header + block1 + block2) + middle) + text + back;
  }

  /** A list that is absent produces the same summary as an empty one. */
  lemma AbsentListIsEmpty(input: PromptInput)
    ensures ValidationSummary(input.(missingCritical := None)) == ValidationSummary(input.(missingCritical := Some([])))
    ensures ValidationSummary(input.(missingHigh := None)) == ValidationSummary(input.(missingHigh := Some([])))
  {
  }

  /** Bullet lines are emitted in list order: the rendering distributes over concatenation. */
  lemma {:induction false} BulletsAppend(a: seq<string>, b: seq<string>)
    ensures Bullets(a + b) == Bullets(a) + Bullets(b)
    decreases |b|
  {
    if b == [] {
      assert a + b == a;
    } else {
      var n := |b| - 1;
      assert (a + b)[..|a + b| - 1] == a + b[..n];
      assert (a + b)[|a + b| - 1] == b[n];
      BulletsAppend(a, b[..n]);
    }
  }

  /**
    Reads bullet lines back: each line must start with `- ` and end with a
    newline; anything else is rejected.
   */
  function ParseBullets(text: string): Option<seq<string>>
    decreases |text|
  {
    if text == [] then Some([])
    else if !IsPrefix("- ", text) then None
    else
      var section := FirstLine(text[2..]);
      if |section| == |text[2..]| then None
      else match ParseBullets(text[2 + |section| + 1..])
        case None => None
        case Some(rest) => Some([section] + rest)
  }

  lemma ParseBulletLine(section: string, rest: string)
    requires '\n' !in section
    ensures ParseBullets(BulletLine(section) + rest) ==
            match ParseBullets(rest)
            case None => None
            case Some(sections) => Some([section] + sections)
  {
    var text := BulletLine(section) + rest;
    assert text[..2] == "- ";
    assert text[2..] == section + "\n" + rest;
    FirstLineOf(section, rest);
    assert text[2 + |section| + 1..] == rest;
  }

  /**
    When no section name holds a newline, the bullet lines can be read back
    into exactly the list they were made from.
   */
  lemma {:induction false} BulletsRoundTrip(sections: seq<string>)
    requires forall i :: 0 <= i < |sections| ==> '\n' !in sections[i]
    ensures ParseBullets(Bullets(sections)) == Some(sections)
    decreases |sections|
  {
    if sections != [] {
      var rest := sections[1..];
      assert sections == [sections[0]] + rest;
      BulletsAppend([sections[0]], rest);
      assert Bullets([sections[0]]) == BulletLine(sections[0]) by {
        assert [sections[0]][..0] == [];
      }
      ParseBulletLine(sections[0], Bullets(rest));
      BulletsRoundTrip(rest);
    }
  }
}
