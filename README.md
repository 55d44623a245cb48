# PRD reviewer: completeness scorer, summary and prompt builder

A Dafny model of the deterministic core of a multi-agent reviewer for product
requirements documents (PRDs):

- **Validator agent** (`validator_agent.dfy`, module `ValidatorAgent`). A template lists sections.
  Each section has a name, a `required` flag, a severity string and keywords. A section is
  *found* when one of its keywords, lower-cased, occurs as a substring of the lower-cased
  document. A found section earns the weight of its severity, looked up as `<severity>_weight`
  in the template's scoring table (a missing entry counts as 0). The possible total adds up
  the weights of the required sections only. The overall score is `earned * 100 / possible`,
  truncated toward zero, or 0 when the possible total is not positive. `Validate` is the loop
  that keeps the two running totals. It is proved equal to the functions `Evaluate`,
  `EarnedTotal`, `PossibleTotal` and `OverallScore`. `FormatReport` sorts the results into the
  missing-critical, missing-high, missing-medium and found lists, counts them and sets the
  status label.
- **Orchestrator** (`orchestrator.dfy`, module `Orchestrator`). `GenerateSummary` gives the
  second readiness label; its top tier also requires that no critical section is missing.
  `PrdName` derives the review's name from the document's first-line heading or, failing
  that, from the file name. `SafeName` makes that name safe to use in a file name.
- **Skeptic agent** (`skeptic_agent.dfy`, module `SkepticAgent`). `BuildUserPrompt` grows the
  validation summary step by step and frames it, with the PRD text, between a fixed preamble
  and trailer. It is proved equal to the function `ValidationSummary` inside that frame.
- **Strings** (`strings.dfy`). The Python string operations above, restricted to ASCII:
  `lower`, `strip`, `lstrip('#')`, `in`, `split('\n')[0]`, `replace`, `os.path.basename`,
  and the decimal rendering of an integer.

The template is taken as an already-parsed value: a `Template` of `Section`s plus the scoring map.

Two behaviours of the code that its docstrings do not suggest:

- Python's `"" in s` is true, so a section whose keyword list contains the empty string is
  found in every document, including the empty one. `EmptyDocumentFindsNothing` therefore
  requires non-empty keywords.
- The overall score is not bounded by 100 in general, although the class docstring says the
  validator "Scores the PRD 0-100" (agents/validator_agent.py:27) and `format_report` documents
  its argument as "Overall score (0-100)" (agents/validator_agent.py:108). Optional sections
  add to the earned total but not to the possible one. `OptionalSectionCanExceedHundred`
  shows a score of 200. `ScoreWithinRange` proves the 0..100 bound when every section is
  required and every weight is non-negative.

## Model

| member | source | states |
|---|---|---|
| `ValidatorAgent.Validate` | agents/validator_agent.py:46-100 | the loop returns exactly `Evaluate` of the lower-cased document (one result per section, in template order) and the overall score computed from the earned and possible totals |
| `ValidatorAgent.EvaluateSection` | agents/validator_agent.py:65-94 | the loop body: the result it builds for one section is exactly `EvalSection` of that section |
| `ValidatorAgent.WeightKey` | agents/validator_agent.py:75 | the scoring key of a severity: the severity followed by `_weight` (no contract of its own) |
| `ValidatorAgent.Weight` | agents/validator_agent.py:75-76 | the weight is the scoring entry under `<severity>_weight`, or 0 when that key is absent |
| `ValidatorAgent.KeywordsFound` | agents/validator_agent.py:71 | a keyword is kept iff it is one of the section's keywords and, lower-cased, occurs in the document; no more entries than keywords |
| `ValidatorAgent.EvalSection` | agents/validator_agent.py:65-94 | name, `required` and severity are copied; found iff some keyword occurs; the score is the severity weight when found, else 0 |
| `ValidatorAgent.Evaluate` | agents/validator_agent.py:64-95 | one result per template section |
| `ValidatorAgent.EvaluateAt` | agents/validator_agent.py:64-95 | results follow template order: the i-th result is the verdict on the i-th section |
| `ValidatorAgent.EarnedTotal` | agents/validator_agent.py:77-84 | the sum of the results' scores, optional sections included (no contract of its own; see the next row) |
| `ValidatorAgent.EarnedTotalBounds` | agents/validator_agent.py:77-84 | with non-negative scores, the earned total is non-negative and at least every single result's score |
| `ValidatorAgent.PossibleTotal` | agents/validator_agent.py:79-81 | the sum of the weights of the required sections, found or not (no contract of its own; see the next row) |
| `ValidatorAgent.PossibleTotalBounds` | agents/validator_agent.py:79-81 | with non-negative weights, the possible total is non-negative and at least the weight of every required section |
| `ValidatorAgent.TruncDiv` | agents/validator_agent.py:98 | the quotient truncated toward zero, as Python's `int()` of a division: floor for non-negative numerators, ceiling for negative ones |
| `ValidatorAgent.OverallScore` | agents/validator_agent.py:98 | 0 when the possible total is not positive; otherwise the percentage `earned * 100 / possible` truncated toward zero: its floor for a non-negative earned total, its ceiling for a negative one |
| `ValidatorAgent.KeywordsFoundAppend` | agents/validator_agent.py:71 | the keyword filter keeps template order: the filter of a concatenation is the concatenation of the filters |
| `ValidatorAgent.ExtraKeywordKeepsScore` | agents/validator_agent.py:72-77 | adding a keyword to a section that is already found does not change its score |
| `ValidatorAgent.CaseInsensitiveMatch` | agents/validator_agent.py:57-71 | a keyword matches any case variant of itself that occurs in the original document |
| `ValidatorAgent.EarnedWithinPossible` | agents/validator_agent.py:79-84 | with all sections required and non-negative weights, 0 <= earned total <= possible total |
| `ValidatorAgent.ScoreWithinRange` | agents/validator_agent.py:79-98 | with all sections required and non-negative weights, the overall score lies in 0..100 |
| `ValidatorAgent.OptionalSectionCanExceedHundred` | agents/validator_agent.py:79-98 | a required and an optional section of the same positive weight, both found, score 200: optional sections add to the earned total only |
| `ValidatorAgent.EmptyDocumentFindsNothing` | agents/validator_agent.py:57-72 | on the empty document, a template with only non-empty keywords yields no found section and no score |
| `ValidatorAgent.IsFound` | agents/validator_agent.py:117 | the condition of the found list: the result was found (no contract of its own) |
| `ValidatorAgent.IsMissing` | agents/validator_agent.py:140 | the results counted by `missing_count`: those not found (no contract of its own) |
| `ValidatorAgent.IsMissingCritical` | agents/validator_agent.py:114 | not found, required, and of severity `critical` (no contract of its own) |
| `ValidatorAgent.IsMissingHigh` | agents/validator_agent.py:115 | not found, required, and of severity `high` (no contract of its own) |
| `ValidatorAgent.IsMissingMedium` | agents/validator_agent.py:116 | not found and of severity `medium`, whether required or not (no contract of its own) |
| `ValidatorAgent.Select` | agents/validator_agent.py:114-117 | the selection holds exactly the results satisfying the predicate, and no more entries than the input |
| `ValidatorAgent.Names` | agents/validator_agent.py:134-137 | the section names of the given results: one per result, in order, the i-th the name of the i-th result |
| `ValidatorAgent.Status` | agents/validator_agent.py:119-128 | "READY FOR REVIEW" iff score >= 90, "NEEDS IMPROVEMENT" iff 70 <= score < 90, "NOT READY" iff score < 70 |
| `ValidatorAgent.StatusEmoji` | agents/validator_agent.py:120-128 | the check mark goes with "READY FOR REVIEW", the warning sign with "NEEDS IMPROVEMENT" and the cross with "NOT READY", each as an iff |
| `ValidatorAgent.FormatReport` | agents/validator_agent.py:102-141 | each list holds exactly the names of the results in its class (missing-medium not gated on `required`); found + missing = total = number of results; missing count = number of results not found |
| `ValidatorAgent.SelectPartition` | agents/validator_agent.py:138-140 | the found results and the missing results together number exactly the results |
| `ValidatorAgent.FormatReportAppend` | agents/validator_agent.py:113-117 | all four lists keep result order: the report of a concatenation lists the first part's names before the second's |
| `ValidatorAgent.FormatReportSingle` | agents/validator_agent.py:114-117 | for a single result, each list holds its name exactly when the result is in that list's class |
| `ValidatorAgent.MissingCriticalSections` | agents/validator_agent.py:114 | end to end: a name is listed as missing-critical iff some required critical section of that name has no keyword occurring in the document |
| `Orchestrator.GenerateSummary` | orchestrator.py:81-114 | "READY FOR ENGINEERING REVIEW" iff score >= 90 with no critical gap; "NEEDS ITERATION" iff score >= 70 otherwise; "NOT READY" iff score < 70; the recommendation follows the status; the score and gap counts are copied from the report; the key insight is the fixed closing text |
| `Orchestrator.SummaryRefinesReportStatus` | orchestrator.py:96-105 | the summary's top tier implies the validator's top tier; the bottom tiers coincide; a validator top tier with a critical gap becomes "NEEDS ITERATION" |
| `Orchestrator.ReadyMeansEveryCriticalSectionFound` | orchestrator.py:97-99 | a document judged ready for engineering review contains a keyword of every required critical section |
| `Orchestrator.HeadingLine` | orchestrator.py:222 | `prd_text.split('\n')[0].strip()`: the document's first line without surrounding whitespace (no contract of its own; `FirstLine` and `Strip` carry the facts) |
| `Orchestrator.IsHeading` | orchestrator.py:223 | `first_line.startswith('#')`: the stripped first line is non-empty and begins with `#` (no contract of its own) |
| `Orchestrator.PrdName` | orchestrator.py:221-226 | a heading name has no surrounding whitespace and is shorter than the heading line; otherwise the name is no longer than the file's base name and holds no `/` |
| `Orchestrator.HeadingName` | orchestrator.py:224 | `lstrip('#').strip()` of a heading line: shorter than the line, with no whitespace at either end |
| `Orchestrator.FileStem` | orchestrator.py:226 | `basename(...).replace('.md', '')`: no longer than the base name and holds no `/` |
| `Orchestrator.HeadingNameHashNeedsSpace` | orchestrator.py:223-224 | a heading name starts with `#` only when whitespace followed the leading `#` marks |
| `Orchestrator.NameFromHeading` | orchestrator.py:222-224 | a first line of `#` marks, optional blanks and a title gives back exactly the title |
| `Orchestrator.NameFromFile` | orchestrator.py:225-226 | without a heading, the file `<dir>/<stem>.md` is named `<stem>` when the stem holds no `/` and no `.md` |
| `Orchestrator.SafeName` | orchestrator.py:130 | same length, no space and no `/`; spaces become `_`, slashes become `-`, every other character is unchanged |
| `SkepticAgent.OrEmpty` | agents/skeptic_agent.py:88-89 | the `.get(..., [])` default: an absent list reads as the empty list, a present one unchanged (no contract of its own; `AbsentListIsEmpty` states the consequence) |
| `SkepticAgent.FromReport` | agents/skeptic_agent.py:86-89 | the prompt reads the report's score, status and both missing lists unchanged |
| `SkepticAgent.ScoreHeader` | agents/skeptic_agent.py:92 | the line `**Validation Score:** <score>/100 (<status>)` and a blank line (no contract of its own) |
| `SkepticAgent.BulletLine` | agents/skeptic_agent.py:97 | one `- <section>` line ending in a newline (no contract of its own) |
| `SkepticAgent.Bullets` | agents/skeptic_agent.py:96-97 | the bullet lines of a list, one per entry in list order, as both loops (lines 96-97 and 102-103) append them (no contract of its own; `BulletsAppend` and `BulletsRoundTrip` state its properties) |
| `SkepticAgent.Block` | agents/skeptic_agent.py:94-98 | a block is empty iff its list is empty; otherwise it starts with its heading and ends with a newline |
| `SkepticAgent.ValidationSummary` | agents/skeptic_agent.py:92-104 | the summary starts with the score header, is exactly that header when both lists are empty, and ends with a newline |
| `SkepticAgent.AppendBullets` | agents/skeptic_agent.py:96-97 | the loop appends exactly the bullet lines of the list, in order |
| `SkepticAgent.BuildUserPrompt` | agents/skeptic_agent.py:74-121 | the prompt is the preamble, the validation summary (score header, then critical block, then high block), the PRD heading, the PRD text and the trailer |
| `SkepticAgent.PromptFrame` | agents/skeptic_agent.py:107-119 | the prompt begins with the preamble and score header, holds the PRD text verbatim after the PRD heading and ends with the trailer |
| `SkepticAgent.AbsentListIsEmpty` | agents/skeptic_agent.py:88-89 | an absent missing list gives the same summary as an empty one |
| `SkepticAgent.BulletsAppend` | agents/skeptic_agent.py:96-97 | bullet lines follow list order: rendering distributes over concatenation |
| `SkepticAgent.BulletsRoundTrip` | agents/skeptic_agent.py:96-97 | when no name holds a newline, the bullet lines parse back to exactly the list, one line per entry |
| `Strings.Lower` | agents/validator_agent.py:57 | same length; each character lower-cased on its own (ASCII) |
| `Strings.Contains` | agents/validator_agent.py:71 | Python's `p in s`: the empty string is in every string, a prefix is contained, and a contained string is no longer than the text |
| `Strings.ContainsLower` | agents/validator_agent.py:71 | a substring of the document stays a substring after lower-casing both |
| `Strings.FirstLine` | orchestrator.py:222 | a prefix of the text with no newline, followed by a newline when shorter than the text |
| `Strings.Strip` | orchestrator.py:222 | no whitespace at either end and no longer than the input |
| `Strings.StripTrims` | orchestrator.py:222 | the stripped string is a window of the input with only whitespace before and after it |
| `Strings.StripLeadingSpace` | orchestrator.py:224 | stripping leading whitespace from a string without surrounding whitespace gives that string |
| `Strings.LStripChar` | orchestrator.py:224 | a suffix of the input, with only the stripped character removed, that does not start with it |
| `Strings.Basename` | orchestrator.py:226 | the suffix after the last `/`: holds no `/` and is preceded by one when shorter than the path |
| `Strings.RemoveAll` | orchestrator.py:226 | never longer than the input |
| `Strings.RemoveAllAbsent` | orchestrator.py:226 | removing a pattern that does not occur leaves the text unchanged |
| `Strings.RemoveMdAfterClean` | orchestrator.py:226 | text free of `.md` followed by `.md` keeps the text and drops the `.md`; every later occurrence is removed too |
| `Strings.ReplaceChar` | orchestrator.py:130 | same length; exactly the occurrences of one character are rewritten |
| `Strings.NatToString` | agents/skeptic_agent.py:92 | non-empty decimal digits without a leading zero |
| `Strings.IntToString` | agents/skeptic_agent.py:92 | the digits of n, with a leading minus sign when n is negative |
| `Strings.IntToStringRoundTrip` | agents/skeptic_agent.py:92 | the rendered score reads back to the same integer |

## Left out

- Template loading: `_load_template` reads a YAML file with a foreign library, so the model takes the parsed template as input. The `sections` and `scoring` defaults are then the empty list and the empty map. A template entry without `name`, `required` or `severity` fails with `KeyError` in Python; the model assumes every entry has them.
- Validate: the source computes `int(total / max * 100)` in floating point; `OverallScore` uses exact integer division truncated toward zero. On ordinary scores the two differ by at most one: 29/100 gives 28 in the program (29/100*100 is 28.999…) and 29 in the model. Once the score itself exceeds about 2^53, the program's result can be off by more: earned 10^17+2 over possible 1 gives 10^19 in the program and 10^19+200 in the model. A ratio beyond the float range raises `OverflowError` in the program.
- Strings.Lower: models `str.lower` on ASCII only. `Strings.Strip` and `Strings.IsSpace` model `str.strip` on ASCII whitespace only (space, tab through carriage return, and 0x1C-0x1F). `Strings.Basename` models POSIX `os.path.basename` as the text after the last `/`.
- Strings.RemoveAll: models `str.replace(pat, '')` for non-empty patterns only. The program only uses it with `.md`.
- Orchestrator.GenerateSummary: the `critique` argument is unused by the source and is not modelled.
- `SkepticAgent.__init__` and `SkepticAgent.challenge`: they read an environment variable and a prompt file, call the remote text-generation API and unpack its response.
- `review_prd`, `save_review`, `print_review` and `main`: console output, the clock, directory creation, JSON file writing, command-line arguments and file reading. Only their pure pieces are modelled: `PrdName` (from `main`) and `SafeName` (from `save_review`).
- The test driver scripts: they need sample files and network access, and they assert nothing.
