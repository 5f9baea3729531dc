# Planner directive selection and spreadsheet-update pipeline

A Dafny model of two pieces of pure string logic in a tool-using agent.

The first is the planner step of `modules/decision.py`. It renders the
memory, tool and email context strings that go into the prompt. It then
picks the one directive line the agent acts on from the language model's
completion: the first stripped line that starts with `FUNCTION_CALL:` or
`FINAL_ANSWER:`, or the fallback `FINAL_ANSWER: [unknown]`. The completion
is an input `Option<string>`, where `None` stands for a model call that
raised.

The second is `handle_spreadsheet_update` in `agent.py` together with the
routing and answer cleanup of `main`. The pipeline has five stages:

- It extracts a quoted title and a `found from` data source with two
  regular expressions.
- It calls `create_spreadsheet`, `search`, `extract_webpage` and
  `update_sheet` in that order, and stops at the first reply that contains
  `Error`.
- It parses the fetched page into a standings table.
- It writes the table to the range `A1:C<rows>`.
- It reports success.

The dispatcher is an input. It is a function from the position of a call in
the run, and the call itself, to the reply. Each reply carries its raw text
and an abstract view of what `json.loads` makes of it. A run is the outcome
(a returned message or an escaping exception) together with the trace of
calls made.

Modules:

- `Wrappers` (`wrappers.dfy`): `Option` and `Result`.
- `Text` (`text.dfy`): the Python string operations used:
  - `str.isspace` over its full Unicode set;
  - `strip`, `split`, `join`, `startswith` and `in`;
  - ASCII `lower`;
  - `replace(p, "")`;
  - `str(n)`.
- `Decision` (`decision.dfy`): the context strings and directive selection of
  `generate_plan`.
- `Standings` (`standings.dfy`): the page parser, as written and corrected,
  and the range name.
- `Agent` (`agent.dfy`): argument extraction, the call pipeline, the parser
  comparison and `main`.

## Model

| member | source | states |
|---|---|---|
| Decision.Bullets | modules/decision.py:32 | there is one bullet per memory item, in order, each `- ` followed by the item's text |
| Decision.MemoryTexts | modules/decision.py:32 | the memory section is `None` exactly when there are no items, and otherwise begins with the first item's bullet `- <text>` |
| Decision.MemoryTextsLines | modules/decision.py:32 | read back line by line, the memory section is one `- <text>` bullet per item in insertion order (items without line feeds) |
| Decision.ToolContext | modules/decision.py:33 | the tool section is empty exactly when the descriptions are absent or empty; otherwise it is the tools header followed by the descriptions |
| Decision.EmailLine | modules/decision.py:34 | the email line is empty exactly when no address is given; otherwise it is the fixed prefix followed by the address |
| Decision.EmailRule | modules/decision.py:35 | the email rule is present exactly when an address is given, and is then the fixed rule text |
| Decision.FirstDirectiveIndex | modules/decision.py:136-138 | the index found is the first line whose stripped form is a directive: no earlier line is one, and it is the number of lines when none is |
| Decision.UnknownAnswerWellFormed | modules/decision.py:140 | the fallback answer is itself a directive and has no surrounding whitespace |
| Decision.SelectLine | modules/decision.py:136-140 | the result is always a stripped directive; it is the stripped first directive line when there is one, and the fallback answer otherwise |
| Decision.GeneratePlan | modules/decision.py:132-144 | the planner never raises and always returns a stripped directive; a failed model call gives the fallback answer, and a completion gives the selection over the lines of its stripped text |
| Decision.LaterLinesIgnored | modules/decision.py:136-138 | lines appended after a directive line never change the choice |
| Decision.LeadingProseSkipped | modules/decision.py:136-138 | lines without a directive before the first directive line are skipped |
| Decision.SingleLineCompletion | modules/decision.py:133-140 | an indented one-line completion yields that line when it is a directive, and the fallback answer otherwise |
| Decision.SelectSingleLine | modules/decision.py:136-140 | a single stripped line is chosen exactly when it is a directive |
| Decision.DirectivePrefixCaseSensitive | modules/decision.py:137 | the prefix test is case-sensitive: `final_answer:` and `function_call:` lines are not directives |
| Agent.RunEnd | agent.py:19 | a greedy run ends at the first character outside the class, or at the end of the text |
| Agent.RunEndIs | agent.py:19 | any run that stops where the class first fails is the greedy one |
| Agent.TitleAt | agent.py:19 | a title match anchored at a position yields a non-empty group without quotes |
| Agent.TitleAtIffShape | agent.py:19 | the anchored title match succeeds exactly when the pattern `title\s*["']([^"']+)["']` can be read there, and returns that reading's group |
| Agent.TitleSearch | agent.py:19 | the search position is the leftmost one where the anchored match succeeds |
| Agent.ExtractTitle | agent.py:19-22 | there is no title exactly when the pattern matches nowhere; a title found is non-empty, holds no quote, and is the group of the leftmost match |
| Agent.SourceAt | agent.py:25 | a source match anchored at a position yields a group without `,` or `.` |
| Agent.SourceAtIffShape | agent.py:25 | every reading of `found from\s+([^,.]+)` at a position makes the anchored match succeed; a success is such a reading, with a group that runs to a stop or to the end |
| Agent.SourceSearch | agent.py:25 | the search position is the leftmost one where the anchored match succeeds |
| Agent.ExtractSource | agent.py:25-28 | there is no source exactly when the pattern matches nowhere; a source found is whitespace-trimmed, holds no `,` or `.`, and is the stripped group of the leftmost match |
| Agent.StripKeeps | agent.py:28 | stripping the group keeps only characters of the group |
| Agent.HasErrorIffInfix | agent.py:32-33 | a reply reports failure exactly when its text is some text, then `Error`, then some text |
| Agent.UpdateCall | agent.py:79-86 | the update call names `update_sheet` with exactly the sheet id, the range `A1:C<rows>` and the table as arguments |
| Agent.AfterCreate | agent.py:37-41 | the search follows exactly when the creation reply decodes to an object, with the data source as query; otherwise the run raises |
| Agent.AfterSearch | agent.py:46-54 | the page is fetched exactly when the search reply is an object whose first result has a non-empty url, and that url is fetched; no results or a falsy reply return the no-results error, a first result without url returns the no-url error, and a non-object truthy or unparsable reply raises |
| Agent.AfterExtract | agent.py:59-86 | the update follows exactly when the page parses, and writes the parsed table; otherwise the run raises the parser's error |
| Agent.Advance | agent.py:36-91 | after an error-free reply the only call that can follow is the next tool in the fixed order |
| Agent.Next | agent.py:31-91 | an error reply stops the run with the failure message for its position followed by the reply text; otherwise the only call that can follow is the next tool in the fixed order |
| Agent.Drive | agent.py:31-89 | the run keeps the calls already made and makes at most the four tool calls |
| Agent.DriveFollowsNext | agent.py:31-89 | every call after the first is the one the previous reply leads to |
| Agent.DriveEndsWithNext | agent.py:31-91 | the outcome is the one the last reply leads to |
| Agent.Pipeline | agent.py:19-91 | calls follow the order create, search, extract, update; each call is made only after error-free replies; an error reply ends the run with its failure message; a missing title or source returns its error with no call; the first call creates the sheet with the title |
| Agent.SearchFollowsCreation | agent.py:31-41 | the search runs only after the creation reply decodes to an object, and its query is the extracted source |
| Agent.ExtractFetchesFirstResult | agent.py:46-54 | a page is fetched only when the search reply has a first result with a non-empty url, and that url is the one fetched |
| Agent.SearchWithoutUrlStops | agent.py:46-52 | an error-free search reply with no results, or with a falsy value, ends the run with the no-results error and no further call; a first result without url ends it with the no-url error |
| Agent.ParseFailureRaises | agent.py:59-79 | a fetched page that does not parse ends the run with the parser's exception before any update, and a page that parses leads to the update |
| Agent.UpdateWritesParsedTable | agent.py:79-86 | the update writes the parsed page with the sheet id from the creation reply |
| Agent.OnlySuccessLooksSuccessful | agent.py:21-91 | no error or failure message starts like the success message |
| Agent.SuccessOnlyAfterUpdate | agent.py:88-91 | the run reports success exactly when all four calls were made and the update reply is free of errors, naming the title and the url of the creation reply |
| Agent.RaisesOnlyOnDecodeOrParse | agent.py:36-76 | the pipeline raises only where `json.loads` or `.get` fails, or where the parser raises on the fetched page |
| Agent.DriveParsersAgree | agent.py:59-89 | two parsers that agree wherever the first succeeds give the same run unless the first fails on the fetched page |
| Agent.HandleSpreadsheetUpdate | agent.py:15-28 | with no title, or a title and no source, the handler returns the matching error and calls no tool |
| Agent.HandleSpreadsheetUpdateFixed | agent.py:15-28 | the same early returns hold with the corrected parser |
| Agent.AsWrittenAgreesWithFixed | agent.py:66-76 | unless the run as written raises `IndexError`, it is identical to the run with the corrected parser |
| Agent.ParsersAgree | agent.py:66-76 | the parser as written either raises `IndexError` or returns the corrected table |
| Agent.AsWrittenRaisesOnFourPartLine | agent.py:66-72 | once a page is fetched, the run as written raises `IndexError` exactly when the page has a line of four bar-separated pieces |
| Agent.FixedAlwaysUpdates | agent.py:59-86 | with the corrected parser a fetched page is always written as the corrected table, and the run raises only on a reply that does not decode |
| Agent.CleanAnswer | agent.py:116 | the printed answer has no surrounding whitespace |
| Agent.MainAnswer | agent.py:111-120 | requests without both keywords print the cleaned agent-loop answer; a spreadsheet request prints the handler's returned message (as written) with every marker removed and stripped, and re-raises its exception; a request without a title prints the cleaned title error; every printed answer is trimmed |
| Agent.MainAnswerFixed | agent.py:111-120 | the same routing, printing and re-raising with the corrected page parser: a spreadsheet request prints the corrected handler's returned message cleaned, or re-raises its exception |
| Agent.CleanFinalAnswer | agent.py:116 | a planner answer `FINAL_ANSWER:<text>` with marker-free text prints as that text stripped |
| Agent.CleanAnswerRemovesEveryMarker | agent.py:116 | every marker is removed: `FINAL_ANSWER:<a>FINAL_ANSWER:<b>` with marker-free `a` and `b` prints as `a` followed by `b`, stripped |
| Agent.MarkerNotBefore | agent.py:116 | no marker starts inside marker-free text that a marker follows |
| Agent.CleanAnswerCanKeepMarker | agent.py:116 | removal is a single pass, so `FINAL_FINAL_ANSWER:ANSWER:` still prints the marker |
| Agent.MarkerThenText | agent.py:116 | a leading marker is removed and marker-free text after it is kept |
| Agent.RoutingIgnoresCase | agent.py:112 | routing gives the same decision for a request and its lower-cased form |
| Agent.KeywordsInAnyCaseRoute | agent.py:112 | a request holding both keywords, in either order and any letter case, goes to the spreadsheet pipeline |
| Agent.FoundWhereSpelled | agent.py:112 | a word occurs in the lower-cased request exactly where the request spells it in some letter case |
| Agent.RoutedIffBothSpelled | agent.py:112 | a request goes to the spreadsheet pipeline exactly when it spells both `spreadsheet` and `update`, each in some letter case |
| Agent.MainReRaises | agent.py:111-120 | `main` re-raises only for a spreadsheet request, and only a decode failure, a failed `.get` or `IndexError`; once a page is fetched it re-raises `IndexError` exactly when the page has a line of four pieces |
| Agent.MainFixedRaisesOnlyOnDecode | agent.py:111-120 | with the corrected parser, `main` re-raises only for a spreadsheet request whose reply does not decode |
| Agent.MainAnswersAgree | agent.py:111-120 | `main` as written and with the corrected parser give the same outcome unless the one as written re-raises `IndexError` |
| Standings.DropDriverCode | agent.py:75 | three capitals at the very end are removed; three capitals just before a final line feed are removed and the line feed kept; any other text is left unchanged |
| Standings.DriverName | agent.py:70-75 | the driver name has no surrounding whitespace |
| Standings.DriverNameDropsCode | agent.py:70-75 | the driver name is the stripped cell with one trailing run of three capitals cut off, stripped again |
| Standings.RowOf | agent.py:70-76 | a row has three cells: the driver name made from piece 1, then pieces 3 and 4 stripped |
| Standings.LineStep | agent.py:66-76 | one line raises `IndexError` exactly when it has four pieces; otherwise it gives the rows of the corrected guard |
| Standings.ParseRows | agent.py:66-76 | the row loop as written fails with `IndexError` exactly when some line has four pieces, and otherwise gives the corrected rows |
| Standings.NoOccurrenceCountsZero | agent.py:67 | a line without a bar has no bar to count |
| Standings.ParseRowsFixed | agent.py:66-76 | every corrected row has three cells |
| Standings.LineRows | agent.py:67-76 | a line contributes at most one row, of three cells |
| Standings.ParseStandings | agent.py:59-76 | the table as written starts with the header, has three cells per row, fails exactly when a line has four pieces and then with `IndexError`, and otherwise equals the corrected table |
| Standings.ParseStandingsFixed | agent.py:59-76 | the corrected table is the header followed by the rows of the lines |
| Standings.ParseRowsFixedAppend | agent.py:66 | the corrected parser works line by line: rows of a concatenation are the rows of each part in order |
| Standings.ParseRowsFixedLine | agent.py:67-76 | a line contributes one row when it has at least five pieces and nothing otherwise; a line without a bar contributes nothing |
| Standings.ThreeBarsFail | agent.py:68-72 | a line with exactly three bars makes the parse as written fail, wherever it stands |
| Standings.FourPartLineRaises | agent.py:68-72 | a single line of four bar-free pieces raises `IndexError` as written and gives just the header when corrected |
| Standings.BareHeaderLineRaises | agent.py:68-72 | the header line `Pos \| Driver \| Team \| PTS` raises `IndexError` as written |
| Standings.RangeName | agent.py:83 | the range is `A1:C` followed by the decimal digits of the row count |
| Text.LStrip | modules/decision.py:133 | `lstrip` never lengthens the text and leaves no whitespace at its start |
| Text.RStrip | modules/decision.py:133 | `rstrip` never lengthens the text and leaves no whitespace at its end |
| Text.Strip | modules/decision.py:133 | a stripped text has no whitespace at either end |
| Text.LStripShape | modules/decision.py:133 | `lstrip` leaves the suffix after the leading whitespace |
| Text.RStripShape | modules/decision.py:133 | `rstrip` leaves the prefix before the trailing whitespace |
| Text.StripIsStripOf | modules/decision.py:133 | the stripped text sits in the original between whitespace-only ends |
| Text.StripUnique | modules/decision.py:137-138 | any trimmed text surrounded by whitespace-only ends is the strip |
| Text.StripOfTrimmed | modules/decision.py:137-138 | stripping a trimmed text changes nothing |
| Text.StripIdempotent | modules/decision.py:138 | stripping twice is stripping once |
| Text.LStripOfSpaces | modules/decision.py:133 | `lstrip` removes exactly a whitespace prefix before a non-space |
| Text.RStripOfSpaces | modules/decision.py:133 | `rstrip` removes exactly a whitespace suffix after a non-space |
| Text.Join | modules/decision.py:32 | a join of at least one piece starts with the first piece |
| Text.Split | agent.py:66-68 | splitting yields at least one piece |
| Text.SplitPiecesLackSeparator | agent.py:66-68 | no piece of a split contains the separator |
| Text.JoinOfSplit | agent.py:66-68 | joining the pieces of a split with the separator gives back the text |
| Text.SplitCount | agent.py:68-69 | a split yields one more piece than the separator occurs |
| Text.SplitOfPiece | agent.py:66 | a separator-free piece followed by the separator splits off as one piece |
| Text.SplitOfJoin | modules/decision.py:32 | splitting a join of separator-free pieces gives back the pieces |
| Text.Lower | agent.py:112 | lower-casing keeps the length, lowers ASCII capitals and keeps every other character |
| Text.LowerSlice | agent.py:112 | lower-casing a slice is slicing the lower-cased text |
| Text.RemoveAll | agent.py:116 | removing occurrences never lengthens the text |
| Text.RemoveAllAbsent | agent.py:116 | text without the pattern is unchanged |
| Text.RemoveAllKeepsPrefix | agent.py:116 | a prefix in which no occurrence starts is kept as it is |
| Text.RemoveAllAfterOccurrence | agent.py:116 | an occurrence at the front is removed and removal continues after it; with the previous row this fixes the result on every input |
| Text.RemoveAllBetween | agent.py:116 | two occurrences, each followed by text in which none starts, are both removed |
| Text.NatToString | agent.py:83 | `str(n)` is a non-empty digit string without a leading zero whose value is `n` |

## Left out

- The prompt text of `generate_plan` (modules/decision.py:37-128) and the model call itself: the completion is an input, and the prompt wording is not behaviour.
- Logging in both files: it has no effect on results.
- `Decision.Lines`: `str.splitlines` is modelled as a split on line feed only; the other line boundaries it recognises (carriage return, form feed, U+2028 and so on) are not. A `\r\n` ending therefore leaves a `\r` that the per-line strip removes.
- `json.loads` is abstracted to `Doc`: unparsable text, a non-object value with its truthiness, or an object with the fields read. A `results` value that is not a list, or a first result that is not an object, is not distinguished.
- Exceptions raised by the dispatcher itself, and the string or object shape of its replies, are not modelled: a reply is its text plus its decoded view.
- The agent loop (`agent.run()`) is not part of this model; its answer is an input of `Agent.MainAnswer` and `Agent.MainAnswerFixed`.
- `input()`, the YAML configuration, `MultiMCP.initialize` and the console output of `main` are I/O.
- `Text.Lower`: lowers ASCII capitals only. This is exact for the routing decision. The only non-ASCII characters that `str.lower` maps to ASCII letters are U+0130 (to `i` plus a combining dot) and U+212A (to `k`), and neither `i` nor `k` occurs in `spreadsheet` or `update`.
- `Text.RemoveAll`: its own contract only bounds the length; what it removes is stated by `Text.RemoveAllKeepsPrefix` (text before the first occurrence is kept) and `Text.RemoveAllAfterOccurrence` (an occurrence at the front is dropped and removal continues), which together determine the result on every input.
- `Agent.FixedParse`: the corrected parser as a pipeline stage carries no contract of its own; its content is `Standings.ParseStandingsFixed`.

## Findings

| source | as written | input that shows it | evidently intended | confidence | as-written member | corrected member |
|---|---|---|---|---|---|---|
| agent.py:69-72 | the guard `len(parts) >= 4` admits a line of four pieces, which then reads `parts[4]` and raises `IndexError`, ending the whole update | a page line `Pos \| Driver \| Team \| PTS` (three bars, four pieces) | `len(parts) >= 5`, so that only lines with a fifth piece are read | high; not executed | Standings.BareHeaderLineRaises | Standings.ParseStandingsFixed |
