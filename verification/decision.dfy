/** The planner step of modules/decision.py: the context strings rendered
    into the prompt, and the selection of the one directive line in the
    model's completion. The completion service is an input: `None` stands
    for a call that raised. */
module Decision {
  import opened Wrappers
  import opened Text

  const FunctionCallPrefix: string := "FUNCTION_CALL:"
  const FinalAnswerPrefix: string := "FINAL_ANSWER:"

  /** The safe default returned when no directive can be found. */
  const UnknownAnswer: string := "FINAL_ANSWER: [unknown]"

  /** One recorded fact; the planner reads only its text. */
  datatype MemoryItem = MemoryItem(text: string)

  // ---------------------------------------------------------------------
  // Context strings
  // ---------------------------------------------------------------------

  const ToolsHeader: string := "\nYou have access to the following tools:\n"
  const EmailLinePrefix: string := "- The user's email address is: "
  const EmailRuleText: string :=
    "- For any tool that requires an email, always use the user's email address exactly as provided above."

  /** The bullet line for one memory item. */
  function Bullet(m: MemoryItem): string {
    "- " + m.text
  }

  function Bullets(items: seq<MemoryItem>): (lines: seq<string>)
    ensures |lines| == |items|
    ensures forall k :: 0 <= k < |items| ==> lines[k] == Bullet(items[k])
  {
    seq(|items|, k requires 0 <= k < |items| => Bullet(items[k]))
  }

  /** The memory section of the prompt: the bullets joined by newlines, or
      the word `None` when that join is empty. */
  function MemoryTexts(items: seq<MemoryItem>): (r: string)
    ensures r == "None" <==> |items| == 0
    ensures |items| > 0 ==> StartsWith(r, "- " + items[0].text)
  {
    var joined := Join(Bullets(items), "\n");
    assert |items| > 0 ==> StartsWith(joined, Bullet(items[0])) && joined != "None" by {
      if |items| > 0 {
        assert joined[0] == Bullet(items[0])[0] == '-' != "None"[0];
      }
    }
    assert |items| == 0 ==> Bullets(items) == [];
    if joined == "" then "None" else joined
  }

  /** Reading the memory section back line by line gives one bullet per
      item, in insertion order, whenever no item text holds a newline. */
  lemma MemoryTextsLines(items: seq<MemoryItem>)
    requires |items| > 0
    requires forall k :: 0 <= k < |items| ==> '\n' !in items[k].text
    ensures Split(MemoryTexts(items), '\n') == Bullets(items)
  {
    var lines := Bullets(items);
    forall k | 0 <= k < |lines|
      ensures '\n' !in lines[k]
    {
      assert lines[k] == "- " + items[k].text;
    }
    SplitOfJoin(lines, '\n');
  }

  /** The tool section: empty unless descriptions are given. */
  function ToolContext(descriptions: Option<string>): (r: string)
    ensures r == "" <==> !Truthy(descriptions)
    ensures Truthy(descriptions) ==>
      (StartsWith(r, ToolsHeader) && r[|ToolsHeader|..] == descriptions.value)
  {
    if Truthy(descriptions) then ToolsHeader + descriptions.value else ""
  }

  /** The line stating the user's address: empty unless one is given. */
  function EmailLine(email: Option<string>): (r: string)
    ensures r == "" <==> !Truthy(email)
    ensures Truthy(email) ==>
      (StartsWith(r, EmailLinePrefix) && r[|EmailLinePrefix|..] == email.value)
  {
    if Truthy(email) then EmailLinePrefix + email.value else ""
  }

  /** The rule about using the address: present exactly when one is given. */
  function EmailRule(email: Option<string>): (r: string)
    ensures r == "" <==> !Truthy(email)
    ensures r != "" ==> r == EmailRuleText
  {
    if Truthy(email) then EmailRuleText else ""
  }

  // ---------------------------------------------------------------------
  // Directive selection
  // ---------------------------------------------------------------------

  /** A line the agent can act on: it starts, case-sensitively, with one of
      the two directive prefixes. */
  predicate IsDirective(line: string) {
    StartsWith(line, FunctionCallPrefix) || StartsWith(line, FinalAnswerPrefix)
  }

  /** The prefix test is applied to the stripped form of each line. */
  predicate IsDirectiveLine(line: string) {
    IsDirective(Strip(line))
  }

  predicate IsFirstDirectiveLine(lines: seq<string>, i: int) {
    0 <= i < |lines| && IsDirectiveLine(lines[i])
    && forall j :: 0 <= j < i ==> !IsDirectiveLine(lines[j])
  }

  predicate HasDirectiveLine(lines: seq<string>) {
    exists i :: 0 <= i < |lines| && IsDirectiveLine(lines[i])
  }

  /** The lines of a completion (split on line feeds only). */
  function Lines(raw: string): seq<string> {
    Split(raw, '\n')
  }

  /** Index of the first directive line, or `|lines|` when there is none. */
  function FirstDirectiveIndex(lines: seq<string>): (k: nat)
    ensures k <= |lines|
    ensures forall j :: 0 <= j < k ==> !IsDirectiveLine(lines[j])
    ensures k < |lines| ==> IsDirectiveLine(lines[k])
  {
    if |lines| == 0 then 0
    else if IsDirectiveLine(lines[0]) then 0
    else 1 + FirstDirectiveIndex(lines[1..])
  }

  lemma UnknownAnswerWellFormed()
    ensures IsDirective(UnknownAnswer)
    ensures Strip(UnknownAnswer) == UnknownAnswer
  {
    assert UnknownAnswer[..|FinalAnswerPrefix|] == FinalAnswerPrefix;
    StripOfTrimmed(UnknownAnswer);
  }

  /** The directive chosen among the lines of a completion: the stripped
      first directive line, or the unknown answer. */
  function SelectLine(lines: seq<string>): (d: string)
    ensures IsDirective(d)
    ensures Strip(d) == d
    ensures HasDirectiveLine(lines) ==>
      exists i :: IsFirstDirectiveLine(lines, i) && d == Strip(lines[i])
    ensures !HasDirectiveLine(lines) ==> d == UnknownAnswer
  {
    var k := FirstDirectiveIndex(lines);
    if k < |lines| then
      StripIdempotent(lines[k]);
      assert IsFirstDirectiveLine(lines, k);
      Strip(lines[k])
    else
      UnknownAnswerWellFormed();
      UnknownAnswer
  }

  /** The planner's output for one step: never raises, always a directive. */
  function GeneratePlan(completion: Option<string>): (d: string)
    ensures IsDirective(d)
    ensures Strip(d) == d
    ensures completion.None? ==> d == UnknownAnswer
    ensures completion.Some? ==> d == SelectLine(Lines(Strip(completion.value)))
  {
    match completion
    case None =>
      UnknownAnswerWellFormed();
      UnknownAnswer
    case Some(text) => SelectLine(Lines(Strip(text)))
  }

  /** Lines after the first directive line never influence the choice. */
  lemma LaterLinesIgnored(lines: seq<string>, more: seq<string>)
    requires HasDirectiveLine(lines)
    ensures SelectLine(lines + more) == SelectLine(lines)
  {
    var k := FirstDirectiveIndex(lines);
    assert IsFirstDirectiveLine(lines + more, k);
    FirstIsUnique(lines + more, k);
  }

  /** Lines with no directive before the first directive line are skipped. */
  lemma LeadingProseSkipped(prose: seq<string>, rest: seq<string>)
    requires !HasDirectiveLine(prose)
    ensures SelectLine(prose + rest) == SelectLine(rest)
  {
    var lines := prose + rest;
    var k := FirstDirectiveIndex(rest);
    forall j | 0 <= j < |prose| + k
      ensures !IsDirectiveLine(lines[j])
    {
      if j < |prose| {
        assert lines[j] == prose[j];
      } else {
        assert lines[j] == rest[j - |prose|];
      }
    }
    if k < |rest| {
      assert lines[|prose| + k] == rest[k];
      assert IsFirstDirectiveLine(lines, |prose| + k);
      FirstIsUnique(lines, |prose| + k);
      FirstIsUnique(rest, k);
    } else {
      assert !HasDirectiveLine(lines);
      assert FirstDirectiveIndex(lines) == |lines|;
    }
  }

  lemma FirstIsUnique(lines: seq<string>, i: int)
    requires IsFirstDirectiveLine(lines, i)
    ensures FirstDirectiveIndex(lines) == i
  {
  }

  /** A one-line completion, however indented, yields that line when it is a
      directive and the unknown answer otherwise. */
  lemma SingleLineCompletion(pad: string, line: string)
    requires AllSpace(pad) && Trimmed(line) && '\n' !in line
    ensures GeneratePlan(Some(pad + line))
      == if IsDirective(line) then line else UnknownAnswer
  {
    var raw := pad + line;
    assert raw[|pad|..|pad| + |line|] == line;
    assert raw[..|pad|] == pad;
    assert raw[|pad| + |line|..] == [];
    assert SurroundedAt(raw, line, |pad|);
    StripUnique(raw, line);
    SplitOfPiece(line, '\n', "");
    assert Lines(Strip(raw)) == [line];
    SelectSingleLine(line);
  }

  lemma SelectSingleLine(line: string)
    requires Trimmed(line)
    ensures SelectLine([line]) == if IsDirective(line) then line else UnknownAnswer
  {
    StripOfTrimmed(line);
    if IsDirective(line) {
      assert IsFirstDirectiveLine([line], 0);
      FirstIsUnique([line], 0);
    } else {
      assert !IsDirectiveLine([line][0]);
    }
  }

  /** The prefix test is case-sensitive: lower-case prefixes are not
      directives. */
  lemma DirectivePrefixCaseSensitive(rest: string)
    ensures !IsDirective("final_answer:" + rest)
    ensures !IsDirective("function_call:" + rest)
  {
    assert ("final_answer:" + rest)[0] == 'f';
    assert ("function_call:" + rest)[0] == 'f';
  }
}
