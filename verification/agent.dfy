/** agent.py: the spreadsheet-update pipeline (argument extraction, the
    fixed sequence of tool calls with early exit, the sheet update) and the
    routing and answer cleanup of `main`. The dispatcher is an input: a
    function from the call's position in the run and the call itself to the
    reply, so every run is a deterministic trace of calls. */
module Agent {
  import opened Wrappers
  import opened Text
  import opened Standings
  import opened Decision

  // ---------------------------------------------------------------------
  // Argument extraction
  // ---------------------------------------------------------------------

  const TitleKeyword: string := "title"
  const SourceKeyword: string := "found from"

  predicate IsQuote(c: char) {
    c == '"' || c == '\''
  }

  /** `,` and `.` end a data-source name. */
  predicate IsStop(c: char) {
    c == ',' || c == '.'
  }

  /** End of the longest run from `j` of characters satisfying `inRun`. */
  function RunEnd(s: string, j: nat, inRun: char -> bool): (e: nat)
    requires j <= |s|
    ensures j <= e <= |s|
    ensures forall m :: j <= m < e ==> inRun(s[m])
    ensures e == |s| || !inRun(s[e])
    decreases |s| - j
  {
    if j < |s| && inRun(s[j]) then RunEnd(s, j + 1, inRun) else j
  }

  /** A run that stops where `inRun` first fails is the longest one. */
  lemma {:induction false} RunEndIs(s: string, j: nat, e: nat, inRun: char -> bool)
    requires j <= e <= |s|
    requires forall m :: j <= m < e ==> inRun(s[m])
    requires e == |s| || !inRun(s[e])
    ensures RunEnd(s, j, inRun) == e
    decreases e - j
  {
    if j < e {
      RunEndIs(s, j + 1, e, inRun);
    }
  }

  /** Python's match of `title\s*["']([^"']+)["']` anchored at `i`: the
      group, or `None`. Both runs are greedy, and giving characters back
      cannot help (a space is not a quote, a non-quote is not a quote). */
  function TitleAt(s: string, i: nat): (r: Option<string>)
    requires i <= |s|
    ensures r.Some? ==> |r.value| > 0 && forall x :: 0 <= x < |r.value| ==> !IsQuote(r.value[x])
  {
    if !(i + |TitleKeyword| <= |s| && s[i..i + |TitleKeyword|] == TitleKeyword) then None
    else
      var j := RunEnd(s, i + |TitleKeyword|, IsSpace);
      if j < |s| && IsQuote(s[j]) then
        var k := RunEnd(s, j + 1, c => !IsQuote(c));
        if j + 1 < k < |s| then
          Some(s[j + 1..k])
        else None
      else None
  }

  /** Any way of reading the pattern at `i` with group `s[j + 1..k]`. */
  predicate TitleShape(s: string, i: int, j: int, k: int) {
    0 <= i && i + |TitleKeyword| <= j && j + 1 < k < |s|
    && s[i..i + |TitleKeyword|] == TitleKeyword
    && (forall m :: i + |TitleKeyword| <= m < j ==> IsSpace(s[m]))
    && IsQuote(s[j])
    && (forall m :: j < m < k ==> !IsQuote(s[m]))
    && IsQuote(s[k])
  }

  /** The anchored match agrees with the pattern's language: it succeeds
      exactly when some reading exists, and then returns that reading's
      group. */
  lemma TitleAtIffShape(s: string, i: nat, j: int, k: int)
    requires i <= |s|
    ensures TitleShape(s, i, j, k) ==> TitleAt(s, i) == Some(s[j + 1..k])
    ensures TitleAt(s, i).Some? ==>
      exists j', k' :: TitleShape(s, i, j', k') && TitleAt(s, i) == Some(s[j' + 1..k'])
  {
    var start := i + |TitleKeyword|;
    if TitleShape(s, i, j, k) {
      RunEndIs(s, start, j, IsSpace);
      RunEndIs(s, j + 1, k, c => !IsQuote(c));
    }
    if TitleAt(s, i).Some? {
      var j' := RunEnd(s, start, IsSpace);
      var k' := RunEnd(s, j' + 1, c => !IsQuote(c));
      assert TitleShape(s, i, j', k');
    }
  }

  /** `re.search` for the title: the first position from `i` on where the
      anchored match succeeds, or `|s| + 1` when there is none. */
  function TitleSearch(s: string, i: nat): (m: nat)
    requires i <= |s| + 1
    ensures i <= m <= |s| + 1
    ensures forall m' :: i <= m' < m && m' <= |s| ==> TitleAt(s, m').None?
    ensures m <= |s| ==> TitleAt(s, m).Some?
    decreases |s| + 1 - i
  {
    if i > |s| then i
    else if TitleAt(s, i).Some? then i
    else TitleSearch(s, i + 1)
  }

  /** The spreadsheet title named in the request, if any: a non-empty text
      between quotes that holds no quote itself, taken from the leftmost
      match. */
  function ExtractTitle(input: string): (r: Option<string>)
    ensures r.Some? ==> |r.value| > 0 && forall x :: 0 <= x < |r.value| ==> !IsQuote(r.value[x])
    ensures r.None? <==> forall m :: 0 <= m <= |input| ==> TitleAt(input, m).None?
    ensures r.Some? ==>
      exists m :: (0 <= m <= |input| && TitleAt(input, m) == r
        && forall m' :: 0 <= m' < m ==> TitleAt(input, m').None?)
  {
    var m := TitleSearch(input, 0);
    if m <= |input| then TitleAt(input, m) else None
  }

  /** Python's match of `found from\s+([^,.]+)` anchored at `i`: the group,
      or `None`. The space run is greedy; when nothing but a stop or the end
      follows it, the regex gives one space back to the group if the run had
      more than one. */
  function SourceAt(s: string, i: nat): (r: Option<string>)
    requires i <= |s|
    ensures r.Some? ==> forall x :: 0 <= x < |r.value| ==> !IsStop(r.value[x])
  {
    if !(i + |SourceKeyword| <= |s| && s[i..i + |SourceKeyword|] == SourceKeyword) then None
    else
      var start := i + |SourceKeyword|;
      var e := RunEnd(s, start, IsSpace);
      if e == start then None
      else if e < |s| && !IsStop(s[e]) then
        var k := RunEnd(s, e, c => !IsStop(c));
        assert forall x :: 0 <= x < k - e ==> s[e..k][x] == s[e + x];
        Some(s[e..k])
      else if e - start >= 2 then
        assert !IsStop(s[e - 1]) by {
          assert IsSpace(s[e - 1]);
        }
        Some(s[e - 1..e])
      else None
  }

  /** Any way of reading the pattern at `i` with group `s[j..k]`. */
  predicate SourceShape(s: string, i: int, j: int, k: int) {
    0 <= i && i + |SourceKeyword| < j < k <= |s|
    && s[i..i + |SourceKeyword|] == SourceKeyword
    && (forall m :: i + |SourceKeyword| <= m < j ==> IsSpace(s[m]))
    && (forall m :: j <= m < k ==> !IsStop(s[m]))
  }

  /** The anchored match succeeds exactly when some reading exists, and the
      reading it picks has a group that runs to a stop or to the end. */
  lemma SourceAtIffShape(s: string, i: nat, j: int, k: int)
    requires i <= |s|
    ensures SourceShape(s, i, j, k) ==> SourceAt(s, i).Some?
    ensures SourceAt(s, i).Some? ==>
      exists j', k' :: (SourceShape(s, i, j', k') && SourceAt(s, i) == Some(s[j'..k'])
        && (k' == |s| || IsStop(s[k'])))
  {
    var start := i + |SourceKeyword|;
    if i + |SourceKeyword| <= |s| && s[i..i + |SourceKeyword|] == SourceKeyword {
      var e := RunEnd(s, start, IsSpace);
      if SourceShape(s, i, j, k) {
        assert e > start by {
          assert IsSpace(s[start]);
        }
      }
      if e > start && e < |s| && !IsStop(s[e]) {
        var k' := RunEnd(s, e, c => !IsStop(c));
        assert SourceShape(s, i, e, k');
      } else if e - start >= 2 {
        assert SourceShape(s, i, e - 1, e);
      }
    }
  }

  /** `re.search` for the data source: the first position from `i` on
      where the anchored match succeeds, or `|s| + 1`. */
  function SourceSearch(s: string, i: nat): (m: nat)
    requires i <= |s| + 1
    ensures i <= m <= |s| + 1
    ensures forall m' :: i <= m' < m && m' <= |s| ==> SourceAt(s, m').None?
    ensures m <= |s| ==> SourceAt(s, m).Some?
    decreases |s| + 1 - i
  {
    if i > |s| then i
    else if SourceAt(s, i).Some? then i
    else SourceSearch(s, i + 1)
  }

  /** The data source named in the request, stripped: it holds no `,` or
      `.` (it may be empty when only spaces follow `found from`). */
  function ExtractSource(input: string): (r: Option<string>)
    ensures r.Some? ==> Trimmed(r.value) && forall x :: 0 <= x < |r.value| ==> !IsStop(r.value[x])
    ensures r.None? <==> forall m :: 0 <= m <= |input| ==> SourceAt(input, m).None?
    ensures r.Some? ==>
      exists m :: (0 <= m <= |input| && SourceAt(input, m).Some?
        && r.value == Strip(SourceAt(input, m).value)
        && forall m' :: 0 <= m' < m ==> SourceAt(input, m').None?)
  {
    var m := SourceSearch(input, 0);
    if m <= |input| then
      var g := SourceAt(input, m).value;
      StripKeeps(g, IsStop);
      Some(Strip(g))
    else None
  }

  /** Stripping keeps only characters of the original. */
  lemma StripKeeps(g: string, bad: char -> bool)
    requires forall x :: 0 <= x < |g| ==> !bad(g[x])
    ensures forall x :: 0 <= x < |Strip(g)| ==> !bad(Strip(g)[x])
  {
    var src := Strip(g);
    StripIsStripOf(g);
    var n :| SurroundedAt(g, src, n);
    forall x | 0 <= x < |src|
      ensures !bad(src[x])
    {
      assert src[x] == g[n + x];
    }
  }

  // ---------------------------------------------------------------------
  // The pipeline
  // ---------------------------------------------------------------------

  /** An argument value sent to a tool. */
  datatype Value = Text(text: string) | Null | Cells(table: Table)

  datatype Call = Call(tool: string, args: map<string, Value>)

  /** One entry of the search results; `url` is `None` when missing or
      null. */
  datatype Hit = Hit(url: Option<string>)

  /** What `json.loads` makes of a reply, reduced to what the pipeline
      reads: unparsable text, a non-object value (with its truthiness), or an
      object with the fields read (`results` empty when missing, null or
      empty). */
  datatype Doc =
    | Unparsable
    | Scalar(truthy: bool)
    | Object(spreadsheetId: Option<string>, url: Option<string>, results: seq<Hit>)

  /** A tool's reply: its raw text and that text decoded. */
  datatype Reply = Reply(text: string, doc: Doc)

  /** How `handle_spreadsheet_update` ends: a returned message, or an
      exception escaping it. */
  datatype Outcome = Returned(message: string) | Raised(error: string)

  /** The outcome together with every tool call made, in order. */
  datatype Run = Run(outcome: Outcome, trace: seq<Call>)

  /** The dispatcher: the reply to the `n`-th call of a run. */
  type Dispatcher = (nat, Call) -> Reply

  const CreateTool: string := "create_spreadsheet"
  const SearchTool: string := "search"
  const ExtractTool: string := "extract_webpage"
  const UpdateTool: string := "update_sheet"

  /** The only order in which the pipeline calls tools. */
  const ToolOrder: seq<string> := [CreateTool, SearchTool, ExtractTool, UpdateTool]

  /** The message returned when the reply to the call at each position
      reports an error; the reply text follows it. */
  const FailurePrefixes: seq<string> := [
    "Failed to create spreadsheet: ", "Failed to search for data: ",
    "Failed to extract data: ", "Failed to update spreadsheet: "]

  const TitleMissing: string :=
    "Error: Could not find spreadsheet title " + "in the query. "
    + "Please specify title in quotes."
  const SourceMissing: string :=
    "Error: Could not find data source " + "in the query. "
    + "Please specify where to find the data."
  const NoResults: string := "Error: No search results found."
  const NoUrl: string := "Error: Could not find URL in search results."
  const SuccessPrefix: string := "Successfully created " + "and updated spreadsheet '"
  const JsonDecodeError: string := "JSONDecodeError"
  const AttributeError: string := "AttributeError: object has no attribute 'get'"

  /** A reply reports failure when its text contains `Error`. */
  predicate HasError(r: Reply) {
    Contains(r.text, "Error")
  }

  /** A reply reports failure exactly when `Error` sits somewhere inside
      its text. */
  lemma HasErrorIffInfix(r: Reply, a: string, b: string)
    ensures r.text == a + "Error" + b ==> HasError(r)
    ensures HasError(r) ==>
      exists i :: 0 <= i <= |r.text| - 5 && r.text == r.text[..i] + "Error" + r.text[i + 5..]
  {
    if r.text == a + "Error" + b {
      assert OccursAt(r.text, "Error", |a|);
    }
    if HasError(r) {
      var i :| 0 <= i <= |r.text| - 5 && OccursAt(r.text, "Error", i);
      assert r.text == r.text[..i] + r.text[i..i + 5] + r.text[i + 5..];
    }
  }

  /** Python's `str()` of an optional string. */
  function Show(o: Option<string>): string {
    if o.None? then "None" else o.value
  }

  /** The sheet id read from the creation reply, as the argument sent. */
  function SheetId(created: Doc): Value {
    if created.Object? && created.spreadsheetId.Some? then Text(created.spreadsheetId.value) else Null
  }

  /** The sheet url read from the creation reply. */
  function SheetUrl(created: Doc): Option<string> {
    if created.Object? then created.url else None
  }

  /** The call that writes the table over columns A to C, one sheet row per
      table row. */
  function UpdateCall(created: Doc, table: Table): (c: Call)
    ensures c.tool == UpdateTool
    ensures c.args.Keys == {"spreadsheet_id", "range_name", "values"}
    ensures c.args["values"] == Cells(table)
    ensures c.args["range_name"] == Text(RangeName(|table|))
    ensures c.args["spreadsheet_id"] == SheetId(created)
  {
    Call(UpdateTool, map["spreadsheet_id" := SheetId(created),
                         "range_name" := Text(RangeName(|table|)),
                         "values" := Cells(table)])
  }

  /** What the pipeline does after an error-free reply: stop with an
      outcome, or make the next call. */
  datatype Step = Done(outcome: Outcome) | Then(call: Call)

  /** After the creation reply: `json.loads`, then `.get` on the result. */
  function AfterCreate(created: Doc, source: string): (s: Step)
    ensures s.Then? <==> created.Object?
    ensures s.Then? ==> s.call == Call(SearchTool, map["query" := Text(source)])
    ensures s.Done? ==> s.outcome.Raised?
  {
    if created.Unparsable? then Done(Raised(JsonDecodeError))
    else if created.Scalar? then Done(Raised(AttributeError))
    else Then(Call(SearchTool, map["query" := Text(source)]))
  }

  /** After the search reply: fetch the first result's url, if there is
      one. */
  function AfterSearch(found: Doc): (s: Step)
    ensures s.Then? <==> found.Object? && |found.results| > 0 && Truthy(found.results[0].url)
    ensures s.Then? ==> s.call == Call(ExtractTool, map["url" := Text(found.results[0].url.value)])
    // an empty or falsy result set, and a first result without url, are reported
    ensures (found.Object? && |found.results| == 0) || found == Scalar(false) ==>
      s == Done(Returned(NoResults))
    ensures found.Object? && |found.results| > 0 && !Truthy(found.results[0].url) ==>
      s == Done(Returned(NoUrl))
    // a reply that is not an object raises when `.get` is reached
    ensures found.Unparsable? || found == Scalar(true) ==> s.Done? && s.outcome.Raised?
  {
    if found.Unparsable? then Done(Raised(JsonDecodeError))
    else if found.Scalar? then
      if found.truthy then Done(Raised(AttributeError)) else Done(Returned(NoResults))
    else if |found.results| == 0 then Done(Returned(NoResults))
    else if !Truthy(found.results[0].url) then Done(Returned(NoUrl))
    else Then(Call(ExtractTool, map["url" := Text(found.results[0].url.value)]))
  }

  /** After the page reply: parse it and write the table. */
  function AfterExtract(created: Doc, page: string, parse: string -> Result<Table, string>): (s: Step)
    ensures s.Then? <==> parse(page).Success?
    ensures s.Then? ==> s.call == UpdateCall(created, parse(page).value)
    ensures s.Done? ==> s.outcome == Raised(parse(page).error)
  {
    match parse(page)
    case Failure(e) => Done(Raised(e))
    case Success(table) => Then(UpdateCall(created, table))
  }

  /** The decision taken after the error-free reply `last` to call `k`;
      `first` is the reply to the creation call. */
  function Advance(k: nat, first: Reply, last: Reply, title: string, source: string,
                   parse: string -> Result<Table, string>): (s: Step)
    requires k < |ToolOrder|
    ensures s.Then? ==> k + 1 < |ToolOrder| && s.call.tool == ToolOrder[k + 1]
  {
    if k == 0 then AfterCreate(last.doc, source)
    else if k == 1 then AfterSearch(last.doc)
    else if k == 2 then AfterExtract(first.doc, last.text, parse)
    else Done(Returned(SuccessPrefix + title + "'. URL: " + Show(SheetUrl(first.doc))))
  }

  /** What the pipeline does after the reply to call `i` of `trace`: an
      error reply ends the run with its failure message, any other reply is
      passed to `Advance` together with the creation reply. */
  function Next(dispatch: Dispatcher, trace: seq<Call>, i: nat, title: string, source: string,
                parse: string -> Result<Table, string>): (s: Step)
    requires i < |trace| && i < |ToolOrder|
    ensures s.Then? ==> i + 1 < |ToolOrder| && s.call.tool == ToolOrder[i + 1]
    ensures HasError(dispatch(i, trace[i])) ==>
      s == Done(Returned(FailurePrefixes[i] + dispatch(i, trace[i]).text))
  {
    var reply := dispatch(i, trace[i]);
    if HasError(reply) then Done(Returned(FailurePrefixes[i] + reply.text))
    else Advance(i, dispatch(0, trace[0]), reply, title, source, parse)
  }

  /** Runs the pipeline from the call at position `|done|` on: the calls
      already made are kept, and at most the four tools are called. */
  function Drive(dispatch: Dispatcher, done: seq<Call>, call: Call, title: string,
                 source: string, parse: string -> Result<Table, string>): (r: Run)
    requires |done| < |ToolOrder| && call.tool == ToolOrder[|done|]
    ensures |done| < |r.trace| <= |ToolOrder|
    ensures r.trace[..|done|] == done && r.trace[|done|] == call
    decreases |ToolOrder| - |done|
  {
    var trace := done + [call];
    assert trace[..|done|] == done;
    match Next(dispatch, trace, |done|, title, source, parse)
    case Done(outcome) => Run(outcome, trace)
    case Then(next) =>
      var r := Drive(dispatch, trace, next, title, source, parse);
      assert r.trace[..|done|] == done by {
        assert r.trace[..|trace|] == trace;
        assert r.trace[..|done|] == trace[..|done|];
      }
      r
  }

  /** Every call `Drive` makes after the one at `|done|` is the one `Next`
      asks for after its predecessor. */
  lemma {:induction false} DriveFollowsNext(dispatch: Dispatcher, done: seq<Call>, call: Call, title: string,
                                            source: string, parse: string -> Result<Table, string>)
    requires |done| < |ToolOrder| && call.tool == ToolOrder[|done|]
    ensures var r := Drive(dispatch, done, call, title, source, parse);
      forall i :: |done| <= i < |r.trace| - 1 ==>
        Next(dispatch, r.trace, i, title, source, parse) == Then(r.trace[i + 1])
    decreases |ToolOrder| - |done|
  {
    var r := Drive(dispatch, done, call, title, source, parse);
    var trace := done + [call];
    var step := Next(dispatch, trace, |done|, title, source, parse);
    if step.Then? {
      DriveFollowsNext(dispatch, trace, step.call, title, source, parse);
      assert r == Drive(dispatch, trace, step.call, title, source, parse);
      assert r.trace[..|trace|] == trace;
      assert r.trace[0] == trace[0] && r.trace[|done|] == call;
      forall i | |done| <= i < |r.trace| - 1
        ensures Next(dispatch, r.trace, i, title, source, parse) == Then(r.trace[i + 1])
      {
        if i == |done| {
          assert Next(dispatch, r.trace, i, title, source, parse) == step;
        }
      }
    }
  }

  /** The run `Drive` returns ends with the outcome `Next` gives after its
      last call. */
  lemma {:induction false} DriveEndsWithNext(dispatch: Dispatcher, done: seq<Call>, call: Call, title: string,
                                             source: string, parse: string -> Result<Table, string>)
    requires |done| < |ToolOrder| && call.tool == ToolOrder[|done|]
    ensures var r := Drive(dispatch, done, call, title, source, parse);
      Next(dispatch, r.trace, |r.trace| - 1, title, source, parse) == Done(r.outcome)
    decreases |ToolOrder| - |done|
  {
    var trace := done + [call];
    var step := Next(dispatch, trace, |done|, title, source, parse);
    if step.Then? {
      var r := Drive(dispatch, trace, step.call, title, source, parse);
      DriveEndsWithNext(dispatch, trace, step.call, title, source, parse);
      assert r.trace[..|trace|] == trace;
      assert r.trace[0] == trace[0];
      assert Drive(dispatch, done, call, title, source, parse) == r;
    } else {
      assert Drive(dispatch, done, call, title, source, parse) == Run(step.outcome, trace);
      assert |trace| - 1 == |done|;
    }
  }

  /** The pipeline of `handle_spreadsheet_update` once the title and the
      data source have been looked for; the page parser is a parameter so
      that the parser as written and the corrected one share every other
      step. */
  function Pipeline(dispatch: Dispatcher, title: Option<string>, source: Option<string>,
                    parse: string -> Result<Table, string>): (r: Run)
    ensures |r.trace| <= |ToolOrder|
    ensures forall k :: 0 <= k < |r.trace| ==> r.trace[k].tool == ToolOrder[k]
    // a call is made only when every earlier reply was free of errors
    ensures forall k :: 0 <= k < |r.trace| - 1 ==> !HasError(dispatch(k, r.trace[k]))
    // an error reply ends the run with that reply's failure message
    ensures forall k :: 0 <= k < |r.trace| && HasError(dispatch(k, r.trace[k])) ==>
      (k == |r.trace| - 1 && r.outcome == Returned(FailurePrefixes[k] + dispatch(k, r.trace[k]).text))
    ensures title.None? ==> r == Run(Returned(TitleMissing), [])
    ensures title.Some? && source.None? ==> r == Run(Returned(SourceMissing), [])
    ensures title.Some? && source.Some? ==>
      |r.trace| >= 1 && r.trace[0] == Call(CreateTool, map["title" := Text(title.value)])
      && (forall i :: 0 <= i < |r.trace| - 1 ==>
            Next(dispatch, r.trace, i, title.value, source.value, parse) == Then(r.trace[i + 1]))
      && Next(dispatch, r.trace, |r.trace| - 1, title.value, source.value, parse) == Done(r.outcome)
  {
    match title
    case None => Run(Returned(TitleMissing), [])
    case Some(t) =>
      match source
      case None => Run(Returned(SourceMissing), [])
      case Some(src) =>
        var create := Call(CreateTool, map["title" := Text(t)]);
        var r := Drive(dispatch, [], create, t, src, parse);
        DriveFollowsNext(dispatch, [], create, t, src, parse);
        DriveEndsWithNext(dispatch, [], create, t, src, parse);
        assert forall k :: 0 < k < |r.trace| ==> r.trace[k].tool == ToolOrder[k] by {
          forall k | 0 < k < |r.trace|
            ensures r.trace[k].tool == ToolOrder[k]
          {
            assert Next(dispatch, r.trace, k - 1, t, src, parse) == Then(r.trace[k]);
          }
        }
        r
  }

  /** The search runs only on a parsed creation reply, with the extracted
      data source as its query. */
  lemma SearchFollowsCreation(dispatch: Dispatcher, title: Option<string>, source: Option<string>,
                              parse: string -> Result<Table, string>)
    ensures var r := Pipeline(dispatch, title, source, parse);
      |r.trace| >= 2 ==>
        dispatch(0, r.trace[0]).doc.Object?
        && r.trace[1] == Call(SearchTool, map["query" := Text(source.value)])
  {
    var r := Pipeline(dispatch, title, source, parse);
    if |r.trace| >= 2 {
      assert Next(dispatch, r.trace, 0, title.value, source.value, parse) == Then(r.trace[1]);
    }
  }

  /** The page fetched is the first search result's url, and it is fetched
      only when the search reply has a first result with a non-empty url. */
  lemma ExtractFetchesFirstResult(dispatch: Dispatcher, title: Option<string>, source: Option<string>,
                                  parse: string -> Result<Table, string>)
    ensures var r := Pipeline(dispatch, title, source, parse);
      |r.trace| >= 3 ==>
        var found := dispatch(1, r.trace[1]).doc;
        found.Object? && |found.results| > 0 && Truthy(found.results[0].url)
        && r.trace[2] == Call(ExtractTool, map["url" := Text(found.results[0].url.value)])
  {
    var r := Pipeline(dispatch, title, source, parse);
    if |r.trace| >= 3 {
      assert Next(dispatch, r.trace, 1, title.value, source.value, parse) == Then(r.trace[2]);
    }
  }

  /** An error-free search reply with no results, or whose first result has
      no url, ends the run with the matching error message and no further
      call. */
  lemma SearchWithoutUrlStops(dispatch: Dispatcher, title: Option<string>, source: Option<string>,
                              parse: string -> Result<Table, string>)
    ensures var r := Pipeline(dispatch, title, source, parse);
      |r.trace| >= 2 && !HasError(dispatch(1, r.trace[1])) ==>
        var found := dispatch(1, r.trace[1]).doc;
        ((found.Object? && |found.results| == 0) || found == Scalar(false) ==>
           |r.trace| == 2 && r.outcome == Returned(NoResults))
        && (found.Object? && |found.results| > 0 && !Truthy(found.results[0].url) ==>
              |r.trace| == 2 && r.outcome == Returned(NoUrl))
  {
    var r := Pipeline(dispatch, title, source, parse);
    if |r.trace| >= 2 && !HasError(dispatch(1, r.trace[1])) {
      var found := dispatch(1, r.trace[1]).doc;
      var step := Next(dispatch, r.trace, 1, title.value, source.value, parse);
      assert step == AfterSearch(found);
      if |r.trace| == 2 {
        assert step == Done(r.outcome);
      } else {
        assert step == Then(r.trace[2]);
      }
    }
  }

  /** A fetched page that does not parse ends the run with the parser's
      exception, before any update. */
  lemma ParseFailureRaises(dispatch: Dispatcher, title: Option<string>, source: Option<string>,
                           parse: string -> Result<Table, string>)
    ensures var r := Pipeline(dispatch, title, source, parse);
      |r.trace| >= 3 && !HasError(dispatch(2, r.trace[2])) ==>
        var parsed := parse(dispatch(2, r.trace[2]).text);
        (parsed.Failure? <==> |r.trace| == 3)
        && (parsed.Failure? ==> r.outcome == Raised(parsed.error))
  {
    var r := Pipeline(dispatch, title, source, parse);
    if |r.trace| >= 3 && !HasError(dispatch(2, r.trace[2])) {
      if |r.trace| == 3 {
        assert Next(dispatch, r.trace, 2, title.value, source.value, parse) == Done(r.outcome);
      } else {
        assert Next(dispatch, r.trace, 2, title.value, source.value, parse) == Then(r.trace[3]);
      }
    }
  }

  /** The update writes the parsed table, with the sheet id of the creation
      reply and the range `A1:C<rows>`. */
  lemma UpdateWritesParsedTable(dispatch: Dispatcher, title: Option<string>, source: Option<string>,
                                parse: string -> Result<Table, string>)
    ensures var r := Pipeline(dispatch, title, source, parse);
      |r.trace| == 4 ==>
        var parsed := parse(dispatch(2, r.trace[2]).text);
        parsed.Success? && r.trace[3] == UpdateCall(dispatch(0, r.trace[0]).doc, parsed.value)
  {
    var r := Pipeline(dispatch, title, source, parse);
    if |r.trace| == 4 {
      assert Next(dispatch, r.trace, 2, title.value, source.value, parse) == Then(r.trace[3]);
    }
  }

  /** No returned message other than the success message starts like it. */
  lemma OnlySuccessLooksSuccessful(t: string)
    ensures !StartsWith(TitleMissing, SuccessPrefix) && !StartsWith(SourceMissing, SuccessPrefix)
    ensures !StartsWith(NoResults, SuccessPrefix) && !StartsWith(NoUrl, SuccessPrefix)
    ensures forall k :: 0 <= k < |FailurePrefixes| ==> !StartsWith(FailurePrefixes[k] + t, SuccessPrefix)
  {
    assert SuccessPrefix[0] == 'S';
    assert TitleMissing[0] == 'E' && SourceMissing[0] == 'E';
    assert NoResults[0] == 'E' && NoUrl[0] == 'E';
    forall k | 0 <= k < |FailurePrefixes|
      ensures !StartsWith(FailurePrefixes[k] + t, SuccessPrefix)
    {
      assert FailurePrefixes[k][0] == 'F';
      assert (FailurePrefixes[k] + t)[0] == 'F';
    }
  }

  /** The run reports success exactly when all four calls were made and the
      update reply is free of errors; the message names the title and the
      sheet url of the creation reply. */
  lemma SuccessOnlyAfterUpdate(dispatch: Dispatcher, title: Option<string>, source: Option<string>,
                               parse: string -> Result<Table, string>)
    ensures var r := Pipeline(dispatch, title, source, parse);
      (r.outcome.Returned? && StartsWith(r.outcome.message, SuccessPrefix))
      <==> (|r.trace| == 4 && !HasError(dispatch(3, r.trace[3])))
    ensures var r := Pipeline(dispatch, title, source, parse);
      |r.trace| == 4 && !HasError(dispatch(3, r.trace[3])) ==>
        r.outcome == Returned(SuccessPrefix + title.value + "'. URL: "
                              + Show(SheetUrl(dispatch(0, r.trace[0]).doc)))
  {
    var r := Pipeline(dispatch, title, source, parse);
    if title.Some? && source.Some? {
      var last := |r.trace| - 1;
      var first, reply := dispatch(0, r.trace[0]), dispatch(last, r.trace[last]);
      if HasError(reply) {
        OnlySuccessLooksSuccessful(reply.text);
      } else {
        assert Next(dispatch, r.trace, last, title.value, source.value, parse) == Done(r.outcome);
        assert Advance(last, first, reply, title.value, source.value, parse) == Done(r.outcome);
        if last < 3 {
          OnlySuccessLooksSuccessful("");
          if r.outcome.Returned? {
            assert last == 1;
            assert r.outcome.message == NoResults || r.outcome.message == NoUrl;
          }
        } else {
          assert StartsWith(SuccessPrefix + title.value + "'. URL: " + Show(SheetUrl(first.doc)), SuccessPrefix);
        }
      }
    } else {
      OnlySuccessLooksSuccessful("");
    }
  }

  /** The pipeline raises only where `json.loads` or `.get` fails, or where
      the page parser raises on the fetched page. */
  lemma RaisesOnlyOnDecodeOrParse(dispatch: Dispatcher, title: Option<string>, source: Option<string>,
                                  parse: string -> Result<Table, string>)
    ensures var r := Pipeline(dispatch, title, source, parse);
      r.outcome.Raised? ==>
        r.outcome.error == JsonDecodeError || r.outcome.error == AttributeError
        || (|r.trace| == 3 && parse(dispatch(2, r.trace[2]).text) == Failure(r.outcome.error))
  {
    var r := Pipeline(dispatch, title, source, parse);
    if r.outcome.Raised? {
      var last := |r.trace| - 1;
      var reply := dispatch(last, r.trace[last]);
      assert Next(dispatch, r.trace, last, title.value, source.value, parse) == Done(r.outcome);
      assert !HasError(reply);
      if last == 0 {
        assert AfterCreate(reply.doc, source.value) == Done(r.outcome);
      } else if last == 1 {
        assert AfterSearch(reply.doc) == Done(r.outcome);
      } else if last == 2 {
        assert AfterExtract(dispatch(0, r.trace[0]).doc, reply.text, parse) == Done(r.outcome);
      }
    }
  }

  /** Two page parsers that agree wherever the first succeeds give the same
      run, unless the first one fails on the fetched page. */
  lemma {:induction false} DriveParsersAgree(dispatch: Dispatcher, done: seq<Call>, call: Call,
                                             title: string, source: string,
                                             parse: string -> Result<Table, string>,
                                             other: string -> Result<Table, string>)
    requires |done| < |ToolOrder| && call.tool == ToolOrder[|done|]
    requires forall text :: parse(text).Success? ==> other(text) == parse(text)
    ensures var a := Drive(dispatch, done, call, title, source, parse);
      (|a.trace| < 3 || HasError(dispatch(2, a.trace[2])) || parse(dispatch(2, a.trace[2]).text).Success?)
      ==> a == Drive(dispatch, done, call, title, source, other)
    decreases |ToolOrder| - |done|
  {
    var a := Drive(dispatch, done, call, title, source, parse);
    var trace := done + [call];
    var reply := dispatch(|done|, call);
    var step := Next(dispatch, trace, |done|, title, source, parse);
    assert a.trace[0] == trace[0] && a.trace[|done|] == call;
    if |done| != 2 || HasError(reply) || parse(reply.text).Success? {
      assert Next(dispatch, trace, |done|, title, source, other) == step;
      if step.Then? {
        DriveParsersAgree(dispatch, trace, step.call, title, source, parse, other);
        assert a == Drive(dispatch, trace, step.call, title, source, parse);
      }
    }
  }

  /** The pipeline as written. */
  function HandleSpreadsheetUpdate(dispatch: Dispatcher, input: string): (r: Run)
    ensures ExtractTitle(input).None? ==> r == Run(Returned(TitleMissing), [])
    ensures ExtractTitle(input).Some? && ExtractSource(input).None? ==>
      r == Run(Returned(SourceMissing), [])
  {
    Pipeline(dispatch, ExtractTitle(input), ExtractSource(input), ParseStandings)
  }

  /** The pipeline with the corrected page parser. */
  function HandleSpreadsheetUpdateFixed(dispatch: Dispatcher, input: string): (r: Run)
    ensures ExtractTitle(input).None? ==> r == Run(Returned(TitleMissing), [])
    ensures ExtractTitle(input).Some? && ExtractSource(input).None? ==>
      r == Run(Returned(SourceMissing), [])
  {
    Pipeline(dispatch, ExtractTitle(input), ExtractSource(input), FixedParse)
  }

  /** The corrected page parser, which never raises. */
  function FixedParse(text: string): Result<Table, string> {
    Success(ParseStandingsFixed(text))
  }

  /** The page parser as written and the corrected one give the same run
      whenever the run as written does not raise `IndexError`. */
  lemma AsWrittenAgreesWithFixed(dispatch: Dispatcher, title: Option<string>, source: Option<string>)
    ensures Pipeline(dispatch, title, source, ParseStandings).outcome != Raised(IndexError) ==>
      Pipeline(dispatch, title, source, ParseStandings) == Pipeline(dispatch, title, source, FixedParse)
  {
    ParsersAgree();
    if title.Some? && source.Some? {
      var create := Call(CreateTool, map["title" := Text(title.value)]);
      var a := Drive(dispatch, [], create, title.value, source.value, ParseStandings);
      if a.outcome != Raised(IndexError) && |a.trace| >= 3 && !HasError(dispatch(2, a.trace[2])) {
        ParseFailureRaises(dispatch, title, source, ParseStandings);
      }
      DriveParsersAgree(dispatch, [], create, title.value, source.value, ParseStandings, FixedParse);
    }
  }

  /** The parser as written either raises `IndexError` or agrees with the
      corrected one. */
  lemma ParsersAgree()
    ensures forall text :: ParseStandings(text).Success? ==> FixedParse(text) == ParseStandings(text)
    ensures forall text :: ParseStandings(text).Failure? ==> ParseStandings(text).error == IndexError
  {
  }

  /** The run as written raises `IndexError` exactly when the fetched page
      has a line of four `|`-separated pieces. */
  lemma AsWrittenRaisesOnFourPartLine(dispatch: Dispatcher, title: Option<string>, source: Option<string>)
    ensures var r := Pipeline(dispatch, title, source, ParseStandings);
      |r.trace| >= 3 && !HasError(dispatch(2, r.trace[2])) ==>
        (r.outcome == Raised(IndexError) <==> HasFourPartLine(dispatch(2, r.trace[2]).text))
  {
    var r := Pipeline(dispatch, title, source, ParseStandings);
    if |r.trace| >= 3 && !HasError(dispatch(2, r.trace[2])) {
      ParseFailureRaises(dispatch, title, source, ParseStandings);
      var page := dispatch(2, r.trace[2]).text;
      assert ParseStandings(page).Failure? ==> ParseStandings(page).error == IndexError;
      assert ParseStandings(page).Failure? <==> HasFourPartLine(page);
      if |r.trace| == 4 {
        var reply := dispatch(3, r.trace[3]);
        if !HasError(reply) {
          assert Next(dispatch, r.trace, 3, title.value, source.value, ParseStandings) == Done(r.outcome);
        }
        assert r.outcome.Returned?;
      }
    }
  }

  /** With the corrected parser, a fetched page is always written: the run
      reaches the update with the corrected table, and it raises only where
      a reply does not decode. */
  lemma FixedAlwaysUpdates(dispatch: Dispatcher, title: Option<string>, source: Option<string>)
    ensures var r := Pipeline(dispatch, title, source, FixedParse);
      |r.trace| >= 3 && !HasError(dispatch(2, r.trace[2])) ==>
        |r.trace| == 4
        && r.trace[3] == UpdateCall(dispatch(0, r.trace[0]).doc,
                                    ParseStandingsFixed(dispatch(2, r.trace[2]).text))
    ensures var r := Pipeline(dispatch, title, source, FixedParse);
      r.outcome.Raised? ==> r.outcome.error == JsonDecodeError || r.outcome.error == AttributeError
  {
    ParseFailureRaises(dispatch, title, source, FixedParse);
    UpdateWritesParsedTable(dispatch, title, source, FixedParse);
    RaisesOnlyOnDecodeOrParse(dispatch, title, source, FixedParse);
  }

  // ---------------------------------------------------------------------
  // main
  // ---------------------------------------------------------------------

  /** The request goes to the spreadsheet pipeline exactly when it mentions
      both words, in any letter case. */
  predicate IsSpreadsheetRequest(input: string) {
    Contains(Lower(input), "spreadsheet") && Contains(Lower(input), "update")
  }

  /** The printed answer: every marker removed, then stripped. */
  function CleanAnswer(response: string): (r: string)
    ensures Trimmed(r)
  {
    Strip(RemoveAll(response, FinalAnswerPrefix))
  }

  /** What `main` prints, or the exception it re-raises. The agent loop is
      not part of this model: its answer is an input. */
  function MainAnswer(input: string, dispatch: Dispatcher, loopAnswer: string): (r: Outcome)
    ensures !IsSpreadsheetRequest(input) ==> r == Returned(CleanAnswer(loopAnswer))
    ensures IsSpreadsheetRequest(input) && ExtractTitle(input).None? ==>
      r == Returned(CleanAnswer(TitleMissing))
    ensures IsSpreadsheetRequest(input) && HandleSpreadsheetUpdate(dispatch, input).outcome.Raised? ==>
      r == HandleSpreadsheetUpdate(dispatch, input).outcome
    ensures IsSpreadsheetRequest(input) && HandleSpreadsheetUpdate(dispatch, input).outcome.Returned? ==>
      r == Returned(CleanAnswer(HandleSpreadsheetUpdate(dispatch, input).outcome.message))
    ensures r.Returned? ==> Trimmed(r.message)
  {
    if IsSpreadsheetRequest(input) then
      match HandleSpreadsheetUpdate(dispatch, input).outcome
      case Returned(m) => Returned(CleanAnswer(m))
      case Raised(e) => Raised(e)
    else Returned(CleanAnswer(loopAnswer))
  }

  /** `main` with the corrected page parser. */
  function MainAnswerFixed(input: string, dispatch: Dispatcher, loopAnswer: string): (r: Outcome)
    ensures !IsSpreadsheetRequest(input) ==> r == Returned(CleanAnswer(loopAnswer))
    ensures IsSpreadsheetRequest(input) && ExtractTitle(input).None? ==>
      r == Returned(CleanAnswer(TitleMissing))
    ensures IsSpreadsheetRequest(input) && HandleSpreadsheetUpdateFixed(dispatch, input).outcome.Raised? ==>
      r == HandleSpreadsheetUpdateFixed(dispatch, input).outcome
    ensures IsSpreadsheetRequest(input) && HandleSpreadsheetUpdateFixed(dispatch, input).outcome.Returned? ==>
      r == Returned(CleanAnswer(HandleSpreadsheetUpdateFixed(dispatch, input).outcome.message))
    ensures r.Returned? ==> Trimmed(r.message)
  {
    if IsSpreadsheetRequest(input) then
      match HandleSpreadsheetUpdateFixed(dispatch, input).outcome
      case Returned(m) => Returned(CleanAnswer(m))
      case Raised(e) => Raised(e)
    else Returned(CleanAnswer(loopAnswer))
  }

  /** A planner answer loses its marker and surrounding spaces when
      printed. */
  lemma CleanFinalAnswer(text: string)
    requires !Contains(text, FinalAnswerPrefix)
    ensures CleanAnswer(FinalAnswerPrefix + text) == Strip(text)
  {
    MarkerThenText(text);
  }

  /** Every marker is removed: an answer holding the marker twice, with
      marker-free text after each, prints as that text joined and
      stripped. */
  lemma CleanAnswerRemovesEveryMarker(a: string, b: string)
    requires !Contains(a, FinalAnswerPrefix) && !Contains(b, FinalAnswerPrefix)
    ensures CleanAnswer(FinalAnswerPrefix + a + FinalAnswerPrefix + b) == Strip(a + b)
  {
    var m := FinalAnswerPrefix;
    MarkerNotBefore(a, b);
    RemoveAllBetween(a, b, m);
    assert m + a + m + b == m + (a + (m + b));
  }

  /** No marker starts inside marker-free text that a marker follows: the
      marker's final `:` occurs nowhere else in it. */
  lemma MarkerNotBefore(a: string, b: string)
    requires !Contains(a, FinalAnswerPrefix)
    ensures forall i :: 0 <= i < |a| ==>
      !StartsWith((a + (FinalAnswerPrefix + b))[i..], FinalAnswerPrefix)
  {
    var m := FinalAnswerPrefix;
    var s := a + (m + b);
    assert forall j :: 0 <= j < |m| - 1 ==> m[j] != ':';
    forall i | 0 <= i < |a|
      ensures !StartsWith(s[i..], m)
    {
      if i <= |a| - |m| {
        assert !OccursAt(a, m, i);
        assert s[i..][..|m|] == a[i..i + |m|];
      } else {
        var k := |a| - i;
        assert s[i..][|m| - 1] == s[i + |m| - 1] == m[|m| - 1 - k];
        assert s[i..][..|m|][|m| - 1] != m[|m| - 1];
      }
    }
  }

  /** The printed answer can still hold the marker: removal is one pass over
      the original text, so a marker split in two by another one reappears.
      `head` and `tail` are the two halves of the marker. */
  lemma CleanAnswerCanKeepMarker(head: string, tail: string)
    requires head == "FINAL_" && tail == "ANSWER:"
    ensures head + tail == FinalAnswerPrefix
    ensures CleanAnswer(head + FinalAnswerPrefix + tail) == FinalAnswerPrefix
  {
    var t := FinalAnswerPrefix + tail;
    assert head + t == head + FinalAnswerPrefix + tail;
    NoMarkerStartsIn(head, t);
    RemoveAllKeepsPrefix(head, t, FinalAnswerPrefix);
    MarkerThenText(tail);
    MarkerTrimmed();
  }

  lemma MarkerTrimmed()
    ensures Strip(FinalAnswerPrefix) == FinalAnswerPrefix
  {
    assert FinalAnswerPrefix[0] == 'F' && FinalAnswerPrefix[|FinalAnswerPrefix| - 1] == ':';
    StripOfTrimmed(FinalAnswerPrefix);
  }

  /** A leading marker is removed and the marker-free text after it kept. */
  lemma MarkerThenText(text: string)
    requires !Contains(text, FinalAnswerPrefix)
    ensures RemoveAll(FinalAnswerPrefix + text, FinalAnswerPrefix) == text
  {
    assert StartsWith(FinalAnswerPrefix + text, FinalAnswerPrefix);
    assert (FinalAnswerPrefix + text)[|FinalAnswerPrefix|..] == text;
    RemoveAllAbsent(text, FinalAnswerPrefix);
  }

  lemma NoMarkerStartsIn(a: string, t: string)
    requires a == "FINAL_" && t == FinalAnswerPrefix + "ANSWER:"
    ensures forall i :: 0 <= i < |a| ==> !StartsWith((a + t)[i..], FinalAnswerPrefix)
  {
    forall i | 0 <= i < |a|
      ensures !StartsWith((a + t)[i..], FinalAnswerPrefix)
    {
      var rest := (a + t)[i..];
      if i == 0 {
        assert rest[6] == t[0] == 'F' && FinalAnswerPrefix[6] == 'A';
        assert rest[..|FinalAnswerPrefix|][6] != FinalAnswerPrefix[6];
      } else {
        assert rest[0] == a[i] != 'F' && FinalAnswerPrefix[0] == 'F';
        assert rest[..|FinalAnswerPrefix|][0] != FinalAnswerPrefix[0];
      }
    }
  }

  /** Routing looks at the lower-cased request, so it cannot tell a request
      from its lower-cased form. */
  lemma RoutingIgnoresCase(input: string)
    ensures IsSpreadsheetRequest(Lower(input)) <==> IsSpreadsheetRequest(input)
  {
    LowerIdempotent(input);
  }

  /** Both keywords, in either order and in any mix of letter case, route a
      request to the spreadsheet pipeline. */
  lemma KeywordsInAnyCaseRoute(a: string, w1: string, b: string, w2: string, c: string)
    requires (Lower(w1) == "spreadsheet" && Lower(w2) == "update")
          || (Lower(w1) == "update" && Lower(w2) == "spreadsheet")
    ensures IsSpreadsheetRequest(a + w1 + b + w2 + c)
  {
    var s := a + w1 + b + w2 + c;
    LowerAppend(a + w1 + b + w2, c);
    LowerAppend(a + w1 + b, w2);
    LowerAppend(a + w1, b);
    LowerAppend(a, w1);
    var l := Lower(s);
    assert l == Lower(a) + Lower(w1) + Lower(b) + Lower(w2) + Lower(c);
    var i, j := |a|, |a| + |w1| + |b|;
    assert l[i..i + |w1|] == Lower(w1);
    assert l[j..j + |w2|] == Lower(w2);
    assert OccursAt(l, Lower(w1), i) && OccursAt(l, Lower(w2), j);
  }

  /** The request holds `word` at `i` in some letter case. */
  predicate SpelledAt(input: string, word: string, i: int) {
    0 <= i <= |input| - |word| && Lower(input[i..i + |word|]) == word
  }

  /** Lower-casing finds a word exactly where the request spells it in some
      letter case. */
  lemma FoundWhereSpelled(input: string, word: string)
    ensures Contains(Lower(input), word) <==> exists i :: SpelledAt(input, word, i)
  {
    if Contains(Lower(input), word) {
      var i :| 0 <= i <= |input| - |word| && OccursAt(Lower(input), word, i);
      LowerSlice(input, i, i + |word|);
      assert SpelledAt(input, word, i);
    }
    if exists i :: SpelledAt(input, word, i) {
      var i :| SpelledAt(input, word, i);
      LowerSlice(input, i, i + |word|);
      assert OccursAt(Lower(input), word, i);
    }
  }

  /** A request is routed to the pipeline exactly when it spells both words,
      each in some letter case. */
  lemma RoutedIffBothSpelled(input: string)
    ensures IsSpreadsheetRequest(input) <==>
      (exists i :: SpelledAt(input, "spreadsheet", i)) && (exists j :: SpelledAt(input, "update", j))
  {
    FoundWhereSpelled(input, "spreadsheet");
    FoundWhereSpelled(input, "update");
  }

  /** `main` re-raises only for a spreadsheet request, and only a reply that
      does not decode or the `IndexError` of the page parser; once a page is
      fetched, it raises `IndexError` exactly when the page has a line of
      four pieces. */
  lemma MainReRaises(input: string, dispatch: Dispatcher, loopAnswer: string)
    ensures var r := MainAnswer(input, dispatch, loopAnswer);
      r.Raised? ==>
        IsSpreadsheetRequest(input)
        && (r.error == JsonDecodeError || r.error == AttributeError || r.error == IndexError)
    ensures var run := Pipeline(dispatch, ExtractTitle(input), ExtractSource(input), ParseStandings);
      IsSpreadsheetRequest(input) && |run.trace| >= 3 && !HasError(dispatch(2, run.trace[2])) ==>
        (MainAnswer(input, dispatch, loopAnswer) == Raised(IndexError)
         <==> HasFourPartLine(dispatch(2, run.trace[2]).text))
  {
    var title, source := ExtractTitle(input), ExtractSource(input);
    var run := Pipeline(dispatch, title, source, ParseStandings);
    assert HandleSpreadsheetUpdate(dispatch, input) == run;
    RaisesOnlyOnDecodeOrParse(dispatch, title, source, ParseStandings);
    AsWrittenRaisesOnFourPartLine(dispatch, title, source);
    if run.outcome.Raised? && |run.trace| == 3 {
      var page := dispatch(2, run.trace[2]).text;
      assert ParseStandings(page).Failure? ==> ParseStandings(page).error == IndexError;
    }
  }

  /** With the corrected parser, `main` re-raises only for a spreadsheet
      request whose reply does not decode. */
  lemma MainFixedRaisesOnlyOnDecode(input: string, dispatch: Dispatcher, loopAnswer: string)
    ensures var r := MainAnswerFixed(input, dispatch, loopAnswer);
      r.Raised? ==>
        IsSpreadsheetRequest(input) && (r.error == JsonDecodeError || r.error == AttributeError)
  {
    FixedAlwaysUpdates(dispatch, ExtractTitle(input), ExtractSource(input));
  }

  /** `main` as written and with the corrected parser print the same answer
      unless the one as written re-raises `IndexError`. */
  lemma MainAnswersAgree(input: string, dispatch: Dispatcher, loopAnswer: string)
    ensures MainAnswer(input, dispatch, loopAnswer) != Raised(IndexError) ==>
      MainAnswer(input, dispatch, loopAnswer) == MainAnswerFixed(input, dispatch, loopAnswer)
  {
    var title, source := ExtractTitle(input), ExtractSource(input);
    assert HandleSpreadsheetUpdate(dispatch, input) == Pipeline(dispatch, title, source, ParseStandings);
    assert HandleSpreadsheetUpdateFixed(dispatch, input) == Pipeline(dispatch, title, source, FixedParse);
    AsWrittenAgreesWithFixed(dispatch, title, source);
  }
}
