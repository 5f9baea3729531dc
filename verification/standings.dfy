/** The standings-table parser of `handle_spreadsheet_update` in agent.py,
    which turns the text of an extracted web page into the rows written to
    the sheet, and the A1-notation range those rows occupy. */
module Standings {
  import opened Wrappers
  import opened Text

  type Row = seq<string>
  type Table = seq<Row>

  const Header: Row := ["Driver Name", "Team", "Points"]

  /** What Python raises when the parser reads `parts[4]` of a four-part
      line. */
  const IndexError: string := "IndexError: list index out of range"

  predicate IsUpper(c: char) {
    'A' <= c <= 'Z'
  }

  predicate AllUpper(s: string) {
    forall i :: 0 <= i < |s| ==> IsUpper(s[i])
  }

  /** `re.sub(r'[A-Z]{3}$', '', s)`: three capitals at the very end are
      removed, where `$` also matches just before a final line feed. */
  function DropDriverCode(s: string): (r: string)
    ensures |s| >= 3 && s[|s| - 1] != '\n' && AllUpper(s[|s| - 3..]) ==> r == s[..|s| - 3]
    ensures (|s| < 3 || !AllUpper(s[|s| - 3..])) && (|s| == 0 || s[|s| - 1] != '\n') ==> r == s
    ensures |s| >= 4 && s[|s| - 1] == '\n' && AllUpper(s[|s| - 4..|s| - 1]) ==> r == s[..|s| - 4] + "\n"
    ensures |s| >= 1 && s[|s| - 1] == '\n' && (|s| < 4 || !AllUpper(s[|s| - 4..|s| - 1])) ==> r == s
  {
    var n := |s|;
    if n >= 4 && s[n - 1] == '\n' && AllUpper(s[n - 4..n - 1]) then s[..n - 4] + "\n"
    else if n >= 3 && AllUpper(s[n - 3..]) then s[..n - 3]
    else s
  }

  /** The driver cell: the stripped cell without its trailing three-letter
      driver code, stripped again. */
  function DriverName(cell: string): (r: string)
    ensures Trimmed(r)
  {
    Strip(DropDriverCode(Strip(cell)))
  }

  /** The code removal never sees the line-feed case: the driver name is the
      stripped cell with one final run of three capitals cut off, stripped
      again. */
  lemma DriverNameDropsCode(cell: string)
    ensures var info := Strip(cell);
      DriverName(cell)
        == Strip(if |info| >= 3 && AllUpper(info[|info| - 3..]) then info[..|info| - 3] else info)
  {
    var info := Strip(cell);
    if |info| > 0 {
      assert !IsSpace(info[|info| - 1]);
      assert info[|info| - 1] != '\n';
    }
  }

  /** The `|`-separated pieces of a line. */
  function Parts(line: string): seq<string> {
    Split(line, '|')
  }

  /** The line reaches `parts[4]` without having a fifth piece. */
  predicate HasFourParts(line: string) {
    |Parts(line)| == 4
  }

  /** A line that yields a row: at least five pieces. */
  predicate IsRowLine(line: string) {
    |Parts(line)| >= 5
  }

  /** The row built from a line: driver from piece 1, team from piece 3,
      points from piece 4. */
  function RowOf(line: string): (row: Row)
    requires IsRowLine(line)
    ensures |row| == 3
    ensures row[0] == DriverName(Parts(line)[1])
    ensures row[1] == Strip(Parts(line)[3]) && row[2] == Strip(Parts(line)[4])
  {
    var parts := Parts(line);
    [DriverName(parts[1]), Strip(parts[3]), Strip(parts[4])]
  }

  /** One pass of the row loop as written: the guard admits four-part
      lines, whose read of `parts[4]` raises. */
  function LineStep(line: string): (r: Result<seq<Row>, string>)
    ensures r.Failure? <==> HasFourParts(line)
    ensures r.Failure? ==> r.error == IndexError
    ensures r.Success? ==> r.value == LineRows(line)
  {
    if '|' in line && |Parts(line)| >= 4 then
      if |Parts(line)| < 5 then Failure(IndexError) else Success([RowOf(line)])
    else
      assert !HasFourParts(line) by {
        if '|' !in line {
          SplitCount(line, '|');
          NoOccurrenceCountsZero(line, '|');
        }
      }
      Success([])
  }

  /** The row loop as written: the rows of every line, or the error of the
      first four-part line. */
  function ParseRows(lines: seq<string>): (r: Result<seq<Row>, string>)
    ensures r.Failure? <==> exists k :: 0 <= k < |lines| && HasFourParts(lines[k])
    ensures r.Failure? ==> r.error == IndexError
    ensures r.Success? ==> r.value == ParseRowsFixed(lines)
  {
    if |lines| == 0 then Success([])
    else
      var rest := ParseRows(lines[1..]);
      assert forall k :: 0 <= k < |lines| - 1 ==> lines[1..][k] == lines[k + 1];
      match LineStep(lines[0])
      case Failure(e) => Failure(e)
      case Success(rows) =>
        match rest
        case Success(more) => Success(rows + more)
        case Failure(e) => Failure(e)
  }

  lemma {:induction false} NoOccurrenceCountsZero(s: string, c: char)
    requires c !in s
    ensures Count(s, c) == 0
    decreases |s|
  {
    if |s| > 0 {
      assert c !in s[1..];
      NoOccurrenceCountsZero(s[1..], c);
    }
  }

  /** The row loop with the guard the indexing needs: lines of fewer than
      five pieces are skipped. */
  function ParseRowsFixed(lines: seq<string>): (rows: seq<Row>)
    ensures forall k :: 0 <= k < |rows| ==> |rows[k]| == 3
  {
    if |lines| == 0 then [] else LineRows(lines[0]) + ParseRowsFixed(lines[1..])
  }

  /** The rows one line contributes under the corrected guard. */
  function LineRows(line: string): (rows: seq<Row>)
    ensures |rows| <= 1 && forall k :: 0 <= k < |rows| ==> |rows[k]| == 3
  {
    if '|' in line && IsRowLine(line) then [RowOf(line)] else []
  }

  /** Some line of the text has exactly four pieces. */
  predicate HasFourPartLine(text: string) {
    exists k :: 0 <= k < |Split(text, '\n')| && HasFourParts(Split(text, '\n')[k])
  }

  /** The table as written: the header, then one row per row line, or the
      error raised by the first four-part line. */
  function ParseStandings(text: string): (r: Result<Table, string>)
    ensures r.Success? ==> |r.value| >= 1 && r.value[0] == Header
    ensures r.Success? ==> forall k :: 0 <= k < |r.value| ==> |r.value[k]| == 3
    ensures r.Failure? <==> HasFourPartLine(text)
    ensures r.Failure? ==> r.error == IndexError
    ensures r.Success? ==> r == Success(ParseStandingsFixed(text))
  {
    match ParseRows(Split(text, '\n'))
    case Success(rows) => Success([Header] + rows)
    case Failure(e) => Failure(e)
  }

  /** The table with the corrected guard. */
  function ParseStandingsFixed(text: string): (t: Table)
    ensures |t| >= 1 && t[0] == Header
    ensures forall k :: 0 <= k < |t| ==> |t[k]| == 3
    ensures t[1..] == ParseRowsFixed(Split(text, '\n'))
  {
    [Header] + ParseRowsFixed(Split(text, '\n'))
  }

  /** The corrected parser works line by line: the rows of a text are the
      rows of its first lines followed by the rows of the remaining ones. */
  lemma {:induction false} ParseRowsFixedAppend(a: seq<string>, b: seq<string>)
    ensures ParseRowsFixed(a + b) == ParseRowsFixed(a) + ParseRowsFixed(b)
    decreases |a|
  {
    if |a| == 0 {
      assert a + b == b;
    } else {
      assert (a + b)[1..] == a[1..] + b;
      ParseRowsFixedAppend(a[1..], b);
    }
  }

  /** One line contributes exactly one row when it has at least five pieces
      and nothing otherwise; in particular a line without `|` contributes
      nothing. */
  lemma ParseRowsFixedLine(line: string)
    ensures ParseRowsFixed([line]) == if IsRowLine(line) then [RowOf(line)] else []
    ensures '|' !in line ==> ParseRowsFixed([line]) == []
  {
    assert [line][1..] == [];
    if '|' !in line {
      SplitCount(line, '|');
      NoOccurrenceCountsZero(line, '|');
    } else if IsRowLine(line) {
      assert '|' in line;
    }
  }

  /** A line with exactly three bars passes the guard and makes the parse
      as written fail, wherever it stands in the text. */
  lemma ThreeBarsFail(lines: seq<string>, k: int)
    requires 0 <= k < |lines| && Count(lines[k], '|') == 3
    ensures ParseRows(lines) == Failure(IndexError)
  {
    SplitCount(lines[k], '|');
    assert HasFourParts(lines[k]);
  }

  /** A concrete page line on which the parse as written raises: three bars,
      four pieces. */
  lemma FourPartLineRaises(a: string, b: string, c: string, d: string)
    requires '|' !in a && '|' !in b && '|' !in c && '|' !in d && '\n' !in a + b + c + d
    ensures ParseStandings(a + "|" + b + "|" + c + "|" + d) == Failure(IndexError)
    ensures ParseStandingsFixed(a + "|" + b + "|" + c + "|" + d) == [Header]
  {
    var line := a + "|" + b + "|" + c + "|" + d;
    assert Join([a, b, c, d], "|") == line by {
      assert [a, b, c, d][1..] == [b, c, d];
      assert [b, c, d][1..] == [c, d];
      assert [c, d][1..] == [d];
      assert Join([c, d], "|") == c + "|" + d;
      assert Join([b, c, d], "|") == b + "|" + (c + "|" + d);
      assert Join([a, b, c, d], "|") == a + "|" + (b + "|" + (c + "|" + d));
    }
    SplitOfJoin([a, b, c, d], '|');
    assert Parts(line) == [a, b, c, d];
    assert '\n' !in line by {
      assert forall i :: 0 <= i < |line| ==> line[i] in a + b + c + d || line[i] == '|';
    }
    SplitOfPiece(line, '\n', "");
    assert HasFourParts(Split(line, '\n')[0]);
    ParseRowsFixedLine(line);
  }

  /** A table header written without outer bars is such a line. */
  lemma BareHeaderLineRaises()
    ensures ParseStandings("Pos | Driver | Team | PTS") == Failure(IndexError)
  {
    var a, b, c, d := "Pos ", " Driver ", " Team ", " PTS";
    assert "Pos | Driver | Team | PTS" == a + "|" + b + "|" + c + "|" + d;
    FourPartLineRaises(a, b, c, d);
  }

  /** The range written by the update: columns A to C, one sheet row per
      table row, header included. */
  function RangeName(rows: nat): (r: string)
    ensures StartsWith(r, "A1:C")
    ensures AllDigits(r[4..]) && DigitsValue(r[4..]) == rows
  {
    var r := "A1:C" + NatToString(rows);
    assert r[4..] == NatToString(rows);
    r
  }
}
