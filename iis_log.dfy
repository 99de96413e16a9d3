/** `parse_iis_log`: the text of a W3C extended log file, as IIS writes it,
    becomes a table of records. The first `#Fields:` directive names the
    columns; every other line that does not begin with `#` is a data line
    whose space-separated tokens are bound to those names by position; twelve
    output columns are then read from the bound names. */
module IisLog {
  import opened Results
  import opened PyStr

  /** The prefix that marks the header line. */
  const FieldsDirective: string := "#Fields:"

  /** The text deleted from the header line before it is split into names. */
  const FieldsPrefix: string := "#Fields: "

  /** The names read from a bound data line, in the order they are read. */
  const RequiredColumns: seq<string> := [
    "date", "time", "s-computername", "cs-method", "cs(User-Agent)", "cs(Referer)",
    "cs-host", "sc-status", "time-taken", "_RequestID", "True-Client-IP", "_X-SessionID"]

  /** The columns of the result, in order. */
  const OutputColumns: seq<string> := [
    "datetime", "s-computername", "cs-method", "cs(User-Agent)", "cs(Referer)",
    "cs-host", "sc-status", "time-taken", "_RequestID", "True-Client-IP", "_X-SessionID",
    "Account"]

  /** One row of the result; every value is kept as the text of its token. */
  datatype Record = Record(
    datetime: string,
    computerName: string,
    httpMethod: string,
    userAgent: string,
    referer: string,
    host: string,
    status: string,
    timeTaken: string,
    requestId: string,
    clientIp: string,
    sessionId: string,
    account: Option<string>)

  /** Why parsing fails: no header (an `IndexError`), repeated names in the
      header (refused by `read_csv`), a data line with a token count other
      than the number of names, or a required name the header lacks (a
      `KeyError` for the first one read). */
  datatype ParseError =
    | MissingFieldsHeader
    | DuplicateFieldNames
    | RowShapeMismatch(row: nat, expected: nat, found: nat)
    | MissingColumn(name: string)

  /** The cells of a record under `OutputColumns`; `None` is an empty cell. */
  function Cells(r: Record): (cells: seq<Option<string>>)
    ensures |cells| == |OutputColumns|
  {
    [Some(r.datetime), Some(r.computerName), Some(r.httpMethod), Some(r.userAgent),
     Some(r.referer), Some(r.host), Some(r.status), Some(r.timeTaken),
     Some(r.requestId), Some(r.clientIp), Some(r.sessionId), r.account]
  }

  // ------------------------------------------------------------ lines

  /** The lines of the trimmed text. */
  function Lines(text: string): (lines: seq<string>)
    ensures |lines| >= 1
    ensures forall k :: 0 <= k < |lines| ==> '\n' !in lines[k]
    ensures JoinWith(lines, "\n") == Strip(text)
  {
    JoinSplitOn(Strip(text), '\n');
    SplitOn(Strip(text), '\n')
  }

  /** The position of the first line that begins with `#Fields:`. */
  function FindHeader(lines: seq<string>): (i: Option<nat>)
    ensures i.Some? ==> i.value < |lines| && StartsWith(lines[i.value], FieldsDirective)
    ensures i.Some? ==> forall j :: 0 <= j < i.value ==> !StartsWith(lines[j], FieldsDirective)
    ensures i.None? <==> forall j :: 0 <= j < |lines| ==> !StartsWith(lines[j], FieldsDirective)
  {
    if lines == [] then None
    else if StartsWith(lines[0], FieldsDirective) then Some(0)
    else
      match FindHeader(lines[1..])
      case None => None
      case Some(k) => Some(k + 1)
  }

  /** The column names of a header line: the line with every `#Fields: `
      deleted, split at whitespace. */
  function HeaderFields(line: string): (names: seq<string>)
    ensures forall k :: 0 <= k < |names| ==> names[k] != [] && NoSpace(names[k])
  {
    Words(RemoveAll(line, FieldsPrefix))
  }

  predicate IsDataLine(line: string) {
    !StartsWith(line, "#")
  }

  /** The lines that do not begin with `#`, in order. */
  function DataLines(lines: seq<string>): (data: seq<string>)
    ensures |data| <= |lines|
    ensures forall k :: 0 <= k < |data| ==> IsDataLine(data[k])
    ensures forall k :: 0 <= k < |lines| && IsDataLine(lines[k]) ==> lines[k] in data
    ensures forall k :: 0 <= k < |data| ==> data[k] in lines
  {
    if lines == [] then []
    else (if IsDataLine(lines[0]) then [lines[0]] else []) + DataLines(lines[1..])
  }

  /** What `read_csv` makes of the data lines: blank lines are skipped and
      every other line is cut at each single space. */
  function ReadRows(data: seq<string>): (rows: seq<seq<string>>)
    ensures |rows| <= |data|
  {
    if data == [] then []
    else (if data[0] == "" then [] else [SplitOn(data[0], ' ')]) + ReadRows(data[1..])
  }

  /** No token holds the separator it was cut at. */
  lemma {:induction false} ReadRowsNoSeparator(data: seq<string>)
    ensures forall k, j :: 0 <= k < |ReadRows(data)| && 0 <= j < |ReadRows(data)[k]| ==> ' ' !in ReadRows(data)[k][j]
    decreases |data|
  {
    if data != [] {
      ReadRowsNoSeparator(data[1..]);
    }
  }

  /** The token rows of a sequence of lines: no token holds the separator. */
  function TableRows(lines: seq<string>): (rows: seq<seq<string>>)
    ensures |rows| <= |lines|
    ensures forall k, j :: 0 <= k < |rows| && 0 <= j < |rows[k]| ==> ' ' !in rows[k][j]
  {
    ReadRowsNoSeparator(DataLines(lines));
    ReadRows(DataLines(lines))
  }

  lemma {:induction false} DataLinesConcat(a: seq<string>, b: seq<string>)
    ensures DataLines(a + b) == DataLines(a) + DataLines(b)
    decreases |a|
  {
    if a != [] {
      assert (a + b)[1..] == a[1..] + b;
      DataLinesConcat(a[1..], b);
    } else {
      assert a + b == b;
    }
  }

  lemma {:induction false} ReadRowsConcat(a: seq<string>, b: seq<string>)
    ensures ReadRows(a + b) == ReadRows(a) + ReadRows(b)
    decreases |a|
  {
    if a != [] {
      assert (a + b)[1..] == a[1..] + b;
      ReadRowsConcat(a[1..], b);
    } else {
      assert a + b == b;
    }
  }

  /** A character no data line holds is in no token. */
  lemma {:induction false} ReadRowsAvoid(data: seq<string>, x: char)
    requires forall k :: 0 <= k < |data| ==> x !in data[k]
    ensures forall k, j :: 0 <= k < |ReadRows(data)| && 0 <= j < |ReadRows(data)[k]| ==> x !in ReadRows(data)[k][j]
    decreases |data|
  {
    if data != [] {
      SplitOnAvoids(data[0], ' ', x);
      assert forall k :: 0 <= k < |data[1..]| ==> data[1..][k] == data[k + 1];
      ReadRowsAvoid(data[1..], x);
    }
  }

  /** A character no line holds is in no token. */
  lemma TableRowsAvoid(lines: seq<string>, x: char)
    requires forall k :: 0 <= k < |lines| ==> x !in lines[k]
    ensures forall k, j :: 0 <= k < |TableRows(lines)| && 0 <= j < |TableRows(lines)[k]| ==> x !in TableRows(lines)[k][j]
  {
    var data := DataLines(lines);
    forall k | 0 <= k < |data| ensures x !in data[k] {
      var i :| 0 <= i < |lines| && lines[i] == data[k];
    }
    ReadRowsAvoid(data, x);
  }

  /** The rows of concatenated lines are the rows of each part, in order. */
  lemma TableRowsConcat(a: seq<string>, b: seq<string>)
    ensures TableRows(a + b) == TableRows(a) + TableRows(b)
  {
    DataLinesConcat(a, b);
    ReadRowsConcat(DataLines(a), DataLines(b));
  }

  /** A line contributes exactly one row, its tokens, when it is not blank and
      does not begin with `#`, and no row otherwise; the rows of the lines
      around it keep their order on either side of it. */
  lemma OneRowPerDataLine(before: seq<string>, line: string, after: seq<string>)
    ensures TableRows(before + [line] + after)
         == TableRows(before)
          + (if IsDataLine(line) && line != "" then [SplitOn(line, ' ')] else [])
          + TableRows(after)
  {
    TableRowsConcat(before + [line], after);
    TableRowsConcat(before, [line]);
    TableRowsOfLine(line);
  }

  lemma TableRowsOfLine(line: string)
    ensures TableRows([line]) == if IsDataLine(line) && line != "" then [SplitOn(line, ' ')] else []
  {
    assert [line][1..] == [];
    assert DataLines([line]) == (if IsDataLine(line) then [line] else []);
  }

  // ------------------------------------------------------------ binding

  predicate Distinct(fields: seq<string>) {
    forall i, j :: 0 <= i < j < |fields| ==> fields[i] != fields[j]
  }

  predicate WellShaped(fields: seq<string>, rows: seq<seq<string>>) {
    forall k :: 0 <= k < |rows| ==> |rows[k]| == |fields|
  }

  predicate HasRequired(fields: seq<string>) {
    forall k :: 0 <= k < |RequiredColumns| ==> RequiredColumns[k] in fields
  }

  /** The tokens of a data line bound by position to the column names. */
  function Bind(fields: seq<string>, tokens: seq<string>): (row: map<string, string>)
    requires Distinct(fields) && |tokens| == |fields|
    ensures row.Keys == set f | f in fields
    ensures forall i :: 0 <= i < |fields| ==> row[fields[i]] == tokens[i]
  {
    map i | 0 <= i < |fields| :: fields[i] := tokens[i]
  }

  /** `re.search(r"@(.+)$", s)` succeeds at position `i`: an `@` there, then
      one or more characters other than a line break up to the end. */
  predicate AccountMatchAt(s: string, i: nat)
    requires i < |s|
  {
    s[i] == '@' && i + 1 < |s| && forall j :: i < j < |s| ==> s[j] != '\n'
  }

  /** The search tries the positions from `from` on, leftmost first, and
      yields the first group of the first match. */
  function AccountSearch(s: string, from: nat): Option<string>
    requires from <= |s|
    decreases |s| - from
  {
    if from == |s| then None
    else if AccountMatchAt(s, from) then Some(s[from + 1..])
    else AccountSearch(s, from + 1)
  }

  /** The search yields the leftmost match from `from` on, or none when no
      position from there matches. */
  lemma {:induction false} AccountSearchLeftmost(s: string, from: nat)
    requires from <= |s|
    ensures var r := AccountSearch(s, from);
            && (r.None? <==> forall j :: from <= j < |s| ==> !AccountMatchAt(s, j))
            && (r.Some? ==>
                  exists i :: from <= i < |s| && AccountMatchAt(s, i) && r.value == s[i + 1..]
                    && forall j :: from <= j < i ==> !AccountMatchAt(s, j))
    decreases |s| - from
  {
    if from < |s| && !AccountMatchAt(s, from) {
      AccountSearchLeftmost(s, from + 1);
    }
  }

  /** `str.extract(r"@(.+)$")` on one request id: the group of the leftmost
      match, the whole rest of the id after that `@`; `None` when nothing
      matches. */
  function Account(requestId: string): (r: Option<string>)
    ensures r.None? <==> forall j :: 0 <= j < |requestId| ==> !AccountMatchAt(requestId, j)
    ensures r.Some? ==>
              exists i :: 0 <= i < |requestId| && AccountMatchAt(requestId, i) && r.value == requestId[i + 1..]
                && forall j :: 0 <= j < i ==> !AccountMatchAt(requestId, j)
  {
    AccountSearchLeftmost(requestId, 0);
    AccountSearch(requestId, 0)
  }

  /** One record from a bound data line. */
  function Project(row: map<string, string>): (r: Record)
    requires forall k :: 0 <= k < |RequiredColumns| ==> RequiredColumns[k] in row
    ensures "date" in row && "time" in row && "_RequestID" in row
    ensures Cells(r)[0] == Some(row["date"] + " " + row["time"])
    ensures forall j :: 1 <= j < |OutputColumns| - 1 ==>
              OutputColumns[j] in row && Cells(r)[j] == Some(row[OutputColumns[j]])
    ensures Cells(r)[|OutputColumns| - 1] == Account(row["_RequestID"])
  {
    assert forall j :: 1 <= j < |OutputColumns| - 1 ==> OutputColumns[j] == RequiredColumns[j + 1];
    assert RequiredColumns[0] in row && RequiredColumns[1] in row && RequiredColumns[2] in row;
    assert RequiredColumns[3] in row && RequiredColumns[4] in row && RequiredColumns[5] in row;
    assert RequiredColumns[6] in row && RequiredColumns[7] in row && RequiredColumns[8] in row;
    assert RequiredColumns[9] in row && RequiredColumns[10] in row && RequiredColumns[11] in row;
    Record(
      row["date"] + " " + row["time"],
      row["s-computername"],
      row["cs-method"],
      row["cs(User-Agent)"],
      row["cs(Referer)"],
      row["cs-host"],
      row["sc-status"],
      row["time-taken"],
      row["_RequestID"],
      row["True-Client-IP"],
      row["_X-SessionID"],
      Account(row["_RequestID"]))
  }

  /** The records of well-shaped rows under a header that names every
      required column once. */
  function ProjectRows(fields: seq<string>, rows: seq<seq<string>>): (recs: seq<Record>)
    requires Distinct(fields) && WellShaped(fields, rows) && HasRequired(fields)
    ensures |recs| == |rows|
  {
    seq(|rows|, k requires 0 <= k < |rows| => Project(Bind(fields, rows[k])))
  }

  /** The position of the first row whose token count is not `n`. */
  function FirstMisshapen(n: nat, rows: seq<seq<string>>): (k: Option<nat>)
    ensures k.Some? ==> k.value < |rows| && |rows[k.value]| != n
    ensures k.Some? ==> forall j :: 0 <= j < k.value ==> |rows[j]| == n
    ensures k.None? <==> forall j :: 0 <= j < |rows| ==> |rows[j]| == n
  {
    if rows == [] then None
    else if |rows[0]| != n then Some(0)
    else
      match FirstMisshapen(n, rows[1..])
      case None => None
      case Some(j) => Some(j + 1)
  }

  /** The position in `names` of the first one that `fields` lacks. */
  function FirstMissing(names: seq<string>, fields: seq<string>): (k: Option<nat>)
    ensures k.Some? ==> k.value < |names| && names[k.value] !in fields
    ensures k.Some? ==> forall j :: 0 <= j < k.value ==> names[j] in fields
    ensures k.None? <==> forall j :: 0 <= j < |names| ==> names[j] in fields
  {
    if names == [] then None
    else if names[0] !in fields then Some(0)
    else
      match FirstMissing(names[1..], fields)
      case None => None
      case Some(j) => Some(j + 1)
  }

  /** The table of token rows under the column names: `read_csv` followed by
      the column selection, failing where `parse_iis_log` raises. */
  function ParseTable(fields: seq<string>, rows: seq<seq<string>>): (r: Result<seq<Record>, ParseError>)
    ensures r.Ok? <==> Distinct(fields) && WellShaped(fields, rows) && HasRequired(fields)
    ensures r.Ok? ==> |r.value| == |rows|
    ensures r == Err(DuplicateFieldNames) <==> !Distinct(fields)
    ensures r.Err? && r.error.RowShapeMismatch? ==>
              && Distinct(fields)
              && r.error.row < |rows|
              && r.error.expected == |fields|
              && r.error.found == |rows[r.error.row]| != |fields|
              && forall j :: 0 <= j < r.error.row ==> |rows[j]| == |fields|
    ensures r.Err? && r.error.MissingColumn? ==>
              && Distinct(fields) && WellShaped(fields, rows)
              && exists k :: 0 <= k < |RequiredColumns| && RequiredColumns[k] == r.error.name
                   && r.error.name !in fields
                   && forall j :: 0 <= j < k ==> RequiredColumns[j] in fields
    ensures r != Err(MissingFieldsHeader)
  {
    if !Distinct(fields) then Err(DuplicateFieldNames)
    else
      match FirstMisshapen(|fields|, rows)
      case Some(k) => Err(RowShapeMismatch(k, |fields|, |rows[k]|))
      case None =>
        match FirstMissing(RequiredColumns, fields)
        case Some(k) => Err(MissingColumn(RequiredColumns[k]))
        case None => Ok(ProjectRows(fields, rows))
  }

  // ------------------------------------------------------------ parse_iis_log

  /** The parse of the lines of a log. */
  function ParseLines(lines: seq<string>): (r: Result<seq<Record>, ParseError>)
    ensures r == Err(MissingFieldsHeader) <==>
              forall j :: 0 <= j < |lines| ==> !StartsWith(lines[j], FieldsDirective)
    ensures r.Ok? ==> |r.value| == |TableRows(lines)|
  {
    match FindHeader(lines)
    case None => Err(MissingFieldsHeader)
    case Some(i) => ParseTable(HeaderFields(lines[i]), TableRows(lines))
  }

  /** `parse_iis_log(log_text)`. */
  function ParseIisLog(text: string): (r: Result<seq<Record>, ParseError>)
    ensures r == Err(MissingFieldsHeader) <==>
              forall j :: 0 <= j < |Lines(text)| ==> !StartsWith(Lines(text)[j], FieldsDirective)
    ensures r.Ok? ==> |r.value| == |TableRows(Lines(text))|
  {
    ParseLines(Lines(text))
  }
}
