/**
 * The tabular extraction rules of `AbstractJdbcTask`: how the CSV header is
 * chosen, how the write mode selects whether the header record is written,
 * how each value of a result row becomes a CSV cell, the cursor loop that
 * writes one record per row while counting rows, and the order in which
 * `doSelect` acquires and releases the statement and the result set.
 *
 * The JDBC driver is abstracted: a result set is a list of column labels and
 * a list of rows of tagged values, and the CSV sink is a list of records, each
 * a list of cells.
 */
module JdbcTask {
  import opened Wrappers
  import opened Text
  import Base64

  /** A value returned by `ResultSet.getObject`, tagged by the runtime class that decides how it is written. */
  datatype Value =
    | Null
    | Bytes(data: seq<Base64.byte>)
      /** A `Clob`, by the full text of its ASCII stream. */
    | ClobValue(text: string)
      /** Any other object, by the result of its `toString`; `None` when that returns null. */
    | Other(rendering: Option<string>)

  /** The column labels of the metadata and the rows the cursor yields. */
  datatype ResultSet = ResultSet(labels: seq<string>, rows: seq<seq<Value>>)
  {
    function ColumnCount(): nat { |labels| }

    /** JDBC gives every row exactly one value per column. */
    predicate WellFormed()
    {
      forall i :: 0 <= i < |rows| ==> |rows[i]| == |labels|
    }
  }

  /** What `CSVPrinter.print` receives: `print(null)` or `print(s)`. */
  datatype Cell = NullCell | TextCell(text: string)

  datatype WriteMode = CreateTruncate | AppendExisting | OtherMode(name: string)

  /** The parts of `CSVFormat` the task sets: the header and whether the header record is skipped. */
  datatype CsvFormat = CsvFormat(header: seq<string>, skipHeaderRecord: bool)

  datatype FormatError =
      /** The `SQLException` wrapping a usage exception with a message and details. */
    | ColumnCountMismatch(message: string, details: seq<string>)
      /** The `UnsupportedOperationException` for a write mode other than the two known ones. */
    | UnsupportedWriteMode(message: string)

  /**
   * The task's header settings: the constant names of its header enum class,
   * and its header transformer, which computes a header from the result set.
   */
  datatype HeaderConfig = HeaderConfig(
    headerClass: Option<seq<string>>,
    headerTransformer: Option<ResultSet -> seq<string>>)

  const MismatchPrefix := "Fatal Error. ResultSet does not have the expected column count: "
  const MismatchHint := "If a custom query has been specified please confirm the selected columns match the following: "
  const UnsupportedModePrefix := "Unsupported write mode: "

  /** The error for a header class whose constants `names` do not match the column count. */
  function MismatchError(names: seq<string>): FormatError
  {
    ColumnCountMismatch(MismatchPrefix + NatToString(|names|), [MismatchHint, Join(names, ", ")])
  }

  predicate HeaderClassMatches(config: HeaderConfig, rs: ResultSet)
  {
    config.headerClass.None? || |config.headerClass.value| == rs.ColumnCount()
  }

  /**
   * `newCsvFormat`: the header comes from the header class if one is set,
   * else from the header transformer if one is set, else from the column
   * labels. A header class whose size differs from the column count fails
   * before the write mode is looked at. `CREATE_TRUNCATE` keeps the header
   * record, `APPEND_EXISTING` skips it, and any other mode fails.
   */
  function NewCsvFormat(config: HeaderConfig, mode: WriteMode, rs: ResultSet): (r: Result<CsvFormat, FormatError>)
    ensures !HeaderClassMatches(config, rs) ==> r == Err(MismatchError(config.headerClass.value))
    ensures HeaderClassMatches(config, rs) && mode.OtherMode? ==>
              r == Err(UnsupportedWriteMode(UnsupportedModePrefix + mode.name))
    ensures r.Ok? <==> HeaderClassMatches(config, rs) && !mode.OtherMode?
    ensures r.Ok? ==> (r.value.skipHeaderRecord <==> mode.AppendExisting?)
    ensures r.Ok? && config.headerClass.Some? ==> r.value.header == config.headerClass.value
    ensures r.Ok? && config.headerClass.None? && config.headerTransformer.Some? ==>
              r.value.header == config.headerTransformer.value(rs)
    ensures r.Ok? && config.headerClass.None? && config.headerTransformer.None? ==>
              r.value.header == rs.labels
  {
    if !HeaderClassMatches(config, rs) then
      Err(MismatchError(config.headerClass.value))
    else
      var header :=
        match config.headerClass
        case Some(names) => names
        case None =>
          match config.headerTransformer
          case Some(transform) => transform(rs)
          case None => rs.labels;
      match mode
      case CreateTruncate => Ok(CsvFormat(header, false))
      case AppendExisting => Ok(CsvFormat(header, true))
      case OtherMode(name) => Err(UnsupportedWriteMode(UnsupportedModePrefix + name))
  }

  /**
   * The mismatch error reports the declared count, which can be read back
   * from the message, and lists the declared names.
   */
  lemma MismatchReportsDeclaredCount(names: seq<string>)
    ensures MismatchError(names).message[..|MismatchPrefix|] == MismatchPrefix
    ensures ParseDecimal(MismatchError(names).message[|MismatchPrefix|..]) == |names|
    ensures MismatchError(names).details == [MismatchHint, Join(names, ", ")]
  {
    var m := MismatchError(names).message;
    assert m[|MismatchPrefix|..] == NatToString(|names|);
    DecimalRoundTrip(|names|);
  }

  /** The actual column count does not appear in the error: any two mismatching result sets give the same one. */
  lemma MismatchIgnoresActualCount(config: HeaderConfig, mode: WriteMode, rs1: ResultSet, rs2: ResultSet)
    requires !HeaderClassMatches(config, rs1) && !HeaderClassMatches(config, rs2)
    ensures NewCsvFormat(config, mode, rs1) == NewCsvFormat(config, mode, rs2)
  {
  }

  /**
   * `fromByteBufferOrClob`: a byte array becomes its padded Base64 text, a
   * Clob its full text, and anything else is not recognised.
   */
  function FromByteBufferOrClob(v: Value): (r: Option<string>)
    ensures r.Some? <==> v.Bytes? || v.ClobValue?
    ensures v.Bytes? ==> |r.value| == 4 * ((|v.data| + 2) / 3) && Base64.Decode(r.value) == Some(v.data)
    ensures v.ClobValue? ==> r.value == v.text
  {
    match v
    case Bytes(data) => Base64.RoundTrip(data); Some(Base64.Encode(data))
    case ClobValue(text) => Some(text)
    case _ => None
  }

  /** The one value for which the loop logs a warning: an object whose `toString` is null. */
  predicate Warns(v: Value)
  {
    v.Other? && v.rendering.None?
  }

  /**
   * The cell written for a value, by the first rule that applies: null is an
   * empty field, a recognised byte array or Clob is its text, an object whose
   * `toString` is null is an empty field, any other object is its `toString`.
   */
  function CellFor(v: Value): (c: Cell)
    ensures c.NullCell? <==> v.Null? || Warns(v)
    ensures v.Bytes? ==> c.TextCell? && Base64.Decode(c.text) == Some(v.data)
    ensures v.ClobValue? ==> c == TextCell(v.text)
    ensures v.Other? && v.rendering.Some? ==> c == TextCell(v.rendering.value)
  {
    var candidate := FromByteBufferOrClob(v);
    if candidate.Some? then TextCell(candidate.value)
    else if v.Null? then NullCell
    else if v.rendering.None? then NullCell
    else TextCell(v.rendering.value)
  }

  /** A byte array is written as exactly the text `Base64.getEncoder()` gives for it. */
  lemma ByteCellIsEncoding(v: Value)
    requires v.Bytes?
    ensures CellFor(v) == TextCell(Base64.Encode(v.data))
  {
    Base64.DecodeCanonical(CellFor(v).text, v.data);
  }

  /** The cells of one row, in column order. */
  function RenderRow(row: seq<Value>): seq<Cell>
  {
    seq(|row|, j requires 0 <= j < |row| => CellFor(row[j]))
  }

  /** The records written for the rows, one per row, in cursor order. */
  function RenderRows(rows: seq<seq<Value>>): seq<seq<Cell>>
  {
    if |rows| == 0 then [] else RenderRows(rows[..|rows| - 1]) + [RenderRow(rows[|rows| - 1])]
  }

  /** The header record the printer writes when it is opened, unless the format skips it. */
  function HeaderRecords(format: CsvFormat): seq<seq<Cell>>
  {
    if format.skipHeaderRecord then []
    else [seq(|format.header|, i requires 0 <= i < |format.header| => TextCell(format.header[i]))]
  }

  /** The number of warnings logged for a row. */
  function RowWarnings(row: seq<Value>): nat
  {
    if |row| == 0 then 0
    else RowWarnings(row[..|row| - 1]) + (if Warns(row[|row| - 1]) then 1 else 0)
  }

  function RowsWarnings(rows: seq<seq<Value>>): nat
  {
    if |rows| == 0 then 0 else RowsWarnings(rows[..|rows| - 1]) + RowWarnings(rows[|rows| - 1])
  }

  /** One record per row, in order, each with one cell per column in column order. */
  lemma {:induction false} RenderRowsShape(rs: ResultSet)
    requires rs.WellFormed()
    decreases |rs.rows|
    ensures |RenderRows(rs.rows)| == |rs.rows|
    ensures forall i :: 0 <= i < |rs.rows| ==> |RenderRows(rs.rows)[i]| == rs.ColumnCount()
    ensures forall i, j :: 0 <= i < |rs.rows| && 0 <= j < rs.ColumnCount() ==>
              RenderRows(rs.rows)[i][j] == CellFor(rs.rows[i][j])
  {
    if |rs.rows| > 0 {
      RenderRowsShape(ResultSet(rs.labels, rs.rows[..|rs.rows| - 1]));
    }
  }

  /** A row logs no warning exactly when none of its values has a null `toString`. */
  lemma {:induction false} RowWarningsZero(row: seq<Value>)
    ensures RowWarnings(row) == 0 <==> forall j :: 0 <= j < |row| ==> !Warns(row[j])
  {
    if |row| > 0 {
      var init := row[..|row| - 1];
      RowWarningsZero(init);
      assert forall j :: 0 <= j < |init| ==> init[j] == row[j];
    }
  }

  /** A warning never replaces a cell: a warned value is written as an empty field. */
  lemma WarnedValueIsEmptyField(v: Value)
    requires Warns(v)
    ensures CellFor(v) == NullCell
  {
  }

  /** The byte sink, by the records written to it. */
  class Sink {
    var records: seq<seq<Cell>>

    constructor()
      ensures records == []
    {
      records := [];
    }
  }

  /** A CSV printer over a sink; the cells of the current record are pending until `Println`. */
  class CsvPrinter {
    const sink: Sink
    var current: seq<Cell>

    /** `format.print(writer)`: writes the header record unless the format skips it. */
    constructor(sink: Sink, format: CsvFormat)
      modifies sink
      ensures this.sink == sink && current == []
      ensures sink.records == old(sink.records) + HeaderRecords(format)
    {
      this.sink := sink;
      current := [];
      sink.records := sink.records + HeaderRecords(format);
    }

    method Print(c: Cell)
      modifies this
      ensures current == old(current) + [c]
    {
      current := current + [c];
    }

    method Println()
      modifies this, sink
      ensures sink.records == old(sink.records) + [old(current)]
      ensures current == []
    {
      sink.records := sink.records + [current];
      current := [];
    }
  }

  /** `RecordProgressMonitor`: counts records; the expected total only affects its display. */
  class RecordProgressMonitor {
    const expected: Option<nat>
    var count: nat

    constructor(expected: Option<nat>)
      ensures this.expected == expected && count == 0
    {
      this.expected := expected;
      count := 0;
    }

    method Count()
      modifies this
      ensures count == old(count) + 1
    {
      count := count + 1;
    }
  }

  /** The task's logger, by the number of warnings it has received. */
  class Log {
    var warnings: nat

    constructor()
      ensures warnings == 0
    {
      warnings := 0;
    }

    method Warn()
      modifies this
      ensures warnings == old(warnings) + 1
    {
      warnings := warnings + 1;
    }
  }

  /** A forward-only cursor over a result set; `position` is the 1-based current row, 0 before the first. */
  class Cursor {
    const data: ResultSet
    var position: nat

    constructor(data: ResultSet)
      ensures this.data == data && position == 0
    {
      this.data := data;
      position := 0;
    }

    /** `ResultSet.next()`: moves to the next row if there is one. */
    method Next() returns (more: bool)
      modifies this
      ensures more <==> old(position) < |data.rows|
      ensures position == if more then old(position) + 1 else old(position)
    {
      more := position < |data.rows|;
      if more {
        position := position + 1;
      }
    }

    /** `ResultSet.getObject(column)`, columns numbered from 1. */
    function GetObject(column: nat): Value
      reads this
      requires 1 <= position <= |data.rows|
      requires 1 <= column <= |data.rows[position - 1]|
    {
      data.rows[position - 1][column - 1]
    }
  }

  /** The rows of the cursor from just after `start` to `done`, inclusive. */
  lemma RowsSnoc(rows: seq<seq<Value>>, start: nat, done: nat, records0: seq<seq<Cell>>, warnings0: nat)
    requires start <= done < |rows|
    ensures records0 + RenderRows(rows[start..done + 1])
            == records0 + RenderRows(rows[start..done]) + [RenderRow(rows[done])]
    ensures warnings0 + RowsWarnings(rows[start..done + 1])
            == warnings0 + RowsWarnings(rows[start..done]) + RowWarnings(rows[done])
  {
    var s := rows[start..done + 1];
    assert s[..|s| - 1] == rows[start..done];
  }

  lemma CellsSnoc(row: seq<Value>, k: nat)
    requires k < |row|
    ensures RenderRow(row[..k + 1]) == RenderRow(row[..k]) + [CellFor(row[k])]
    ensures RowWarnings(row[..k + 1]) == RowWarnings(row[..k]) + (if Warns(row[k]) then 1 else 0)
  {
    var s := row[..k + 1];
    assert s[..|s| - 1] == row[..k];
  }

  /**
   * The body of the cursor loop for the current row: one cell per column,
   * in column order, and one warning per object whose `toString` is null.
   */
  method PrintRow(printer: CsvPrinter, rs: Cursor, log: Log)
    requires rs.data.WellFormed() && 1 <= rs.position <= |rs.data.rows|
    requires printer.current == []
    modifies printer, log
    ensures printer.current == RenderRow(rs.data.rows[rs.position - 1])
    ensures log.warnings == old(log.warnings) + RowWarnings(rs.data.rows[rs.position - 1])
  {
    var columnCount := rs.data.ColumnCount();
    ghost var row := rs.data.rows[rs.position - 1];
    var i := 1;
    while i <= columnCount
      invariant 1 <= i <= columnCount + 1
      invariant printer.current == RenderRow(row[..i - 1])
      invariant log.warnings == old(log.warnings) + RowWarnings(row[..i - 1])
    {
      var item := rs.GetObject(i);
      CellsSnoc(row, i - 1);
      var candidate := FromByteBufferOrClob(item);
      if candidate.Some? || item.Null? {
        var cell := if candidate.Some? then TextCell(candidate.value) else NullCell;
        printer.Print(cell);
      } else if item.rendering.None? {
        log.Warn();
        printer.Print(NullCell);
      } else {
        printer.Print(TextCell(item.rendering.value));
      }
      i := i + 1;
    }
    assert row[..columnCount] == row;
  }

  /**
   * `printAllResults`: builds the format; on failure nothing is written.
   * Otherwise the header record (unless skipped) and then one record per
   * remaining row are appended, the monitor is counted once per row, and one
   * warning is logged per object whose `toString` is null.
   */
  method PrintAllResults(sink: Sink, rs: Cursor, monitor: RecordProgressMonitor, log: Log,
                         config: HeaderConfig, mode: WriteMode) returns (r: Outcome<FormatError>)
    requires rs.data.WellFormed() && rs.position <= |rs.data.rows|
    modifies sink, rs, monitor, log
    ensures r.Pass? <==> NewCsvFormat(config, mode, rs.data).Ok?
    ensures r.Fail? ==> r.error == NewCsvFormat(config, mode, rs.data).error
    ensures r.Fail? ==> sink.records == old(sink.records) && rs.position == old(rs.position)
                        && monitor.count == old(monitor.count) && log.warnings == old(log.warnings)
    ensures r.Pass? ==>
              var remaining := rs.data.rows[old(rs.position)..];
              && sink.records == old(sink.records) + HeaderRecords(NewCsvFormat(config, mode, rs.data).value)
                                 + RenderRows(remaining)
              && monitor.count == old(monitor.count) + |remaining|
              && log.warnings == old(log.warnings) + RowsWarnings(remaining)
              && rs.position == |rs.data.rows|
  {
    var format := NewCsvFormat(config, mode, rs.data);
    if format.Err? {
      return Fail(format.error);
    }
    var printer := new CsvPrinter(sink, format.value);
    ghost var records0, warnings0 := sink.records, log.warnings;
    ghost var rows := rs.data.rows;
    ghost var start := rs.position;
    var more := rs.Next();
    ghost var done := start;
    while more
      invariant start <= done <= |rows|
      invariant more ==> done < |rows| && rs.position == done + 1
      invariant !more ==> done == |rows| && rs.position == done
      invariant printer.current == []
      invariant sink.records == records0 + RenderRows(rows[start..done])
      invariant monitor.count == old(monitor.count) + (done - start)
      invariant log.warnings == warnings0 + RowsWarnings(rows[start..done])
      decreases |rows| - done
    {
      ghost var before, warned := sink.records, log.warnings;
      monitor.Count();
      PrintRow(printer, rs, log);
      assert log.warnings == warned + RowWarnings(rows[done]);
      printer.Println();
      assert sink.records == before + [RenderRow(rows[done])];
      RowsSnoc(rows, start, done, records0, warnings0);
      done := done + 1;
      more := rs.Next();
    }
    assert rows[old(rs.position)..] == rows[start..|rows|];
    return Pass;
  }

  /** The `Summary` an extractor returns: the number of records written. */
  datatype Summary = Summary(count: nat)

  /**
   * The extractor of `newCsvResultSetExtractor` (both overloads; `expected`
   * is the optional record count given to the monitor): prints all results
   * through a fresh monitor and returns its count.
   */
  method NewCsvResultSetExtractor(sink: Sink, rs: Cursor, log: Log, config: HeaderConfig, mode: WriteMode,
                                  expected: Option<nat>) returns (r: Result<Summary, FormatError>)
    requires rs.data.WellFormed() && rs.position <= |rs.data.rows|
    modifies sink, rs, log
    ensures r.Ok? <==> NewCsvFormat(config, mode, rs.data).Ok?
    ensures r.Err? ==> r.error == NewCsvFormat(config, mode, rs.data).error && sink.records == old(sink.records)
    ensures r.Ok? ==>
              var remaining := rs.data.rows[old(rs.position)..];
              && r.value.count == |remaining|
              && sink.records == old(sink.records) + HeaderRecords(NewCsvFormat(config, mode, rs.data).value)
                                 + RenderRows(remaining)
  {
    var monitor := new RecordProgressMonitor(expected);
    var outcome := PrintAllResults(sink, rs, monitor, log, config, mode);
    if outcome.Fail? {
      return Err(outcome.error);
    }
    return Ok(Summary(monitor.count));
  }

  /** A warning on the statement's warning chain. */
  datatype SqlWarning = SqlWarning(sqlState: string, errorCode: int, message: string)

  /** The calls `doSelect` makes on the connection, its statement and its result set. */
  datatype Call =
    | SetAutoCommitOff
    | PrepareStatement(sql: string)
    | SetParameter(index: nat, value: Value)
    | SetFetchSize(size: nat)
    | Execute
    | GetResultSet
    | ExtractData
    | CloseResultSet
    | GetWarnings
    | LogWarning(warning: SqlWarning)
    | CloseStatement

  const FetchSize: nat := 16384

  /**
   * A connection as `doSelect` sees it: the calls that throw an
   * `SQLException`, the statement's warnings, the result set the statement
   * yields, and the calls made so far.
   */
  class Connection {
    const failing: set<Call>
    const warnings: seq<SqlWarning>
    const resultSet: ResultSet
    var trace: seq<Call>

    constructor(failing: set<Call>, warnings: seq<SqlWarning>, resultSet: ResultSet)
      ensures this.failing == failing && this.warnings == warnings && this.resultSet == resultSet
      ensures trace == []
    {
      this.failing := failing;
      this.warnings := warnings;
      this.resultSet := resultSet;
      trace := [];
    }

    /** A call that throws when it is one of the failing ones. */
    method Invoke(c: Call) returns (ok: bool)
      modifies this
      ensures trace == old(trace) + [c]
      ensures ok <==> c !in failing
    {
      trace := trace + [c];
      ok := c !in failing;
    }

    /** A call whose failure is not seen: closing through `JdbcUtils` and logging. */
    method Perform(c: Call)
      modifies this
      ensures trace == old(trace) + [c]
    {
      trace := trace + [c];
    }
  }

  /** The position of the first failing call, or the length when none fails. */
  function FirstFailure(calls: seq<Call>, failing: set<Call>): (k: nat)
    ensures k <= |calls|
  {
    if |calls| == 0 then 0
    else if calls[0] in failing then 0
    else 1 + FirstFailure(calls[1..], failing)
  }

  /** The calls made: all of them, or those up to and including the first that throws. */
  function Attempted(calls: seq<Call>, failing: set<Call>): seq<Call>
  {
    var k := FirstFailure(calls, failing);
    if k < |calls| then calls[..k + 1] else calls
  }

  /** `setParameterValues`: argument i is bound to parameter i + 1. */
  function Binds(arguments: seq<Value>): (r: seq<Call>)
    ensures |r| == |arguments|
  {
    seq(|arguments|, i requires 0 <= i < |arguments| => SetParameter(i + 1, arguments[i]))
  }

  /** The calls `doSelect` makes while nothing fails, up to and including extraction. */
  function Steps(sql: string, arguments: seq<Value>): seq<Call>
  {
    [SetAutoCommitOff, PrepareStatement(sql)] + Binds(arguments)
    + [SetFetchSize(FetchSize), Execute, GetResultSet, ExtractData]
  }

  /** The logged warnings, one call per warning of the chain. */
  function WarningCalls(warnings: seq<SqlWarning>): seq<Call>
  {
    seq(|warnings|, i requires 0 <= i < |warnings| => LogWarning(warnings[i]))
  }

  /**
   * The whole call sequence of `doSelect`: the steps up to the first that
   * throws; the result set is closed once it was obtained and the statement
   * once it was prepared, result set first. Without a failure the warning
   * chain is read and each warning logged before the statement is closed.
   */
  function SelectTrace(failing: set<Call>, warnings: seq<SqlWarning>, sql: string, arguments: seq<Value>): seq<Call>
  {
    var steps := Steps(sql, arguments);
    var k := FirstFailure(steps, failing);
    if k < |steps| then
      steps[..k + 1]
      + (if k == |steps| - 1 then [CloseResultSet] else [])
      + (if k >= 2 then [CloseStatement] else [])
    else
      steps + [CloseResultSet, GetWarnings]
      + (if GetWarnings in failing then [] else WarningCalls(warnings))
      + [CloseStatement]
  }

  /** The call whose exception `doSelect` lets propagate, if any. */
  function SelectFailure(failing: set<Call>, sql: string, arguments: seq<Value>): Option<Call>
  {
    var steps := Steps(sql, arguments);
    var k := FirstFailure(steps, failing);
    if k < |steps| then Some(steps[k])
    else if GetWarnings in failing then Some(GetWarnings)
    else None
  }

  /** What `doSelect` returns: the extracted value, or the call whose exception propagates. */
  function SelectResult<T>(failing: set<Call>, sql: string, arguments: seq<Value>, extracted: T): Result<T, Call>
  {
    match SelectFailure(failing, sql, arguments)
    case Some(call) => Err(call)
    case None => Ok(extracted)
  }

  /** The first failing call fails, and every call before it succeeds. */
  lemma {:induction false} FirstFailureSpec(calls: seq<Call>, failing: set<Call>)
    ensures var k := FirstFailure(calls, failing);
      && (k < |calls| ==> calls[k] in failing)
      && forall i :: 0 <= i < k ==> calls[i] !in failing
  {
    if |calls| > 0 && calls[0] !in failing {
      FirstFailureSpec(calls[1..], failing);
    }
  }

  /** Conversely, the first failing call is pinned down by the calls before it succeeding. */
  lemma {:induction false} FirstFailureIs(calls: seq<Call>, failing: set<Call>, k: nat)
    requires k <= |calls|
    requires k < |calls| ==> calls[k] in failing
    requires forall i :: 0 <= i < k ==> calls[i] !in failing
    ensures FirstFailure(calls, failing) == k
  {
    if k > 0 {
      assert calls[0] !in failing;
      FirstFailureIs(calls[1..], failing, k - 1);
    }
  }

  lemma StepsLayout(sql: string, arguments: seq<Value>)
    ensures var steps, n := Steps(sql, arguments), |arguments|;
      && |steps| == n + 6
      && steps[0] == SetAutoCommitOff && steps[1] == PrepareStatement(sql)
      && steps[2..n + 2] == Binds(arguments)
      && (forall i :: 2 <= i < n + 2 ==> steps[i] == Binds(arguments)[i - 2])
      && steps[n + 2] == SetFetchSize(FetchSize) && steps[n + 3] == Execute
      && steps[n + 4] == GetResultSet && steps[n + 5] == ExtractData
  {
  }

  /** Turning autocommit off throws: nothing is released, since nothing was acquired. */
  lemma ExitAtAutoCommit(failing: set<Call>, warnings: seq<SqlWarning>, sql: string, arguments: seq<Value>)
    requires SetAutoCommitOff in failing
    ensures SelectTrace(failing, warnings, sql, arguments) == [SetAutoCommitOff]
    ensures SelectFailure(failing, sql, arguments) == Some(SetAutoCommitOff)
  {
    StepsLayout(sql, arguments);
    FirstFailureIs(Steps(sql, arguments), failing, 0);
  }

  /** Preparing throws: there is no statement to close. */
  lemma ExitAtPrepare(failing: set<Call>, warnings: seq<SqlWarning>, sql: string, arguments: seq<Value>)
    requires SetAutoCommitOff !in failing && PrepareStatement(sql) in failing
    ensures SelectTrace(failing, warnings, sql, arguments) == [SetAutoCommitOff, PrepareStatement(sql)]
    ensures SelectFailure(failing, sql, arguments) == Some(PrepareStatement(sql))
  {
    var steps := Steps(sql, arguments);
    StepsLayout(sql, arguments);
    FirstFailureIs(steps, failing, 1);
    assert steps[..2] == [SetAutoCommitOff, PrepareStatement(sql)];
  }

  /** A bind throws: the statement is closed after the failing bind. */
  lemma ExitAtBind(failing: set<Call>, warnings: seq<SqlWarning>, sql: string, arguments: seq<Value>, t0: seq<Call>)
    requires SetAutoCommitOff !in failing && PrepareStatement(sql) !in failing
    requires FirstFailure(Binds(arguments), failing) < |arguments|
    ensures var binds := Binds(arguments);
      && t0 + SelectTrace(failing, warnings, sql, arguments)
         == t0 + [SetAutoCommitOff, PrepareStatement(sql)] + Attempted(binds, failing) + [CloseStatement]
      && SelectFailure(failing, sql, arguments) == Some(binds[FirstFailure(binds, failing)])
  {
    var steps, binds := Steps(sql, arguments), Binds(arguments);
    var j := FirstFailure(binds, failing);
    FailingBind(failing, sql, arguments);
    assert SelectTrace(failing, warnings, sql, arguments) == steps[..j + 3] + [CloseStatement];
    assert Attempted(binds, failing) == binds[..j + 1];
  }

  /** The first failing bind is the first failing step, two steps in. */
  lemma FailingBind(failing: set<Call>, sql: string, arguments: seq<Value>)
    requires SetAutoCommitOff !in failing && PrepareStatement(sql) !in failing
    requires FirstFailure(Binds(arguments), failing) < |arguments|
    ensures var steps, binds := Steps(sql, arguments), Binds(arguments);
      var j := FirstFailure(binds, failing);
      && FirstFailure(steps, failing) == j + 2
      && j + 3 < |steps|
      && steps[j + 2] == binds[j]
      && steps[..j + 3] == [SetAutoCommitOff, PrepareStatement(sql)] + binds[..j + 1]
  {
    var steps, binds := Steps(sql, arguments), Binds(arguments);
    var j := FirstFailure(binds, failing);
    StepsLayout(sql, arguments);
    FirstFailureSpec(binds, failing);
    FirstFailureIs(steps, failing, j + 2);
    assert steps[..j + 3] == [SetAutoCommitOff, PrepareStatement(sql)] + binds[..j + 1];
  }

  /** The calls after the binds, up to and including extraction. */
  const Tail := [SetFetchSize(FetchSize), Execute, GetResultSet, ExtractData]

  /**
   * Call `m` after the binds throws: the result set is closed if it was
   * obtained (`m` is extraction), then the statement.
   */
  lemma ExitAfterBinds(failing: set<Call>, warnings: seq<SqlWarning>, sql: string, arguments: seq<Value>, m: nat)
    requires SetAutoCommitOff !in failing && PrepareStatement(sql) !in failing
    requires FirstFailure(Binds(arguments), failing) == |arguments|
    requires m < 4 && Tail[m] in failing && forall i :: 0 <= i < m ==> Tail[i] !in failing
    ensures SelectTrace(failing, warnings, sql, arguments)
            == [SetAutoCommitOff, PrepareStatement(sql)] + Binds(arguments) + Tail[..m + 1]
               + (if m == 3 then [CloseResultSet] else []) + [CloseStatement]
    ensures SelectFailure(failing, sql, arguments) == Some(Tail[m])
  {
    var steps, binds, n := Steps(sql, arguments), Binds(arguments), |arguments|;
    StepsLayout(sql, arguments);
    FirstFailureSpec(binds, failing);
    assert forall i :: n + 2 <= i < n + 6 ==> steps[i] == Tail[i - n - 2];
    FirstFailureIs(steps, failing, n + 2 + m);
    assert steps[..n + m + 3] == [SetAutoCommitOff, PrepareStatement(sql)] + binds + Tail[..m + 1];
  }

  lemma ExitAtFetchSize(failing: set<Call>, warnings: seq<SqlWarning>, sql: string, arguments: seq<Value>, t0: seq<Call>)
    requires SetAutoCommitOff !in failing && PrepareStatement(sql) !in failing
    requires FirstFailure(Binds(arguments), failing) == |arguments| && Tail[0] in failing
    ensures t0 + SelectTrace(failing, warnings, sql, arguments)
            == t0 + [SetAutoCommitOff, PrepareStatement(sql)] + Binds(arguments) + Tail[..1] + [CloseStatement]
    ensures SelectFailure(failing, sql, arguments) == Some(Tail[0])
  {
    ExitAfterBinds(failing, warnings, sql, arguments, 0);
  }

  lemma ExitAtExecute(failing: set<Call>, warnings: seq<SqlWarning>, sql: string, arguments: seq<Value>, t0: seq<Call>)
    requires SetAutoCommitOff !in failing && PrepareStatement(sql) !in failing
    requires FirstFailure(Binds(arguments), failing) == |arguments| && Tail[0] !in failing && Tail[1] in failing
    ensures t0 + SelectTrace(failing, warnings, sql, arguments)
            == t0 + [SetAutoCommitOff, PrepareStatement(sql)] + Binds(arguments) + Tail[..2] + [CloseStatement]
    ensures SelectFailure(failing, sql, arguments) == Some(Tail[1])
  {
    ExitAfterBinds(failing, warnings, sql, arguments, 1);
  }

  lemma ExitAtGetResultSet(failing: set<Call>, warnings: seq<SqlWarning>, sql: string, arguments: seq<Value>, t0: seq<Call>)
    requires SetAutoCommitOff !in failing && PrepareStatement(sql) !in failing
    requires FirstFailure(Binds(arguments), failing) == |arguments| && Tail[0] !in failing && Tail[1] !in failing
    requires GetResultSet in failing
    ensures t0 + SelectTrace(failing, warnings, sql, arguments)
            == t0 + [SetAutoCommitOff, PrepareStatement(sql)] + Binds(arguments) + Tail[..2] + [GetResultSet]
               + [CloseStatement]
    ensures SelectFailure(failing, sql, arguments) == Some(GetResultSet)
  {
    ExitAfterBinds(failing, warnings, sql, arguments, 2);
    assert Tail[..3] == Tail[..2] + [GetResultSet];
  }

  lemma ExitAtExtract(failing: set<Call>, warnings: seq<SqlWarning>, sql: string, arguments: seq<Value>, t0: seq<Call>)
    requires SetAutoCommitOff !in failing && PrepareStatement(sql) !in failing
    requires FirstFailure(Binds(arguments), failing) == |arguments| && Tail[0] !in failing && Tail[1] !in failing
    requires GetResultSet !in failing && ExtractData in failing
    ensures t0 + SelectTrace(failing, warnings, sql, arguments)
            == t0 + [SetAutoCommitOff, PrepareStatement(sql)] + Binds(arguments) + Tail[..2]
               + [GetResultSet, ExtractData, CloseResultSet] + [CloseStatement]
    ensures SelectFailure(failing, sql, arguments) == Some(ExtractData)
  {
    ExitAfterBinds(failing, warnings, sql, arguments, 3);
    assert Tail[..4] == Tail[..2] + [GetResultSet, ExtractData];
  }

  /** Every step succeeds: the result set is closed, the warning chain read, then the statement closed. */
  lemma SelectTraceCompleted(failing: set<Call>, warnings: seq<SqlWarning>, sql: string, arguments: seq<Value>)
    requires SetAutoCommitOff !in failing && PrepareStatement(sql) !in failing
    requires FirstFailure(Binds(arguments), failing) == |arguments| && Tail[0] !in failing && Tail[1] !in failing
    requires GetResultSet !in failing && ExtractData !in failing
    ensures Steps(sql, arguments)
            == [SetAutoCommitOff, PrepareStatement(sql)] + Binds(arguments) + Tail[..2] + [GetResultSet, ExtractData]
    ensures SelectTrace(failing, warnings, sql, arguments)
            == Steps(sql, arguments) + [CloseResultSet, GetWarnings]
               + (if GetWarnings !in failing then WarningCalls(warnings) else []) + [CloseStatement]
    ensures SelectFailure(failing, sql, arguments) == if GetWarnings in failing then Some(GetWarnings) else None
  {
    var steps, binds, n := Steps(sql, arguments), Binds(arguments), |arguments|;
    StepsLayout(sql, arguments);
    FirstFailureSpec(binds, failing);
    assert forall i :: n + 2 <= i < n + 6 ==> steps[i] == Tail[i - n - 2];
    FirstFailureIs(steps, failing, n + 6);
  }

  lemma Regroup(t0: seq<Call>, p: seq<Call>, b: seq<Call>, t: seq<Call>, w: seq<Call>)
    ensures t0 + (p + b + t + [GetResultSet, ExtractData] + [CloseResultSet, GetWarnings] + w + [CloseStatement])
            == t0 + p + b + t + [GetResultSet, ExtractData, CloseResultSet] + [GetWarnings] + w + [CloseStatement]
  {
  }

  /** Every step succeeds, in the shape the call sequence is built. */
  lemma ExitCompleted(failing: set<Call>, warnings: seq<SqlWarning>, sql: string, arguments: seq<Value>, t0: seq<Call>)
    requires SetAutoCommitOff !in failing && PrepareStatement(sql) !in failing
    requires FirstFailure(Binds(arguments), failing) == |arguments| && Tail[0] !in failing && Tail[1] !in failing
    requires GetResultSet !in failing && ExtractData !in failing
    ensures t0 + SelectTrace(failing, warnings, sql, arguments)
            == t0 + [SetAutoCommitOff, PrepareStatement(sql)] + Binds(arguments) + Tail[..2]
               + [GetResultSet, ExtractData, CloseResultSet] + [GetWarnings]
               + (if GetWarnings !in failing then WarningCalls(warnings) else []) + [CloseStatement]
    ensures SelectFailure(failing, sql, arguments) == if GetWarnings in failing then Some(GetWarnings) else None
  {
    SelectTraceCompleted(failing, warnings, sql, arguments);
    Regroup(t0, [SetAutoCommitOff, PrepareStatement(sql)], Binds(arguments), Tail[..2],
            if GetWarnings !in failing then WarningCalls(warnings) else []);
  }

  /** `setParameterValues`: binds the arguments in order and stops at the first bind that throws. */
  method SetParameterValues(conn: Connection, arguments: seq<Value>) returns (r: Outcome<Call>)
    modifies conn
    ensures conn.trace == old(conn.trace) + Attempted(Binds(arguments), conn.failing)
    ensures r.Pass? <==> FirstFailure(Binds(arguments), conn.failing) == |arguments|
    ensures r.Fail? ==> r.error == Binds(arguments)[FirstFailure(Binds(arguments), conn.failing)]
  {
    ghost var binds := Binds(arguments);
    var i := 0;
    while i < |arguments|
      invariant 0 <= i <= |arguments|
      invariant forall j :: 0 <= j < i ==> binds[j] !in conn.failing
      invariant conn.trace == old(conn.trace) + binds[..i]
    {
      var call := SetParameter(i + 1, arguments[i]);
      var ok := conn.Invoke(call);
      assert binds[..i + 1] == binds[..i] + [binds[i]];
      if !ok {
        FirstFailureIs(binds, conn.failing, i);
        return Fail(call);
      }
      i := i + 1;
    }
    assert binds[..i] == binds;
    FirstFailureIs(binds, conn.failing, i);
    return Pass;
  }

  /** Reads the statement's warning chain and logs each warning in chain order. */
  method LogWarnings(conn: Connection) returns (ok: bool)
    modifies conn
    ensures ok <==> GetWarnings !in conn.failing
    ensures conn.trace == old(conn.trace) + [GetWarnings] + (if ok then WarningCalls(conn.warnings) else [])
  {
    ok := conn.Invoke(GetWarnings);
    if !ok {
      return;
    }
    ghost var t1 := conn.trace;
    var i := 0;
    while i < |conn.warnings|
      invariant 0 <= i <= |conn.warnings|
      invariant conn.trace == t1 + WarningCalls(conn.warnings[..i])
    {
      assert WarningCalls(conn.warnings[..i + 1]) == WarningCalls(conn.warnings[..i]) + [LogWarning(conn.warnings[i])];
      conn.Perform(LogWarning(conn.warnings[i]));
      i := i + 1;
    }
    assert conn.warnings[..i] == conn.warnings;
  }

  /**
   * The rest of the `PREPARE` block and the `EXECUTE` block: binds the
   * arguments, sets the fetch size and executes the statement, stopping at
   * the first call that throws.
   */
  method BindAndExecute(conn: Connection, arguments: seq<Value>) returns (r: Outcome<Call>)
    modifies conn
    ensures var binds := Binds(arguments);
      var j := FirstFailure(binds, conn.failing);
      && (r.Pass? <==> j == |arguments| && Tail[0] !in conn.failing && Tail[1] !in conn.failing)
      && (j < |arguments| ==> conn.trace == old(conn.trace) + Attempted(binds, conn.failing) && r == Fail(binds[j]))
      && (j == |arguments| && Tail[0] in conn.failing ==>
            conn.trace == old(conn.trace) + binds + Tail[..1] && r == Fail(Tail[0]))
      && (j == |arguments| && Tail[0] !in conn.failing ==> conn.trace == old(conn.trace) + binds + Tail[..2])
      && (j == |arguments| && Tail[0] !in conn.failing && Tail[1] in conn.failing ==> r == Fail(Tail[1]))
  {
    var bound := SetParameterValues(conn, arguments);
    if bound.Fail? {
      return bound;
    }
    assert Attempted(Binds(arguments), conn.failing) == Binds(arguments);
    var ok := conn.Invoke(SetFetchSize(FetchSize));
    if !ok {
      return Fail(SetFetchSize(FetchSize));
    }
    ok := conn.Invoke(Execute);
    if !ok {
      return Fail(Execute);
    }
    return Pass;
  }

  /**
   * The inner `try` of `doSelect`: obtains the result set and extracts the
   * value, and in its `finally` closes the result set if one was obtained.
   */
  method ExtractResult<T>(conn: Connection, extractor: ResultSet -> T) returns (r: Result<T, Call>)
    modifies conn
    ensures GetResultSet in conn.failing ==> conn.trace == old(conn.trace) + [GetResultSet] && r == Err(GetResultSet)
    ensures GetResultSet !in conn.failing ==> conn.trace == old(conn.trace) + [GetResultSet, ExtractData, CloseResultSet]
    ensures GetResultSet !in conn.failing && ExtractData in conn.failing ==> r == Err(ExtractData)
    ensures GetResultSet !in conn.failing && ExtractData !in conn.failing ==> r == Ok(extractor(conn.resultSet))
  {
    var resultSetOpen := false;
    r := Err(GetResultSet);
    var ok := conn.Invoke(GetResultSet);
    if ok {
      resultSetOpen := true;
      ok := conn.Invoke(ExtractData);
      r := if ok then Ok(extractor(conn.resultSet)) else Err(ExtractData);
    }
    if resultSetOpen {
      conn.Perform(CloseResultSet);
    }
  }

  /**
   * The body of the outer `try` once the statement is prepared: binds and
   * executes, extracts, and reads and logs the warning chain. Together with
   * closing the statement it makes up the whole call sequence.
   */
  method RunStatement<T>(conn: Connection, extractor: ResultSet -> T, sql: string, arguments: seq<Value>,
                         ghost t0: seq<Call>) returns (r: Result<T, Call>)
    requires SetAutoCommitOff !in conn.failing && PrepareStatement(sql) !in conn.failing
    requires conn.trace == t0 + [SetAutoCommitOff, PrepareStatement(sql)]
    modifies conn
    ensures conn.trace + [CloseStatement] == t0 + SelectTrace(conn.failing, conn.warnings, sql, arguments)
    ensures r == SelectResult(conn.failing, sql, arguments, extractor(conn.resultSet))
  {
    ghost var binds := Binds(arguments);
    var executed := BindAndExecute(conn, arguments);
    if executed.Fail? {
      if FirstFailure(binds, conn.failing) < |arguments| {
        ExitAtBind(conn.failing, conn.warnings, sql, arguments, t0);
      } else if Tail[0] in conn.failing {
        ExitAtFetchSize(conn.failing, conn.warnings, sql, arguments, t0);
      } else {
        ExitAtExecute(conn.failing, conn.warnings, sql, arguments, t0);
      }
      return Err(executed.error);
    }
    var extracted := ExtractResult(conn, extractor);
    if extracted.Err? {
      if GetResultSet in conn.failing {
        ExitAtGetResultSet(conn.failing, conn.warnings, sql, arguments, t0);
      } else {
        ExitAtExtract(conn.failing, conn.warnings, sql, arguments, t0);
      }
      return extracted;
    }
    ExitCompleted(conn.failing, conn.warnings, sql, arguments, t0);
    var ok := LogWarnings(conn);
    if !ok {
      return Err(GetWarnings);
    }
    return extracted;
  }

  /**
   * `doSelect`: turns autocommit off and prepares the statement; runs it;
   * and in the outer `finally` closes the statement if one was prepared.
   */
  method DoSelect<T>(conn: Connection, extractor: ResultSet -> T, sql: string, arguments: seq<Value>)
    returns (r: Result<T, Call>)
    modifies conn
    ensures conn.trace == old(conn.trace) + SelectTrace(conn.failing, conn.warnings, sql, arguments)
    ensures r == SelectResult(conn.failing, sql, arguments, extractor(conn.resultSet))
  {
    ghost var t0 := conn.trace;
    var statementOpen := false;
    var ok := conn.Invoke(SetAutoCommitOff);
    if !ok {
      ExitAtAutoCommit(conn.failing, conn.warnings, sql, arguments);
      r := Err(SetAutoCommitOff);
    } else {
      ok := conn.Invoke(PrepareStatement(sql));
      if !ok {
        ExitAtPrepare(conn.failing, conn.warnings, sql, arguments);
        r := Err(PrepareStatement(sql));
      } else {
        statementOpen := true;
        r := RunStatement(conn, extractor, sql, arguments, t0);
      }
    }
    if statementOpen {
      conn.Perform(CloseStatement);
    }
  }

  /** No call of `p` is `c`. */
  predicate Lacks(p: seq<Call>, c: Call)
  {
    forall i :: 0 <= i < |p| ==> p[i] != c
  }

  lemma LacksAppend(a: seq<Call>, b: seq<Call>, c: Call)
    requires Lacks(a, c) && Lacks(b, c)
    ensures Lacks(a + b, c)
  {
    assert forall i :: |a| <= i < |a + b| ==> (a + b)[i] == b[i - |a|];
  }

  lemma LacksPrefix(p: seq<Call>, m: nat, c: Call)
    requires Lacks(p, c) && m <= |p|
    ensures Lacks(p[..m], c)
  {
  }

  /** The steps themselves never release anything. */
  lemma StepsReleaseNothing(sql: string, arguments: seq<Value>)
    ensures Lacks(Steps(sql, arguments), CloseStatement) && Lacks(Steps(sql, arguments), CloseResultSet)
  {
    StepsLayout(sql, arguments);
  }

  lemma WarningCallsReleaseNothing(warnings: seq<SqlWarning>)
    ensures Lacks(WarningCalls(warnings), CloseStatement) && Lacks(WarningCalls(warnings), CloseResultSet)
  {
  }

  /**
   * The statement is released on every path on which it was prepared: the
   * last call closes it and no earlier call does. When preparing never
   * succeeded neither the statement nor a result set is closed.
   */
  lemma StatementReleasedLast(failing: set<Call>, warnings: seq<SqlWarning>, sql: string, arguments: seq<Value>)
    ensures var t, k := SelectTrace(failing, warnings, sql, arguments), FirstFailure(Steps(sql, arguments), failing);
      && (k >= 2 ==> |t| > 0 && t[|t| - 1] == CloseStatement && Lacks(t[..|t| - 1], CloseStatement))
      && (k < 2 ==> Lacks(t, CloseStatement) && Lacks(t, CloseResultSet))
  {
    var steps, k := Steps(sql, arguments), FirstFailure(Steps(sql, arguments), failing);
    var t := SelectTrace(failing, warnings, sql, arguments);
    StepsLayout(sql, arguments);
    StepsReleaseNothing(sql, arguments);
    if k < |steps| {
      var done := steps[..k + 1];
      LacksPrefix(steps, k + 1, CloseStatement);
      LacksPrefix(steps, k + 1, CloseResultSet);
      var rs: seq<Call> := if k == |steps| - 1 then [CloseResultSet] else [];
      LacksAppend(done, rs, CloseStatement);
      if k >= 2 {
        assert t == (done + rs) + [CloseStatement];
        assert t[..|t| - 1] == done + rs;
      } else {
        assert t == done;
      }
    } else {
      var middle := if GetWarnings in failing then [] else WarningCalls(warnings);
      WarningCallsReleaseNothing(warnings);
      var before := steps + [CloseResultSet, GetWarnings] + middle;
      LacksAppend(steps, [CloseResultSet, GetWarnings], CloseStatement);
      LacksAppend(steps + [CloseResultSet, GetWarnings], middle, CloseStatement);
      assert t == before + [CloseStatement];
      assert t[..|t| - 1] == before;
    }
  }

  /**
   * The result set is released exactly when it was obtained, by one close
   * call right after the steps, before the statement is closed.
   */
  lemma ResultSetReleasedFirst(failing: set<Call>, warnings: seq<SqlWarning>, sql: string, arguments: seq<Value>)
    ensures var t, steps := SelectTrace(failing, warnings, sql, arguments), Steps(sql, arguments);
      var obtained := FirstFailure(steps, failing) > |arguments| + 4;
      && (obtained ==> |steps| < |t| - 1 && t[|steps|] == CloseResultSet && t[|t| - 1] == CloseStatement
                       && Lacks(t[..|steps|], CloseResultSet) && Lacks(t[|steps| + 1..], CloseResultSet))
      && (!obtained ==> Lacks(t, CloseResultSet))
  {
    var steps, k := Steps(sql, arguments), FirstFailure(Steps(sql, arguments), failing);
    var t := SelectTrace(failing, warnings, sql, arguments);
    StepsLayout(sql, arguments);
    StepsReleaseNothing(sql, arguments);
    if k < |steps| - 1 {
      LacksPrefix(steps, k + 1, CloseResultSet);
      var st: seq<Call> := if k >= 2 then [CloseStatement] else [];
      LacksAppend(steps[..k + 1], st, CloseResultSet);
      assert t == steps[..k + 1] + st;
    } else if k == |steps| - 1 {
      assert steps[..k + 1] == steps;
      assert t == steps + [CloseResultSet] + [CloseStatement];
      assert t[..|steps|] == steps;
      assert t[|steps| + 1..] == [CloseStatement];
    } else {
      var middle := if GetWarnings in failing then [] else WarningCalls(warnings);
      WarningCallsReleaseNothing(warnings);
      var after := [GetWarnings] + middle + [CloseStatement];
      LacksAppend([GetWarnings], middle, CloseResultSet);
      LacksAppend([GetWarnings] + middle, [CloseStatement], CloseResultSet);
      assert t == steps + [CloseResultSet] + after;
      assert t[..|steps|] == steps;
      assert t[|steps| + 1..] == after;
    }
  }

  /** `doSelect` returns the extracted value exactly when no call throws. */
  lemma SelectSucceedsIffNoFailure<T>(failing: set<Call>, sql: string, arguments: seq<Value>, extracted: T)
    ensures SelectResult(failing, sql, arguments, extracted).Ok?
            <==> (forall i :: 0 <= i < |Steps(sql, arguments)| ==> Steps(sql, arguments)[i] !in failing)
                 && GetWarnings !in failing
    ensures SelectResult(failing, sql, arguments, extracted).Ok? ==>
              SelectResult(failing, sql, arguments, extracted).value == extracted
  {
    var steps := Steps(sql, arguments);
    FirstFailureSpec(steps, failing);
    if forall i :: 0 <= i < |steps| ==> steps[i] !in failing {
      FirstFailureIs(steps, failing, |steps|);
    }
  }
}
