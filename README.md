# dwh-migration-tools core, modelled in Dafny

This project models the parts of the data-warehouse migration dumper and of
the permissions migration tool that decide what is written, in what order,
and when a run fails:

- **`AbstractJdbcTask`** (`jdbc_task.dfy`). The header of the CSV is chosen
  from the header class, the header transformer or the result set's labels.
  The write mode decides whether the header record is written. Each cell is
  rendered: null as an empty field, bytes as Base64, a Clob as its text, and
  any other object as its `toString`, with a warning when that is null. The
  cursor loop writes one record per row and counts the rows. `doSelect`
  makes its JDBC calls in a fixed order and releases the result set and the
  statement on every exit path. A `Connection` object records the calls it
  receives; a set of calls stands for the ones that throw.
- **Base64** (`base64.dfy`). The basic encoder with padding that
  `fromByteBufferOrClob` uses (section 4 of RFC 4648), with a reference
  decoder and the round trip.
- **`TaskGroup`** (`task_group.dfy`). Runs its children in order through the
  run context and writes one `(task, state)` record per child. Its
  `toString` shows the child count.
- **`TeradataUtils`** (`teradata_utils.dfy`). `formatQuery`'s whitespace
  normalisation, the transaction-mode check and the UTC timestamp
  expression.
- **`RedshiftClusterUsageMetricsTask`** (`redshift_usage_metrics.dfy`). The
  metric period chosen from the interval start. Two sorted maps merge the
  CPU and disk series into one row per instant, in ascending order. The
  cluster loop stops at the first cluster that throws.
- **`AbstractRangerHiveToIamBindingMapper`** (`ranger_hive_mapper.dfy`).
  Whether a policy covers a table, and which IAM role a list of accesses
  grants.
- **`SnowflakeTaskUtil`** (`snowflake_task_util.dfy`). The WHERE clause built
  from optional conditions, and the `String.format` that builds the select
  task.
- **`Connector`** (`connector.dfy`). The default date-range check, argument
  check and description.
- `text.dfy` holds the Java string operations the others share: `Joiner`,
  decimal `toString`, `trim`, ASCII `toUpperCase` and the regex class `\s`.
  `wrappers.dfy` holds `Option`, `Result` and `Outcome`, which stand for
  null, `Optional`, exceptions and `void`.

Java's exceptions become `Err`/`Fail` values naming the exception and its
message. Objects whose state the source changes, such as the CSV printer,
the progress monitor, the cursor, the connection, the tree maps, the record
writer and the run context, are classes whose methods state the new state.
The pure helpers are functions with lemmas.

## Model

| member | source | states |
|---|---|---|
| JdbcTask.NewCsvFormat | dumper/app/src/main/java/com/google/edwmigration/dumper/application/dumper/task/AbstractJdbcTask.java:93-124 | The header is the header class if set, else the transformer applied to the result set, else the column labels. A header class whose size differs from the column count fails with the nested usage error before the write mode is examined. `CREATE_TRUNCATE` keeps the header record, `APPEND_EXISTING` skips it, and any other mode fails with "Unsupported write mode: " and the mode. The result is `Ok` exactly when neither check fails. |
| JdbcTask.MismatchReportsDeclaredCount | dumper/app/src/main/java/com/google/edwmigration/dumper/application/dumper/task/AbstractJdbcTask.java:99-108 | The mismatch message is the fixed prefix followed by a number that parses back to the declared constant count. The details are the hint and the declared names joined by ", ". |
| JdbcTask.MismatchIgnoresActualCount | dumper/app/src/main/java/com/google/edwmigration/dumper/application/dumper/task/AbstractJdbcTask.java:99-108 | Any two result sets that mismatch the header class give the same error, so the actual column count is never reported. |
| JdbcTask.FromByteBufferOrClob | dumper/app/src/main/java/com/google/edwmigration/dumper/application/dumper/task/AbstractJdbcTask.java:180-192 | A value is recognised exactly when it is a byte array or a Clob. A byte array becomes Base64 text of length 4·⌈n/3⌉ that decodes back to the bytes, which by Base64.DecodeCanonical is exactly the encoder's text. A Clob becomes its full text. |
| JdbcTask.CellFor | dumper/app/src/main/java/com/google/edwmigration/dumper/application/dumper/task/AbstractJdbcTask.java:160-173 | A cell is written empty (`print(null)`) exactly when the value is null or its `toString` is null. Bytes are written as text that decodes back to them, a Clob as its text, and any other object as its `toString`. |
| JdbcTask.ByteCellIsEncoding | dumper/app/src/main/java/com/google/edwmigration/dumper/application/dumper/task/AbstractJdbcTask.java:160-192 | The cell of a byte array is exactly the Base64 text the encoder writes for it. |
| JdbcTask.RenderRowsShape | dumper/app/src/main/java/com/google/edwmigration/dumper/application/dumper/task/AbstractJdbcTask.java:156-176 | The records are one per row in cursor order. Each has exactly `columnCount` cells, and cell j is the rendering of column j + 1. |
| JdbcTask.RowWarningsZero | dumper/app/src/main/java/com/google/edwmigration/dumper/application/dumper/task/AbstractJdbcTask.java:166-170 | A row logs no warning exactly when none of its values has a null `toString`. |
| JdbcTask.WarnedValueIsEmptyField | dumper/app/src/main/java/com/google/edwmigration/dumper/application/dumper/task/AbstractJdbcTask.java:166-170 | A value that triggers the warning is still written, as an empty field, so the row is not aborted. |
| JdbcTask.Cursor.Next | dumper/app/src/main/java/com/google/edwmigration/dumper/application/dumper/task/AbstractJdbcTask.java:157 | `next()` advances exactly when a row remains, and reports whether it did. |
| JdbcTask.PrintRow | dumper/app/src/main/java/com/google/edwmigration/dumper/application/dumper/task/AbstractJdbcTask.java:159-175 | The body of the cursor loop leaves the current record equal to the rendering of the current row, column by column. It adds one warning per value whose `toString` is null. |
| JdbcTask.PrintAllResults | dumper/app/src/main/java/com/google/edwmigration/dumper/application/dumper/task/AbstractJdbcTask.java:151-178 | If the format fails, its error is returned and nothing changes. Otherwise the sink gains the header record (unless skipped) and then one record per remaining row. The monitor is counted once per row, one warning is logged per null `toString`, and the cursor ends after the last row. |
| JdbcTask.NewCsvResultSetExtractor | dumper/app/src/main/java/com/google/edwmigration/dumper/application/dumper/task/AbstractJdbcTask.java:126-149 | Both overloads: the returned `Summary` count equals the number of rows written after the header. A format error is returned with the sink untouched. |
| JdbcTask.SetParameterValues | dumper/app/src/main/java/com/google/edwmigration/dumper/application/dumper/task/AbstractJdbcTask.java:199-204 | Argument i is bound to parameter i + 1, in order, stopping at the first bind that throws. The outcome passes exactly when no bind throws, and otherwise names the failing bind. |
| JdbcTask.StepsLayout | dumper/app/src/main/java/com/google/edwmigration/dumper/application/dumper/task/AbstractJdbcTask.java:248-277 | The calls made while nothing throws are, in order: autocommit off, prepare, one bind per argument, fetch size 16384, execute, get result set, extract. |
| JdbcTask.ExitAtAutoCommit | dumper/app/src/main/java/com/google/edwmigration/dumper/application/dumper/task/AbstractJdbcTask.java:248 | If turning autocommit off throws, that call is the whole trace and its exception propagates. |
| JdbcTask.ExitAtPrepare | dumper/app/src/main/java/com/google/edwmigration/dumper/application/dumper/task/AbstractJdbcTask.java:251-253 | If preparing throws, there is no statement to close and nothing is released. |
| JdbcTask.ExitAtBind | dumper/app/src/main/java/com/google/edwmigration/dumper/application/dumper/task/AbstractJdbcTask.java:254 | If a bind throws, the statement is closed right after the failing bind and that bind's exception propagates. |
| JdbcTask.ExitAfterBinds | dumper/app/src/main/java/com/google/edwmigration/dumper/application/dumper/task/AbstractJdbcTask.java:259-281 | A failure in setting the fetch size, executing, getting the result set or extracting leaves the calls up to it. The result set is closed only when it was obtained, and the statement is closed last. |
| JdbcTask.ExitAtFetchSize | dumper/app/src/main/java/com/google/edwmigration/dumper/application/dumper/task/AbstractJdbcTask.java:259 | If setting the fetch size throws, the statement is closed next. |
| JdbcTask.ExitAtExecute | dumper/app/src/main/java/com/google/edwmigration/dumper/application/dumper/task/AbstractJdbcTask.java:267 | If execution throws, the statement is closed next. |
| JdbcTask.ExitAtGetResultSet | dumper/app/src/main/java/com/google/edwmigration/dumper/application/dumper/task/AbstractJdbcTask.java:276 | If getting the result set throws, no result set is closed, but the statement is. |
| JdbcTask.ExitAtExtract | dumper/app/src/main/java/com/google/edwmigration/dumper/application/dumper/task/AbstractJdbcTask.java:277-281 | If extraction throws, the result set is closed in the inner `finally`, then the statement. |
| JdbcTask.SelectTraceCompleted | dumper/app/src/main/java/com/google/edwmigration/dumper/application/dumper/task/AbstractJdbcTask.java:272-298 | Without a failure, the result set is closed, the warning chain is read and each warning logged, then the statement is closed. A throwing `getWarnings` skips the logging and propagates. |
| JdbcTask.ExitCompleted | dumper/app/src/main/java/com/google/edwmigration/dumper/application/dumper/task/AbstractJdbcTask.java:272-298 | The completed call sequence, in the shape `doSelect` builds it. |
| JdbcTask.LogWarnings | dumper/app/src/main/java/com/google/edwmigration/dumper/application/dumper/task/AbstractJdbcTask.java:283-293 | The warning chain is read once and each warning is logged in chain order. A throwing `getWarnings` logs nothing. |
| JdbcTask.BindAndExecute | dumper/app/src/main/java/com/google/edwmigration/dumper/application/dumper/task/AbstractJdbcTask.java:254-270 | Binds, then sets the fetch size, then executes, stopping at the first call that throws and reporting it. |
| JdbcTask.ExtractResult | dumper/app/src/main/java/com/google/edwmigration/dumper/application/dumper/task/AbstractJdbcTask.java:272-281 | Gets the result set and extracts. The result set is closed exactly when it was obtained, after extraction whether or not extraction threw. |
| JdbcTask.RunStatement | dumper/app/src/main/java/com/google/edwmigration/dumper/application/dumper/task/AbstractJdbcTask.java:254-295 | Once the statement is prepared, the calls made, with the final close appended, are exactly the reference call sequence. The result is the reference result. |
| JdbcTask.DoSelect | dumper/app/src/main/java/com/google/edwmigration/dumper/application/dumper/task/AbstractJdbcTask.java:230-299 | The calls made are exactly the reference call sequence: the steps up to the first that throws, then the releases. The result is the extracted value or the first exception. |
| JdbcTask.StatementReleasedLast | dumper/app/src/main/java/com/google/edwmigration/dumper/application/dumper/task/AbstractJdbcTask.java:238-298 | Once preparation succeeded, the last call closes the statement and no earlier call does. When preparation did not succeed, nothing is closed. |
| JdbcTask.ResultSetReleasedFirst | dumper/app/src/main/java/com/google/edwmigration/dumper/application/dumper/task/AbstractJdbcTask.java:272-281 | The result set is closed exactly when it was obtained, once, right after extraction and before the statement is closed. Otherwise it is never closed. |
| JdbcTask.SelectSucceedsIffNoFailure | dumper/app/src/main/java/com/google/edwmigration/dumper/application/dumper/task/AbstractJdbcTask.java:230-299 | `doSelect` returns the extracted value exactly when no step and no warning read throws. |
| Base64.Encode | dumper/app/src/main/java/com/google/edwmigration/dumper/application/dumper/task/AbstractJdbcTask.java:183 | Basic Base64 with padding: 4·⌈n/3⌉ characters, from the alphabet of section 4 of RFC 4648. A pad `=` appears only in the last two positions. DecodeCanonical fixes the rest, including zero pad bits. |
| Base64.RoundTrip | dumper/app/src/main/java/com/google/edwmigration/dumper/application/dumper/task/AbstractJdbcTask.java:183 | The reference decoder, which rejects non-zero pad bits as section 3.5 of RFC 4648 asks, gives back the original bytes of every encoding. |
| Base64.DecodeCanonical | dumper/app/src/main/java/com/google/edwmigration/dumper/application/dumper/task/AbstractJdbcTask.java:183 | Any text that decodes to some bytes is exactly the encoding of those bytes. With RoundTrip, the text is determined by the bytes, with zero pad bits. |
| Base64.NonZeroPadBitsRejected | dumper/app/src/main/java/com/google/edwmigration/dumper/application/dumper/task/AbstractJdbcTask.java:183 | "AB==", whose pad bits are not zero, stands for no byte array. |
| Base64.EncodeInjective | dumper/app/src/main/java/com/google/edwmigration/dumper/application/dumper/task/AbstractJdbcTask.java:183 | Different byte arrays never share an encoding. |
| Base64.ExampleBytes | dumper/app/src/main/java/com/google/edwmigration/dumper/application/dumper/task/AbstractJdbcTask.java:183 | 0x00 0x7F 0xFF is written as "AH//" and decodes back. |
| Text.JoinLength | dumper/app/src/main/java/com/google/edwmigration/dumper/application/dumper/connector/snowflake/SnowflakeTaskUtil.java:50 | Joining k > 0 parts adds exactly k − 1 separators and nothing else. |
| Text.JoinSnoc | dumper/app/src/main/java/com/google/edwmigration/dumper/application/dumper/connector/snowflake/SnowflakeTaskUtil.java:50 | Appending a part to a join appends one separator and the part. |
| Text.DecimalRoundTrip | dumper/app/src/main/java/com/google/edwmigration/dumper/application/dumper/task/TaskGroup.java:73 | The decimal text of a count reads back as the count. |
| Text.NatToStringInjective | dumper/app/src/main/java/com/google/edwmigration/dumper/application/dumper/task/TaskGroup.java:73 | Different counts print differently. |
| Text.TrimSpec | dumper/app/src/main/java/com/google/edwmigration/dumper/application/dumper/connector/teradata/TeradataUtils.java:44-46 | `trim` removes exactly a maximal prefix and a maximal suffix of characters ≤ U+0020, and keeps the middle contiguous. |
| Text.TrimIdentity | dumper/app/src/main/java/com/google/edwmigration/dumper/application/dumper/connector/teradata/TeradataUtils.java:45 | A string whose ends are not trimmable is unchanged by `trim`. |
| Text.ToUpperAscii | dumper/app/src/main/java/com/google/edwmigration/dumper/application/dumper/connector/teradata/TeradataUtils.java:62 | Upper-casing keeps the length, leaves no lowercase ASCII letter, maps each lowercase letter to its uppercase partner and keeps every other character. |
| Tasks.TaskRunContext.RunChildTask | dumper/app/src/main/java/com/google/edwmigration/dumper/application/dumper/task/TaskGroup.java:54 | Running a child records some state for it. No other task's state changes, and the run is appended to the history. |
| Tasks.TaskRunContext.GetTaskState | dumper/app/src/main/java/com/google/edwmigration/dumper/application/dumper/task/TaskGroup.java:55 | The state recorded for the task, or none for a task never run. |
| Tasks.TaskGroup.constructor | dumper/app/src/main/java/com/google/edwmigration/dumper/application/dumper/task/TaskGroup.java:40-43 | The group keeps the given list of children. |
| Tasks.TaskGroup.FromArray | dumper/app/src/main/java/com/google/edwmigration/dumper/application/dumper/task/TaskGroup.java:36-38 | The group copies the array's contents, so later writes to the array do not reach it. |
| Tasks.TaskGroup.DoRun | dumper/app/src/main/java/com/google/edwmigration/dumper/application/dumper/task/TaskGroup.java:50-58 | Each child is run through the context exactly once, in list order. Record i pairs child i with the state the context held right after child i ran, so there is one record per child, in order. The earlier history is kept as a prefix, states are added only for the children, and no other task's state changes. |
| Tasks.TaskGroup.Run | dumper/app/src/main/java/com/google/edwmigration/dumper/application/dumper/task/TaskGroup.java:60-69 | Prints the records of the inner `doRun` through a fresh printer. The group itself contributes no result. The earlier history is kept as a prefix, and no other task's state changes. |
| Tasks.SummaryRecords | dumper/app/src/main/java/com/google/edwmigration/dumper/application/dumper/task/TaskGroup.java:53-57 | One record per run. |
| Tasks.SummaryRecordsAt | dumper/app/src/main/java/com/google/edwmigration/dumper/application/dumper/task/TaskGroup.java:54-56 | Record i names run i's task and carries the state recorded by that run. |
| Tasks.TaskGroup.ToString | dumper/app/src/main/java/com/google/edwmigration/dumper/application/dumper/task/TaskGroup.java:71-74 | `toString` is "TaskGroup(", the child count in decimal digits without leading zeros, then " children)". The count reads back from the digits. |
| Tasks.ToStringDistinguishesSizes | dumper/app/src/main/java/com/google/edwmigration/dumper/application/dumper/task/TaskGroup.java:71-74 | Groups with different child counts never print the same. |
| TeradataUtils.CollapseWhitespace | dumper/app/src/main/java/com/google/edwmigration/dumper/application/dumper/connector/teradata/TeradataUtils.java:45 | After `replaceAll("\\s+", " ")`, the only `\s` character left is the space and no two spaces are adjacent. The result starts with a space exactly when the input starts with `\s`. CollapseRun, CollapseIdentity and CollapseAppend fix the exact result. |
| TeradataUtils.CollapseRun | dumper/app/src/main/java/com/google/edwmigration/dumper/application/dumper/connector/teradata/TeradataUtils.java:45 | A non-empty run of `\s` characters becomes one space. |
| TeradataUtils.CollapseWord | dumper/app/src/main/java/com/google/edwmigration/dumper/application/dumper/connector/teradata/TeradataUtils.java:45 | Text without `\s` or other characters ≤ U+0020 is left unchanged. |
| TeradataUtils.CollapseIdentity | dumper/app/src/main/java/com/google/edwmigration/dumper/application/dumper/connector/teradata/TeradataUtils.java:45 | Text whose only `\s` characters are single spaces, none adjacent, is left unchanged, whatever other control characters it holds. |
| TeradataUtils.CollapseAppend | dumper/app/src/main/java/com/google/edwmigration/dumper/application/dumper/connector/teradata/TeradataUtils.java:45 | Collapsing works piece by piece wherever the join is not inside a run of `\s`. Any text splits into maximal `\s` runs, each collapsed by CollapseRun, and stretches without `\s`, each kept by CollapseIdentity, so this gives the result on any text. |
| TeradataUtils.FormatQuery | dumper/app/src/main/java/com/google/edwmigration/dumper/application/dumper/connector/teradata/TeradataUtils.java:28-46 | After `formatQuery`, only plain single spaces remain. No space follows "(" or precedes ")", neither end is trimmable, and the characters above U+0020 are exactly those of the input, in order. For queries whose characters other than `\s` are all above U+0020, FormatQueryLayout gives the exact result; an already formatted query is returned unchanged (FormattedFixed). |
| TeradataUtils.DropSpaceAfterOpenAppend | dumper/app/src/main/java/com/google/edwmigration/dumper/application/dumper/connector/teradata/TeradataUtils.java:45 | Removing "( " works piece by piece unless the join falls between "(" and a space. |
| TeradataUtils.DropSpaceBeforeCloseAppend | dumper/app/src/main/java/com/google/edwmigration/dumper/application/dumper/connector/teradata/TeradataUtils.java:45 | Removing " )" works piece by piece unless the join falls between a space and ")". |
| TeradataUtils.PassesCons | dumper/app/src/main/java/com/google/edwmigration/dumper/application/dumper/connector/teradata/TeradataUtils.java:45 | The first three replacements turn a word followed by a run of whitespace into the word, then one space unless it sits after "(" or before ")" or ends the text, then the rest treated the same way. |
| TeradataUtils.PassesLayout | dumper/app/src/main/java/com/google/edwmigration/dumper/application/dumper/connector/teradata/TeradataUtils.java:45 | On words separated by runs of whitespace, the first three replacements give the words joined by single spaces, with no space after "(" or before ")", plus at most one trailing space. |
| TeradataUtils.FormatQueryLayout | dumper/app/src/main/java/com/google/edwmigration/dumper/application/dumper/connector/teradata/TeradataUtils.java:44-46 | A query made of leading whitespace and words separated by runs of `\s`, where a word is a non-empty stretch of characters all above U+0020, formats to exactly its words joined by one space, except that no space is put after "(" or before ")". |
| TeradataUtils.FormatTwoWords | dumper/app/src/main/java/com/google/edwmigration/dumper/application/dumper/connector/teradata/TeradataUtils.java:44-46 | Two words separated by any run of whitespace format to the words with one space between them, when the first does not end with "(" and the second does not start with ")". |
| TeradataUtils.GlueAppend | dumper/app/src/main/java/com/google/edwmigration/dumper/application/dumper/connector/teradata/TeradataUtils.java:44-46 | The joined text of two lists of words is the first joined text, the separator between the last word of the first and the first word of the second, then the second joined text. |
| TeradataUtils.CollapseVisible | dumper/app/src/main/java/com/google/edwmigration/dumper/application/dumper/connector/teradata/TeradataUtils.java:28-46 | Collapsing whitespace keeps every character above U+0020, in order. |
| TeradataUtils.DropSpaceAfterOpenVisible | dumper/app/src/main/java/com/google/edwmigration/dumper/application/dumper/connector/teradata/TeradataUtils.java:28-46 | Removing the space after "(" keeps every character above U+0020. |
| TeradataUtils.DropSpaceBeforeCloseVisible | dumper/app/src/main/java/com/google/edwmigration/dumper/application/dumper/connector/teradata/TeradataUtils.java:28-46 | Removing the space before ")" keeps every character above U+0020. |
| TeradataUtils.TrimVisible | dumper/app/src/main/java/com/google/edwmigration/dumper/application/dumper/connector/teradata/TeradataUtils.java:28-46 | `trim` keeps every character above U+0020. |
| TeradataUtils.DropSpaceAfterOpenShape | dumper/app/src/main/java/com/google/edwmigration/dumper/application/dumper/connector/teradata/TeradataUtils.java:28-46 | On collapsed text, removing the space after "(" keeps the spacing invariants and leaves no space after "(". |
| TeradataUtils.DropSpaceBeforeCloseShape | dumper/app/src/main/java/com/google/edwmigration/dumper/application/dumper/connector/teradata/TeradataUtils.java:28-46 | Removing the space before ")" keeps the earlier invariants and leaves no space before ")", including with nested parentheses. |
| TeradataUtils.TrimShape | dumper/app/src/main/java/com/google/edwmigration/dumper/application/dumper/connector/teradata/TeradataUtils.java:28-46 | Trimming keeps the spacing invariants and leaves no trimmable end. |
| TeradataUtils.FormatQueryIdempotent | dumper/app/src/main/java/com/google/edwmigration/dumper/application/dumper/connector/teradata/TeradataUtils.java:28-46 | Formatting a formatted query changes nothing. |
| TeradataUtils.FormattedFixed | dumper/app/src/main/java/com/google/edwmigration/dumper/application/dumper/connector/teradata/TeradataUtils.java:44-46 | A query that is already formatted, control characters other than `\s` included, comes back unchanged. |
| TeradataUtils.FormatQueryKeepsControl | dumper/app/src/main/java/com/google/edwmigration/dumper/application/dumper/connector/teradata/TeradataUtils.java:44-46 | "a", U+0001, " b" formats to itself: U+0001 is neither `\s` nor at an end. |
| TeradataUtils.FormatQueryBlankExamples | dumper/app/src/test/java/com/google/edwmigration/dumper/application/dumper/connector/teradata/TeradataUtilsTest.java:65-77 | "" and " " both format to "". |
| TeradataUtils.FormatQuerySingleSpace | dumper/app/src/test/java/com/google/edwmigration/dumper/application/dumper/connector/teradata/TeradataUtilsTest.java:71-77 | " " formats to "". |
| TeradataUtils.FormatQuerySelectOne | dumper/app/src/test/java/com/google/edwmigration/dumper/application/dumper/connector/teradata/TeradataUtilsTest.java:79-84 | "  SELECT      1     " formats to "SELECT 1". |
| TeradataUtils.FormatQuerySelectParens | dumper/app/src/test/java/com/google/edwmigration/dumper/application/dumper/connector/teradata/TeradataUtilsTest.java:86-91 | "  SELECT  ( 2 + N )     " formats to "SELECT (2 + N)". |
| TeradataUtils.FormatQuerySelectNested | dumper/app/src/test/java/com/google/edwmigration/dumper/application/dumper/connector/teradata/TeradataUtilsTest.java:93-99 | The query with three nested parentheses formats to "SELECT (2 + N + (3 + N + (N + N)))". Both strings are written as the concatenation of four literals. |
| TeradataUtils.DetermineTransactionMode | dumper/app/src/main/java/com/google/edwmigration/dumper/application/dumper/connector/teradata/TeradataUtils.java:56-73 | An absent mode gives ANSI. A given mode is trimmed and upper-cased. If it is not one of ANSI, TERA, DEFAULT and NONE, the usage error quotes the input as given. NONE gives no mode, and any other valid mode is returned in normalised form. |
| TeradataUtils.NormaliseValid | dumper/app/src/main/java/com/google/edwmigration/dumper/application/dumper/connector/teradata/TeradataUtils.java:62 | A valid mode name is already in normal form. |
| TeradataUtils.ValidModeReturned | dumper/app/src/main/java/com/google/edwmigration/dumper/application/dumper/connector/teradata/TeradataUtils.java:72 | A valid mode other than NONE is returned unchanged. |
| TeradataUtils.TransactionModeStable | dumper/app/src/main/java/com/google/edwmigration/dumper/application/dumper/connector/teradata/TeradataUtils.java:56-73 | A determined mode, given back as input, determines itself. |
| TeradataUtils.TransactionModeNormalises | dumper/app/src/main/java/com/google/edwmigration/dumper/application/dumper/connector/teradata/TeradataUtils.java:61-72 | " tera " gives TERA, and "none" gives no mode. |
| TeradataUtils.UnsupportedModeExample | dumper/app/src/test/java/com/google/edwmigration/dumper/application/dumper/connector/teradata/TeradataUtilsTest.java:123-133 | "fast" is rejected with the message listing "ANSI, TERA, DEFAULT, NONE". |
| TeradataUtils.TransactionModeExamples | dumper/app/src/test/java/com/google/edwmigration/dumper/application/dumper/connector/teradata/TeradataUtilsTest.java:101-147 | TERA, ANSI and DEFAULT are returned as given, NONE gives no mode, and no mode gives ANSI. |
| TeradataUtils.TimestampExpression | dumper/app/src/main/java/com/google/edwmigration/dumper/application/dumper/connector/teradata/TeradataUtils.java:83-94 | An empty column name is rejected first, then a present but empty alias, each with its message. Otherwise the result is the optionally alias-qualified column, the UTC conversion, and the column name in double quotes. |
| TeradataUtils.AliasQualifiesPlainExpression | dumper/app/src/main/java/com/google/edwmigration/dumper/application/dumper/connector/teradata/TeradataUtils.java:75-81 | The two-argument overload is the one-argument result with "alias." in front. |
| TeradataUtils.TimestampExpressionExamples | dumper/app/src/test/java/com/google/edwmigration/dumper/application/dumper/connector/teradata/TeradataUtilsTest.java:31-63 | The four expectations of the tests for the timestamp expression. |
| RedshiftUsageMetrics.GetDatapointValue | dumper/app/src/main/java/com/google/edwmigration/dumper/application/dumper/connector/redshift/RedshiftClusterUsageMetricsTask.java:171-178 | The average statistic is the datapoint's average. |
| RedshiftUsageMetrics.ToMetricDataPoints | dumper/app/src/main/java/com/google/edwmigration/dumper/application/dumper/connector/redshift/RedshiftClusterUsageMetricsTask.java:161-168 | One point per fetched datapoint, in order, at its timestamp, with the configured statistic as its value and the metric configuration attached. |
| RedshiftUsageMetrics.MetricDataPointInstants | dumper/app/src/main/java/com/google/edwmigration/dumper/application/dumper/connector/redshift/RedshiftClusterUsageMetricsTask.java:161-168 | The series has a point at exactly the fetched timestamps. |
| RedshiftUsageMetrics.MetricDataPointsPresent | dumper/app/src/main/java/com/google/edwmigration/dumper/application/dumper/connector/redshift/RedshiftClusterUsageMetricsTask.java:161-168 | No point has a null value exactly when every fetched datapoint has an average. |
| RedshiftUsageMetrics.MetricDataPeriod | dumper/app/src/main/java/com/google/edwmigration/dumper/application/dumper/connector/redshift/RedshiftClusterUsageMetricsTask.java:195-204 | 60 s exactly when the start is after now − 14 days. 300 s exactly when it is after now − 62 days but not after now − 14 days. 3600 s otherwise. |
| RedshiftUsageMetrics.PeriodMonotonic | dumper/app/src/main/java/com/google/edwmigration/dumper/application/dumper/connector/redshift/RedshiftClusterUsageMetricsTask.java:195-204 | An older start never gets a finer period. |
| RedshiftUsageMetrics.PeriodCoarsensWithTime | dumper/app/src/main/java/com/google/edwmigration/dumper/application/dumper/connector/redshift/RedshiftClusterUsageMetricsTask.java:195-204 | For a fixed start, a later "now" never gives a finer period. |
| RedshiftUsageMetrics.InstantsMember | dumper/app/src/main/java/com/google/edwmigration/dumper/application/dumper/connector/redshift/RedshiftClusterUsageMetricsTask.java:130-138 | An instant belongs to a series exactly when some point carries it. |
| RedshiftUsageMetrics.LastPresence | dumper/app/src/main/java/com/google/edwmigration/dumper/application/dumper/connector/redshift/RedshiftClusterUsageMetricsTask.java:130-138 | A series has a last value at exactly its own instants. |
| RedshiftUsageMetrics.LastValueWins | dumper/app/src/main/java/com/google/edwmigration/dumper/application/dumper/connector/redshift/RedshiftClusterUsageMetricsTask.java:130-138 | Within one series, the point with no later point at the same instant supplies the value. |
| RedshiftUsageMetrics.LastIsFinal | dumper/app/src/main/java/com/google/edwmigration/dumper/application/dumper/connector/redshift/RedshiftClusterUsageMetricsTask.java:130-138 | Conversely, the point chosen is one that no later point at its instant follows. |
| RedshiftUsageMetrics.CellPadding | dumper/app/src/main/java/com/google/edwmigration/dumper/application/dumper/connector/redshift/RedshiftClusterUsageMetricsTask.java:130-138 | A series that lacks an instant contributes "" there. |
| RedshiftUsageMetrics.CellValue | dumper/app/src/main/java/com/google/edwmigration/dumper/application/dumper/connector/redshift/RedshiftClusterUsageMetricsTask.java:130-138 | A series with no null value contributes, at each of its instants, the text of its last value there. |
| RedshiftUsageMetrics.SortedSeqSpec | dumper/app/src/main/java/com/google/edwmigration/dumper/application/dumper/connector/redshift/RedshiftClusterUsageMetricsTask.java:140 | The key order lists every key once, nothing else, in strictly ascending order. |
| RedshiftUsageMetrics.TreeMap.Put | dumper/app/src/main/java/com/google/edwmigration/dumper/application/dumper/connector/redshift/RedshiftClusterUsageMetricsTask.java:130-138 | `put` maps the key to the value and changes nothing else. |
| RedshiftUsageMetrics.TreeMap.PutIfAbsent | dumper/app/src/main/java/com/google/edwmigration/dumper/application/dumper/connector/redshift/RedshiftClusterUsageMetricsTask.java:130-138 | `putIfAbsent` adds the key only when it is missing. |
| RedshiftUsageMetrics.TreeMap.Get | dumper/app/src/main/java/com/google/edwmigration/dumper/application/dumper/connector/redshift/RedshiftClusterUsageMetricsTask.java:141-142 | `get` is the value at the key, or null for a missing key. |
| RedshiftUsageMetrics.TreeMap.KeySet | dumper/app/src/main/java/com/google/edwmigration/dumper/application/dumper/connector/redshift/RedshiftClusterUsageMetricsTask.java:140 | Iterates the keys in ascending order, each once. |
| RedshiftUsageMetrics.CsvRecordWriter.HandleRecord | dumper/app/src/main/java/com/google/edwmigration/dumper/application/dumper/connector/redshift/RedshiftClusterUsageMetricsTask.java:143 | Appends exactly one record. |
| RedshiftUsageMetrics.FillCpu | dumper/app/src/main/java/com/google/edwmigration/dumper/application/dumper/connector/redshift/RedshiftClusterUsageMetricsTask.java:130-133 | The first loop passes exactly when no CPU value is null. The CPU map then holds each instant's last CPU value, and the disk map holds "" at each CPU instant. |
| RedshiftUsageMetrics.FillDisk | dumper/app/src/main/java/com/google/edwmigration/dumper/application/dumper/connector/redshift/RedshiftClusterUsageMetricsTask.java:135-138 | The second loop passes exactly when no disk value is null. The CPU map then holds "" at each disk-only instant beneath the CPU values. The disk map holds the disk values over "" at the CPU instants. |
| RedshiftUsageMetrics.CpuAfterDisk | dumper/app/src/main/java/com/google/edwmigration/dumper/application/dumper/connector/redshift/RedshiftClusterUsageMetricsTask.java:130-138 | After both loops, the CPU map is defined at every instant of either series and holds the CPU field there. |
| RedshiftUsageMetrics.DiskAfterDisk | dumper/app/src/main/java/com/google/edwmigration/dumper/application/dumper/connector/redshift/RedshiftClusterUsageMetricsTask.java:130-138 | After both loops, the disk map is defined at every instant of either series and holds the disk field there. A disk `put` overwrites the placeholder. |
| RedshiftUsageMetrics.EmitRows | dumper/app/src/main/java/com/google/edwmigration/dumper/application/dumper/connector/redshift/RedshiftClusterUsageMetricsTask.java:140-144 | One record per key, in key order: cluster id, formatted key, and the two maps' values at the key. |
| RedshiftUsageMetrics.WriteCluster | dumper/app/src/main/java/com/google/edwmigration/dumper/application/dumper/connector/redshift/RedshiftClusterUsageMetricsTask.java:126-145 | Writes exactly the merged rows when no value is null. Otherwise it throws and writes nothing. |
| RedshiftUsageMetrics.MergedRowsSpec | dumper/app/src/main/java/com/google/edwmigration/dumper/application/dumper/connector/redshift/RedshiftClusterUsageMetricsTask.java:127-144 | The merged rows are one per instant of either series, in strictly ascending instant order. Each is (cluster id, formatted instant, CPU field, disk field). |
| RedshiftUsageMetrics.ExactlyOneRowPerInstant | dumper/app/src/main/java/com/google/edwmigration/dumper/application/dumper/connector/redshift/RedshiftClusterUsageMetricsTask.java:127-144 | Every instant of either series appears in exactly one row. |
| RedshiftUsageMetrics.RowFields | dumper/app/src/main/java/com/google/edwmigration/dumper/application/dumper/connector/redshift/RedshiftClusterUsageMetricsTask.java:131-143 | An instant missing from one series gets "" for that series. An instant in a series gets that series' last real value, so an instant in both gets both values. |
| RedshiftUsageMetrics.FirstUnwritable | dumper/app/src/main/java/com/google/edwmigration/dumper/application/dumper/connector/redshift/RedshiftClusterUsageMetricsTask.java:118-121 | The count of clusters written before the first whose series hold a null value. That cluster, if any, cannot be written. |
| RedshiftUsageMetrics.FirstUnwritableAt | dumper/app/src/main/java/com/google/edwmigration/dumper/application/dumper/connector/redshift/RedshiftClusterUsageMetricsTask.java:118-121 | The first cluster that cannot be written, with every earlier one writable, is the one counted. |
| RedshiftUsageMetrics.FirstUnwritableSpec | dumper/app/src/main/java/com/google/edwmigration/dumper/application/dumper/connector/redshift/RedshiftClusterUsageMetricsTask.java:118-121 | Every cluster before the count can be written. |
| RedshiftUsageMetrics.ClusterRowsAppend | dumper/app/src/main/java/com/google/edwmigration/dumper/application/dumper/connector/redshift/RedshiftClusterUsageMetricsTask.java:119-121 | The rows of two runs of clusters are the rows of the first run followed by those of the second. |
| RedshiftUsageMetrics.ClusterRowsName | dumper/app/src/main/java/com/google/edwmigration/dumper/application/dumper/connector/redshift/RedshiftClusterUsageMetricsTask.java:118-144 | Every row written has four fields, and its first field names one of the clusters. |
| RedshiftUsageMetrics.DoRun | dumper/app/src/main/java/com/google/edwmigration/dumper/application/dumper/connector/redshift/RedshiftClusterUsageMetricsTask.java:112-124 | Calls `writeCluster` once per cluster, in API order, until one throws. The records are the clusters' merged rows in that order. The run succeeds exactly when no cluster throws. |
| RedshiftUsageMetrics.WriteNext | dumper/app/src/main/java/com/google/edwmigration/dumper/application/dumper/connector/redshift/RedshiftClusterUsageMetricsTask.java:119-121 | One pass of the cluster loop: either the cluster's rows are appended, or it is the first that throws and nothing is written. |
| RangerHiveMapper.AnyMatchesSpec | permissions-migration/app/src/main/java/com/google/edwmigration/permissions/commands/buildcommand/AbstractRangerHiveToIamBindingMapper.java:84-95 | The negated `noneMatch` holds exactly when some value is `*` or equals the name. |
| RangerHiveMapper.Mapper.PolicyMatchesTable | permissions-migration/app/src/main/java/com/google/edwmigration/permissions/commands/buildcommand/AbstractRangerHiveToIamBindingMapper.java:76-100 | A policy matches a table exactly when some database value is `*` or the schema name and some table value is `*` or the table name. |
| RangerHiveMapper.EmptyResourceNeverMatches | permissions-migration/app/src/main/java/com/google/edwmigration/permissions/commands/buildcommand/AbstractRangerHiveToIamBindingMapper.java:84-98 | A present resource with no values never matches. |
| RangerHiveMapper.NoPartialWildcard | permissions-migration/app/src/main/java/com/google/edwmigration/permissions/commands/buildcommand/AbstractRangerHiveToIamBindingMapper.java:79-85 | A value such as "sales*" matches only a name spelled exactly so. Wildcards are not expanded. |
| RangerHiveMapper.MissingResourcesUseDefault | permissions-migration/app/src/main/java/com/google/edwmigration/permissions/commands/buildcommand/AbstractRangerHiveToIamBindingMapper.java:84-95 | A policy without database and table entries is judged on the inherited values. |
| RangerHiveMapper.WildcardMatchesAll | permissions-migration/app/src/main/java/com/google/edwmigration/permissions/commands/buildcommand/AbstractRangerHiveToIamBindingMapper.java:84-99 | `*` for both database and table matches every table. |
| RangerHiveMapper.AllowedTypesMember | permissions-migration/app/src/main/java/com/google/edwmigration/permissions/commands/buildcommand/AbstractRangerHiveToIamBindingMapper.java:104-108 | An access type is collected exactly when some allowed access has it. |
| RangerHiveMapper.Mapper.GetRoleForAccesses | permissions-migration/app/src/main/java/com/google/edwmigration/permissions/commands/buildcommand/AbstractRangerHiveToIamBindingMapper.java:102-116 | Any allowed write-kind access gives the write role, even next to read accesses. Without one, an allowed `select` or `read` gives the read role. With neither there is no role (both directions). |
| RangerHiveMapper.AllowedTypesMeet | permissions-migration/app/src/main/java/com/google/edwmigration/permissions/commands/buildcommand/AbstractRangerHiveToIamBindingMapper.java:104-115 | The collected access types meet a set of kinds exactly when some allowed access has a type of that set. |
| RangerHiveMapper.DisallowedAccessIgnored | permissions-migration/app/src/main/java/com/google/edwmigration/permissions/commands/buildcommand/AbstractRangerHiveToIamBindingMapper.java:104-108 | Inserting a disallowed access never changes the role. |
| RangerHiveMapper.RoleIgnoresOrder | permissions-migration/app/src/main/java/com/google/edwmigration/permissions/commands/buildcommand/AbstractRangerHiveToIamBindingMapper.java:104-116 | The role does not depend on the order in which accesses are listed. |
| RangerHiveMapper.WriteBeatsRead | permissions-migration/app/src/main/java/com/google/edwmigration/permissions/commands/buildcommand/AbstractRangerHiveToIamBindingMapper.java:45-115 | Allowed `all` with `select` gives the write role. A disallowed `all` with `select` gives the read role. `execute` alone gives none. |
| SnowflakeTaskUtil.KeptAppend | dumper/app/src/main/java/com/google/edwmigration/dumper/application/dumper/connector/snowflake/SnowflakeTaskUtil.java:46 | The filter works part by part, so the kept conditions keep their input order. |
| SnowflakeTaskUtil.KeptMembers | dumper/app/src/main/java/com/google/edwmigration/dumper/application/dumper/connector/snowflake/SnowflakeTaskUtil.java:46 | A condition is kept exactly when it is present and not empty. Whitespace-only conditions are kept. |
| SnowflakeTaskUtil.KeptEmptyIff | dumper/app/src/main/java/com/google/edwmigration/dumper/application/dumper/connector/snowflake/SnowflakeTaskUtil.java:46-47 | Nothing is kept exactly when every condition is null or empty. |
| SnowflakeTaskUtil.GetWhereClause | dumper/app/src/main/java/com/google/edwmigration/dumper/application/dumper/connector/snowflake/SnowflakeTaskUtil.java:44-51 | The clause is "" exactly when every condition is null or empty. Otherwise it is " WHERE " followed by the kept conditions joined with " AND ". |
| SnowflakeTaskUtil.WhereClauseExample | dumper/app/src/main/java/com/google/edwmigration/dumper/application/dumper/connector/snowflake/SnowflakeTaskUtil.java:44-51 | A blank condition survives, while null and empty ones are dropped. |
| SnowflakeTaskUtil.Format | dumper/app/src/main/java/com/google/edwmigration/dumper/application/dumper/connector/snowflake/SnowflakeTaskUtil.java:40 | `String.format` fails exactly when the format has more `%s` slots than arguments, naming the first missing one. |
| SnowflakeTaskUtil.FormatTwoSlots | dumper/app/src/main/java/com/google/edwmigration/dumper/application/dumper/connector/snowflake/SnowflakeTaskUtil.java:40 | With two slots, the first argument fills the first slot and the second argument the second. |
| SnowflakeTaskUtil.WithFilter | dumper/app/src/main/java/com/google/edwmigration/dumper/application/dumper/connector/snowflake/SnowflakeTaskUtil.java:34-42 | Succeeds exactly when the format has at most two slots. The task then writes to the given zip entry with the given header class and no header transformer. |
| SnowflakeTaskUtil.WithFilterTwoSlots | dumper/app/src/main/java/com/google/edwmigration/dumper/application/dumper/connector/snowflake/SnowflakeTaskUtil.java:40-41 | With two slots, the query is the format with the schema name in the first slot and the WHERE clause in the second. |
| SnowflakeTaskUtil.WithFilterUnconditioned | dumper/app/src/main/java/com/google/edwmigration/dumper/application/dumper/connector/snowflake/SnowflakeTaskUtil.java:40-48 | With no usable condition, the second slot is left empty. |
| Connector.ValidateDateRange | dumper/app/src/main/java/com/google/edwmigration/dumper/application/dumper/connector/Connector.java:55-72 | The range is accepted exactly when both dates are absent, or both are present with start strictly before end. Start without end gives the null-pointer failure with its message. A start not before the end gives the illegal-state failure quoting both dates. An end without a start gives the illegal-state failure with its message. |
| Connector.EqualDatesRejected | dumper/app/src/main/java/com/google/edwmigration/dumper/application/dumper/connector/Connector.java:62-66 | Equal start and end dates are rejected. |
| Connector.OrderMessageQuotesDates | dumper/app/src/main/java/com/google/edwmigration/dumper/application/dumper/connector/Connector.java:64-66 | The order message quotes the start date first and the end date second. |
| Connector.Validate | dumper/app/src/main/java/com/google/edwmigration/dumper/application/dumper/connector/Connector.java:53 | The default `validate` accepts every argument set. |
| Connector.GetDescription | dumper/app/src/main/java/com/google/edwmigration/dumper/application/dumper/connector/Connector.java:34-37 | The default description is empty. |

## Left out

- JdbcTask.MismatchError: the message carries only the declared column count and the declared names. The actual count is not in the message, as the code builds it.
- CSV quoting, escaping, null strings and the rest of `FORMAT` are not modelled. A record is a list of cells that tells `print(null)` apart from `print(s)`.
- The header record is one record of header names. How Commons CSV writes it is not modelled.
- The `Writer` and `CSVPrinter` closed by try-with-resources, and the `IOException` to `SQLException` wrapping in the extractor, are not modelled. No I/O failure is modelled.
- Logging, `Stopwatch` timings, the monitor's display and its expected count are kept only as a count or as a parameter.
- `Clob.getAsciiStream` and `IOUtils.copy` become the Clob's full text. The JDBC driver, `StatementCreatorUtils` type mapping and real SQL warnings become the calls a `Connection` records.
- JdbcTask.ExtractResult: `execute` returning false, so that `getResultSet` gives null and `extractData(null)` fails, is not modelled. The result set is taken to exist whenever the calls do not throw.
- JdbcTask.WellFormed: every row having one value per column is assumed as JDBC's own guarantee, not checked.
- `withInterval` and the `Summary` interval field are not modelled.
- Tasks: `TaskRunContext` and `TaskState` are reduced to a map from task to state. A child's run records the state it carries. Its execution, its artifacts and its failure handling are not modelled.
- Tasks.TaskGroup.Run: the header record of the group summary (`Group.Header`) is not among the printed records, and the writer and printer are not closed explicitly.
- `getTasks` is the `tasks` field.
- TeradataUtils: `toUpperCase` is modelled for ASCII letters only. Locale-dependent case mapping is not modelled.
- TeradataUtils.FormatQuery: on a query holding control characters other than `\s` that is not already formatted (say "a\u0001  b"), the exact result is not stated by one lemma. It follows only by combining CollapseAppend with CollapseRun and CollapseIdentity, the two Append lemmas for the parenthesis passes, and TrimSpec.
- TeradataUtils.FormatQuerySelectNested: the nested-parentheses test strings are written as the concatenation of four literals rather than one literal each. The strings are the same.
- TeradataUtils.TimestampExpressionWithAlias and TeradataUtils.TimestampExpressionOf are the two public overloads. Their contracts only delegate to TimestampExpression, and AliasQualifiesPlainExpression relates them.
- RedshiftUsageMetrics: the AWS calls `describeClusters` and `getMetricStatistics` become inputs: the list of cluster ids and the CPU and disk series of each cluster. ToMetricDataPoints maps fetched datapoints to a series, but the series written are taken as given rather than built from a request. The client, the credentials and the request fields are not modelled.
- RedshiftUsageMetrics: `Double.toString` and `DATE_FORMAT` are not modelled as text. A value carries its text, and the date format is a parameter function.
- RedshiftUsageMetrics.MetricDataPeriod: `minusDays` is taken as exactly 24 hours, so daylight-saving shifts are not modelled. The `Duration` is its number of seconds.
- RedshiftUsageMetrics.GetDatapointValue: the enum has only `Average`, so the `default` branch returning null cannot be reached and is not stated.
- RedshiftUsageMetrics.WriteCluster: AutoValue's `create` rejects a null value while the series are read, so nothing is written for that cluster and the loop over clusters stops. The model places this failure in the two fill loops. The records written are the same.
- RedshiftUsageMetrics.DoRun: the `CsvRecordWriter` closed by try-with-resources, and its header, are not modelled.
- RangerHiveMapper: `ANY_RESOURCE` belongs to a superclass that is not part of this model. It is a field of the mapper here. Debug logging is not modelled.
- SnowflakeTaskUtil.Format: only formats whose conversions are all `%s` are modelled. Unused arguments are ignored, as in Java.
- SnowflakeTaskUtil.WithFilter: `JdbcSelectTask` is modelled only by its zip entry, its SQL and its header settings.
- Connector: `ConnectorArguments` is modelled only through its start and end dates. A date is its instant together with its `toString` text.
