# csv2sql_tools backend core, in Dafny

This project models the pure logic of three endpoints of the csv2sql_tools
Flask backend (`be/app/routes.py`) and proves properties of that model.

- **SQL splitter** (`/api/sql-splitter`). The input text is cut into lines the
  way Python's `str.splitlines` cuts it. Lines are folded into statements: a
  line that contains `;` closes the pending statement, which is then stripped.
  The statements are packed greedily into chunks under a line budget, which
  defaults to 1000. A statement is never split.
- **CSV to SQL** (`/api/csv-to-sql`). It writes a `CREATE TABLE` statement from
  the column dtypes. It then writes `INSERT` statements, either one per row or
  one per batch of rows. Values are rendered as follows:
  - a missing value becomes `NULL`;
  - a number keeps its text;
  - the empty string becomes `NULL`;
  - any other string is quoted, with its single quotes doubled.
- **Null handling** (`/api/handle-nulls`), with the `drop`, `zero` and `value`
  strategies. For each requested name that is a column, rows missing a value
  there are dropped, or the missing values are filled in.

The modules are:

| file | module | contents |
|---|---|---|
| `wrappers.dfy` | `Wrappers` | `Option` and `Result` |
| `text.dfy` | `Text` | Python's `isspace`, `strip`, `splitlines` and `"sep".join`, and the `NonSpace` view of a text (its characters that are not whitespace) |
| `frames.dfy` | `Frames` | cells, rows and data frames |
| `splitter.dfy` | `Splitter` | the splitter |
| `sqlgen.dfy` | `SqlGen` | the CSV-to-SQL generator, plus readers that parse its output back (string literals, value tuples, `INSERT` and `CREATE TABLE` statements) |
| `nulls.dfy` | `Nulls` | null handling |

Each operation has a partner:

- **Splitter.** The packing loop is checked against a specification of greedy
  packing, `IsGreedyPacking`, and that specification has exactly one solution.
  The statement fold is characterised line by line: each statement is the
  stripped text of the lines up to the next line containing `;`.
- **CSV to SQL.** Every rendered artifact is read back by an independent parser
  (string literals, value tuples, the `INSERT INTO` target and its column
  list, and `CREATE TABLE` definitions) and gives back the data it was written
  from, with empty strings read as
  `NULL`. The parser reads string
  literals as standard SQL does: `''` stands for one quote and a backslash is an
  ordinary character. SQLite, PostgreSQL with `standard_conforming_strings`,
  and MySQL in `NO_BACKSLASH_ESCAPES` mode read literals this way.
- **Null handling.** The column-by-column loop is checked against a
  set-based reference, `Expected`, which selects all named columns at once.

The chunks do not reproduce the input byte for byte. The code strips every
statement, and it joins the statements of a chunk with a single `"\n"`; the
chunks themselves are returned as a list. The model follows the code:

- it proves that joining the chunks gives the same text as joining the
  statements;
- it proves that, with whitespace ignored, the chunks carry exactly the text
  of the input.

## Model

| member | source | states |
|---|---|---|
| Text.Strip | be/app/routes.py:299-304 | `strip()` gives the slice of the input between a blank prefix and a blank suffix, with no whitespace at either end of the slice. It keeps every non-whitespace character in order, and gives the empty string exactly when the input is all whitespace. |
| Text.SplitLinesNonSpace | be/app/routes.py:295 | The lines from `splitlines()` together hold exactly the non-whitespace text of the input. |
| Text.SplitLinesDropsBreaks | be/app/routes.py:295 | No line from `splitlines()` contains a line terminator, and the lines together are the input with exactly its terminators removed: every other character, spaces included, is kept in order. |
| Text.SplitLinesOneLine | be/app/routes.py:295 | A non-empty text with no line terminator is one line, itself. |
| Text.SplitLinesAtBoundary | be/app/routes.py:295 | `splitlines()` cuts right after the first terminator: a terminator-free `x` followed by one terminator `b` (`"\r\n"`, or a single terminator other than a `"\r"` directly before `"\n"`) and then `y` gives the line `x` followed by the lines of `y`. |
| Text.SplitLinesJoin | be/app/routes.py:312 | The lines of `a + "\n" + b` are the lines of `a` followed by the lines of `b`, when `a` is non-empty and does not end in a terminator. |
| Text.LineCountJoin | be/app/routes.py:312-324 | A `"\n"`-join of non-empty parts that do not end in a terminator has as many lines as its parts have together. |
| Text.NonSpaceJoin | be/app/routes.py:315-324 | Joining with a whitespace separator adds no non-whitespace text. |
| Splitter.BuildStatements | be/app/routes.py:292-304 | Every statement is non-empty and stripped. Every statement except possibly the last contains a `;`. |
| Splitter.StatementsSemicolonCount | be/app/routes.py:295-300 | There are exactly as many statements containing `;` as there are input lines containing `;`. |
| Splitter.StatementsKeepText | be/app/routes.py:295-304 | The fold neither loses nor invents non-whitespace text: the non-whitespace characters of the statements are those of the pending text and the lines, in order. |
| Splitter.ClosesAtFirstSemicolon | be/app/routes.py:295-300 | A statement ends at the first line that contains `;`. It is the pending text and every line up to and including that one, each followed by `"\n"`, stripped and with nothing else removed. The fold then starts afresh on the following lines. |
| Splitter.RemainderStatement | be/app/routes.py:295-304 | When no line contains `;`, the fold gives exactly one statement, the pending text and all the lines each followed by `"\n"`, stripped, unless that text is blank, in which case it gives none. |
| Splitter.StatementsOfText | be/app/routes.py:292-304 | The statements carry exactly the non-whitespace text of the SQL input. There are none exactly when the input is blank. |
| Splitter.Pack | be/app/routes.py:307-320 | The chunk loop cuts the statements into consecutive non-empty runs, in order. Each run fits the budget or is a single statement. A run is closed only when the next statement would overflow it. |
| Splitter.Packing | be/app/routes.py:307-324 | The chunks the handler builds are a greedy packing of the statements under the budget. |
| Splitter.GreedyPackingUnique | be/app/routes.py:311-324 | Greedy packing has only one solution, so the loop's result is fully determined by the specification. |
| Splitter.JoinChunkTexts | be/app/routes.py:315-324 | Joining the chunk texts with `"\n"` gives the statements joined with `"\n"`. |
| Splitter.ChunkLineCount | be/app/routes.py:312-320 | A chunk's line count equals the sum of its statements' line counts, which is what the loop's running size counts. |
| Splitter.SplitSql | be/app/routes.py:288-330 | The counts are right, and there are no more chunks than statements. There are no chunks exactly when the input is blank. Every chunk is non-empty, and fits `maxChunkSize` (1000 when absent) or is a single statement. The chunks joined by `"\n"` are the statements joined by `"\n"`, and they carry the input's non-whitespace text. |
| SqlGen.ScanEscaped | be/app/routes.py:239 | A SQL reader reading the doubled-quote escape of a string, followed by the closing quote, gets back exactly that string. It stops at that quote. |
| SqlGen.ScanIsEscaped | be/app/routes.py:258 | Every literal a SQL reader accepts is the escape of its value followed by a closing quote, so escaping is injective and complete. |
| SqlGen.QuoteLiteral | be/app/routes.py:239 | The quoted literal of a string unquotes to that string. |
| SqlGen.UnquoteInjective | be/app/routes.py:258 | The only literal that unquotes to a string is that string's quoted literal, so each string has exactly one spelling. |
| SqlGen.RenderValue | be/app/routes.py:233-239 | A non-empty string cell renders as a literal that reads back as its text. |
| SqlGen.ParseValueRendered | be/app/routes.py:252-258 | Every rendered cell reads back as the cell. A missing value and the empty string both read back as `NULL`. |
| SqlGen.ParseValuesRendered | be/app/routes.py:240-241 | The `", "`-joined values of a row read back as the normalized row. |
| SqlGen.ParseTuplesRendered | be/app/routes.py:260-262 | The `",\n"`-joined tuples of a batch read back as the normalized rows, in order. |
| SqlGen.ColumnDefRoundTrip | be/app/routes.py:209-220 | A column definition reads back as its column's name and the SQL type of its dtype. |
| SqlGen.CreateTableRoundTrip | be/app/routes.py:208-222 | The `CREATE TABLE` statement reads back as the table name and every column's name and dtype, in column order. |
| SqlGen.ReadIdentsOf | be/app/routes.py:241 | A reader of backticked names separated by `", "` reads the column list of names without backticks back as those names, and stops where the list ends. |
| SqlGen.InsertTargetOf | be/app/routes.py:241 | A reader of the `INSERT INTO` target, independent of the generator, reads the table and the column list back as the table name and the column names, in order, when no name contains a backtick. |
| SqlGen.ReadInsertRow | be/app/routes.py:230-242 | A single-row `INSERT` reads back as its row. |
| SqlGen.ReadInsertBatch | be/app/routes.py:246-263 | A multi-row `INSERT` reads back as its batch of rows, in order. |
| SqlGen.Batches | be/app/routes.py:245-246 | The batches are consecutive slices that cover all the rows in order. Each has 1 to `batch_size` rows, and all but the last have exactly `batch_size`. |
| SqlGen.ReadRowInserts | be/app/routes.py:228-242 | The per-row statements together read back as all the rows, in order. |
| SqlGen.ReadBatchInserts | be/app/routes.py:244-263 | The per-batch statements together read back as all the rows, in order. |
| SqlGen.InsertStatements | be/app/routes.py:224-263 | There are at most as many statements as rows, none exactly when there are no rows, and one per row when `batch_size <= 1`. All statements together read back as all the rows, in order. Each statement holds between 1 and `max(1, batch_size)` rows, and every statement but the last holds exactly `max(1, batch_size)`, so there are ⌈rows / batch_size⌉ statements. When no name contains a backtick, the target of every statement reads back as the table and the columns. |
| SqlGen.CsvToSql | be/app/routes.py:202-270 | `rowCount` and `columnCount` are right. The `CREATE TABLE` statement reads back as the table and its typed columns. The `INSERT` statements read back as the rows, one statement per row when `batchSize` is absent or at most 1. Every statement but the last holds exactly `max(1, batchSize)` rows. Every row read back has one cell per column. When no name contains a backtick, the target of every statement reads back as the table and the columns. |
| Nulls.StrategyOf | be/app/routes.py:93-107 | `drop`, `zero` and `value` are recognized. `mean`, `median` and `mode` are set apart. Any other name does nothing. |
| Nulls.KeepNullFree | be/app/routes.py:94 | Every row `dropna` keeps is an input row with a value in every selected column, and every such input row is kept. It never returns more rows than it was given. A single row is kept exactly when it has a value in every selected column. |
| Nulls.KeepNullFreeAppend | be/app/routes.py:94 | Over a concatenation, `dropna` keeps the rows it keeps from each part, in order. With the single-row case this makes it an order-preserving filter that keeps repeated rows. |
| Nulls.FillRow | be/app/routes.py:103-107 | `fillna` replaces every missing value in a selected column with the fill value, and changes nothing else. When the fill is a value, no missing value is left there. |
| Nulls.HandleNulls | be/app/routes.py:91-107 | The loop over names fails exactly when `value` is requested without a value and some name is a column. Otherwise the columns are unchanged, and the rows equal those of the reference applied to all the named columns at once. |
| Nulls.ExpectedCompose | be/app/routes.py:91-107 | Applying a strategy to one selection and then to another is the same as applying it to both at once. |
| Nulls.HandleNullsIdempotent | be/app/routes.py:91-107 | Handling nulls twice with the same request gives the same result as handling them once. |
| Nulls.UnknownNamesIgnored | be/app/routes.py:91-92 | Names that are not columns have no effect. |
| Nulls.HandleNullsRequest | be/app/routes.py:87-112 | A `null` list of columns fails with the `TypeError` message of iterating over `None`. Otherwise the request fails exactly when `value` comes with an explicit null fill and some requested name is a column, with the message pandas raises. On success the rows are the reference applied to the requested columns, every column when `columns` is absent. The default `fillValue` is the empty string. `rowCount` is the number of rows left, and the columns are unchanged. |

## Left out

- The Flask plumbing is not modelled: routing, JSON parsing, the 400 answers for requests without the required keys, and the JSON encoding of results.
- The other endpoints are not modelled: upload, preview, CSV normalization and `determine_datatypes`.
- The `mean`, `median` and `mode` strategies are not modelled. They need floating-point statistics over pandas columns. `Nulls.StrategyOf` returns `None` for them.
- Nulls.HandleNullsRequest: its precondition excludes the `mean`, `median` and `mode` strategies, for the reason above.
- How pandas builds a frame from JSON records is not modelled. Columns come from the union of keys, and a missing key becomes NaN. The model starts from a well-formed `Frame`.
- How pandas infers a dtype is a parameter of `SqlGen.CsvToSql` (`dtypes`).
- Python's `str()` of numbers (`1.0`, `1e+20`, `True`) is not modelled. A number cell carries its text already formatted. The round trips assume number texts contain no `,` or `)` and are not `NULL`; `str()` of an int or a float never produces those.
- Non-integer `maxChunkSize` is not modelled. A finite float budget is only ever compared with integer line counts, so it acts as its floor, which is an integer budget the model does take. A null or string budget raises a `TypeError` at the first comparison, so only when there is at least one statement; blank `sqlContent` still gives an empty list of chunks.
- Non-integer `batchSize` is not modelled. A float at most 1 takes the one-row-per-statement path without error, as the integer 1 does. A float above 1 makes `range` raise a `TypeError`, and null or a string fails the comparison with 1; both end as 500 answers.
- `columns` given as a JSON string or number is not modelled: a string would be iterated over character by character, and a number raises a `TypeError`.
- `fillValue` as a JSON list or object is not modelled; pandas gives those a different meaning.
- Identifiers are written in backticks with no escaping. SqlGen.ColumnDefRoundTrip, SqlGen.CreateTableRoundTrip, SqlGen.ReadIdentsOf and SqlGen.InsertTargetOf therefore need table and column names without backticks. A name that contains a backtick gives a statement that does not read back.
- SqlGen.InsertStatements: its clause on the target of each statement assumes names without backticks, for the reason above.
- SqlGen.CsvToSql: its read-back clauses for the `CREATE TABLE` statement and for the target of each `INSERT` assume names without backticks, for the reason above.
- String literals are read back by the standard SQL grammar only. MySQL in its default mode also treats a backslash as an escape, and the handler does not double backslashes, so there a string ending in a backslash, such as `a\`, gives a literal `'a\'` that is not closed. The round-trip lemmas make no promise for that reading.
- Frames with duplicate column names are not modelled. Record keys are distinct.
- Everything outside `be/app/routes.py` is not part of this model, including the TypeScript frontend and its SQL dialects.
