/** The `/api/csv-to-sql` handler: a `CREATE TABLE` statement from the
    column types, and `INSERT` statements for the rows, one per row or one
    per batch of rows. */
module SqlGen {
  import opened Wrappers
  import opened Text
  import opened Frames

  // ----- string literals -----

  /** The text of a string cell with every single quote doubled. */
  function Escape(s: string): (r: string)
    ensures |r| >= |s|
  {
    if s == [] then [] else (if s[0] == '\'' then "''" else [s[0]]) + Escape(s[1..])
  }

  /** Reads the body of a standard SQL string literal whose opening quote
      has been consumed: `''` stands for one quote, a lone `'` closes the
      literal, and a backslash is an ordinary character.
      Gives the value and the text after the closing quote, or `None` when
      the literal is never closed. */
  function ScanLiteral(t: string): (r: Option<(string, string)>)
    ensures r.Some? ==> |r.value.1| < |t|
    decreases |t|
  {
    if t == [] then None
    else if t[0] == '\'' then
      if |t| >= 2 && t[1] == '\'' then
        match ScanLiteral(t[2..])
        case None => None
        case Some((v, rest)) => Some(("'" + v, rest))
      else Some(("", t[1..]))
    else
      match ScanLiteral(t[1..])
      case None => None
      case Some((v, rest)) => Some(([t[0]] + v, rest))
  }

  /** Escaping works character by character. */
  lemma EscapeCons(c: char, v: string)
    ensures Escape([c] + v) == (if c == '\'' then "''" else [c]) + Escape(v)
  {
    assert ([c] + v)[1..] == v;
  }

  lemma PrependLiteral(p: string, e: string, rest: string)
    ensures p + (e + "'" + rest) == (p + e) + "'" + rest
  {
  }

  /** Reading back an escaped string: the reader stops exactly at the
      closing quote that follows the escaped text and returns the original
      string, whatever follows, unless that is itself a quote. */
  lemma {:induction false} ScanEscaped(s: string, rest: string)
    requires rest == [] || rest[0] != '\''
    ensures ScanLiteral(Escape(s) + "'" + rest) == Some((s, rest))
    decreases |s|
  {
    if s == [] {
      assert Escape(s) + "'" + rest == "'" + rest;
    } else {
      ScanEscaped(s[1..], rest);
      ScanEscapedStep(s, rest);
    }
  }

  lemma ScanEscapedStep(s: string, rest: string)
    requires s != []
    requires ScanLiteral(Escape(s[1..]) + "'" + rest) == Some((s[1..], rest))
    ensures ScanLiteral(Escape(s) + "'" + rest) == Some((s, rest))
  {
    var tail := Escape(s[1..]) + "'" + rest;
    var head := if s[0] == '\'' then "''" else [s[0]];
    EscapeCons(s[0], s[1..]);
    assert s == [s[0]] + s[1..];
    PrependLiteral(head, Escape(s[1..]), rest);
    var t := head + tail;
    assert t[|head|..] == tail;
  }

  /** Conversely, whatever the reader accepts is an escaped string followed
      by its closing quote: escaping is the only way to write a literal. */
  lemma {:induction false} ScanIsEscaped(t: string)
    requires ScanLiteral(t).Some?
    ensures t == Escape(ScanLiteral(t).value.0) + "'" + ScanLiteral(t).value.1
    ensures ScanLiteral(t).value.1 == [] || ScanLiteral(t).value.1[0] != '\''
    decreases |t|
  {
    if t[0] == '\'' && |t| >= 2 && t[1] == '\'' {
      ScanIsEscaped(t[2..]);
      ScanIsEscapedStep(t, 2);
    } else if t[0] == '\'' {
      assert ScanLiteral(t).value.0 == [];
      assert t == "'" + t[1..];
    } else {
      ScanIsEscaped(t[1..]);
      ScanIsEscapedStep(t, 1);
    }
  }

  lemma ScanIsEscapedStep(t: string, n: nat)
    requires n == 1 || n == 2
    requires |t| >= n && (n == 2 <==> t[0] == '\'') && (n == 2 ==> t[1] == '\'')
    requires ScanLiteral(t[n..]).Some?
    requires t[n..] == Escape(ScanLiteral(t[n..]).value.0) + "'" + ScanLiteral(t[n..]).value.1
    requires ScanLiteral(t[n..]).value.1 == [] || ScanLiteral(t[n..]).value.1[0] != '\''
    ensures ScanLiteral(t).Some?
    ensures t == Escape(ScanLiteral(t).value.0) + "'" + ScanLiteral(t).value.1
    ensures ScanLiteral(t).value.1 == [] || ScanLiteral(t).value.1[0] != '\''
  {
    var v' := ScanLiteral(t[n..]).value.0;
    var rest := ScanLiteral(t[n..]).value.1;
    var head := t[..n];
    assert head == if n == 2 then "''" else [t[0]];
    assert ScanLiteral(t) == Some(([t[0]] + v', rest));
    EscapeCons(t[0], v');
    PrependLiteral(head, Escape(v'), rest);
    assert t == head + t[n..];
  }

  /** Reads a complete quoted literal `'...'`. */
  function Unquote(lit: string): Option<string> {
    if lit != [] && lit[0] == '\'' then
      match ScanLiteral(lit[1..])
      case Some((v, rest)) => if rest == [] then Some(v) else None
      case None => None
    else None
  }

  /** Two lines of the handler render a string cell as `'` + escaped text
      + `'`; reading that literal gives back the cell's text. */
  function QuoteLiteral(s: string): (lit: string)
    ensures Unquote(lit) == Some(s)
  {
    ScanEscaped(s, []);
    assert ("'" + Escape(s) + "'")[1..] == Escape(s) + "'" + [];
    "'" + Escape(s) + "'"
  }

  /** Every literal that reads as `v` is exactly `QuoteLiteral(v)`. */
  lemma UnquoteInjective(lit: string, v: string)
    requires Unquote(lit) == Some(v)
    ensures lit == QuoteLiteral(v)
  {
    ScanIsEscaped(lit[1..]);
    assert lit == [lit[0]] + lit[1..];
  }

  // ----- values -----

  /** The value rendering of both INSERT forms: `NULL` for a missing cell,
      the number's text unquoted, `NULL` for the empty string (the `if val`
      test), and a quoted, escaped literal for any other string. */
  function RenderValue(c: Cell): (r: string)
    ensures c.Str? && c.s != [] ==> Unquote(r) == Some(c.s)
  {
    match c
    case Null => "NULL"
    case Num(text) => text
    case Str(s) => if s == [] then "NULL" else QuoteLiteral(s)
  }

  /** The text of a number as Python's `str` writes it: non-empty, not
      quoted, not `NULL`, and free of the `,` and `)` that delimit values. */
  predicate ValidNumber(t: string) {
    && t != [] && t[0] != '\'' && t != "NULL"
    && forall k :: 0 <= k < |t| ==> t[k] != ',' && t[k] != ')'
  }

  predicate ValidCell(c: Cell) {
    c.Num? ==> ValidNumber(c.text)
  }

  predicate ValidRows(rows: seq<Row>) {
    forall row :: row in rows ==> forall j :: 0 <= j < |row| ==> ValidCell(row[j])
  }

  /** What a rendered cell means to a SQL reader: the empty string and a
      missing value both become `NULL`. */
  function Normalize(c: Cell): Cell {
    if c == Str([]) then Null else c
  }

  function NormalizeRow(row: Row): (r: Row)
    ensures |r| == |row|
  {
    if row == [] then [] else [Normalize(row[0])] + NormalizeRow(row[1..])
  }

  function NormalizeRows(rows: seq<Row>): (r: seq<Row>)
    ensures |r| == |rows|
    ensures forall i :: 0 <= i < |rows| ==> |r[i]| == |rows[i]|
  {
    if rows == [] then [] else [NormalizeRow(rows[0])] + NormalizeRows(rows[1..])
  }

  // ----- reading rendered values back -----

  /** The unquoted token at the start of `t`: everything up to the first
      `,` or `)`. */
  function TakeToken(t: string): (tok: string)
    ensures |tok| <= |t|
    decreases |t|
  {
    if t == [] || t[0] == ',' || t[0] == ')' then [] else [t[0]] + TakeToken(t[1..])
  }

  lemma {:induction false} TakeTokenPrefix(tok: string, suffix: string)
    requires forall k :: 0 <= k < |tok| ==> tok[k] != ',' && tok[k] != ')'
    requires suffix == [] || suffix[0] == ',' || suffix[0] == ')'
    ensures TakeToken(tok + suffix) == tok
    decreases |tok|
  {
    if tok == [] {
      assert tok + suffix == suffix;
    } else {
      TakeTokenPrefix(tok[1..], suffix);
      assert (tok + suffix)[1..] == tok[1..] + suffix;
      assert tok == [tok[0]] + tok[1..];
    }
  }

  /** Reads one value: a quoted literal, `NULL`, or a bare number. */
  function ParseValue(t: string): (r: Option<(Cell, string)>)
    ensures r.Some? ==> |r.value.1| < |t|
  {
    if t == [] then None
    else if t[0] == '\'' then
      match ScanLiteral(t[1..])
      case None => None
      case Some((v, rest)) => Some((Str(v), rest))
    else
      var tok := TakeToken(t);
      if tok == [] then None
      else
        assert tok == t[..|tok|] by { TakeTokenIsPrefix(t); }
        Some((if tok == "NULL" then Null else Num(tok), t[|tok|..]))
  }

  lemma {:induction false} TakeTokenIsPrefix(t: string)
    ensures TakeToken(t) == t[..|TakeToken(t)|]
    decreases |t|
  {
    if !(t == [] || t[0] == ',' || t[0] == ')') {
      TakeTokenIsPrefix(t[1..]);
    }
  }

  /** Reads the values of a tuple, separated by `", "`, up to (not
      including) the closing parenthesis. */
  function ParseValues(t: string): (r: Option<(Row, string)>)
    ensures r.Some? ==> |r.value.1| <= |t|
    decreases |t|
  {
    if t == [] || t[0] == ')' then Some(([], t))
    else
      match ParseValue(t)
      case None => None
      case Some((c, rest)) =>
        if |rest| >= 2 && rest[0] == ',' && rest[1] == ' ' then
          match ParseValues(rest[2..])
          case None => None
          case Some((cs, r)) => Some(([c] + cs, r))
        else Some(([c], rest))
  }

  /** Reads one parenthesised tuple. */
  function ParseTuple(t: string): (r: Option<(Row, string)>)
    ensures r.Some? ==> |r.value.1| < |t|
  {
    if t != [] && t[0] == '(' then
      match ParseValues(t[1..])
      case Some((cs, rest)) => if rest != [] && rest[0] == ')' then Some((cs, rest[1..])) else None
      case None => None
    else None
  }

  /** Reads tuples separated by `",\n"`. */
  function ParseTuples(t: string): (r: Option<(seq<Row>, string)>)
    decreases |t|
  {
    match ParseTuple(t)
    case None => None
    case Some((row, rest)) =>
      if |rest| >= 2 && rest[0] == ',' && rest[1] == '\n' then
        match ParseTuples(rest[2..])
        case None => None
        case Some((rows, r)) => Some(([row] + rows, r))
      else Some(([row], rest))
  }

  // ----- tuples -----

  /** The rendered values of a row, in column order. */
  function RenderRow(row: Row): (r: seq<string>)
    ensures |r| == |row|
  {
    if row == [] then [] else [RenderValue(row[0])] + RenderRow(row[1..])
  }

  /** The rendered values of a row, comma-separated, in parentheses. */
  function ValueTuple(row: Row): string {
    "(" + Join(RenderRow(row), ", ") + ")"
  }

  /** A rendered valid cell is non-empty and does not start with `)`. */
  lemma RenderedStart(c: Cell)
    requires ValidCell(c)
    ensures RenderValue(c) != [] && RenderValue(c)[0] != ')'
  {
  }

  /** A rendered cell reads back as the cell (with the empty string read as
      `NULL`), whenever a delimiter or nothing follows it. */
  lemma ParseValueRendered(c: Cell, suffix: string)
    requires ValidCell(c)
    requires suffix == [] || suffix[0] == ',' || suffix[0] == ')'
    ensures ParseValue(RenderValue(c) + suffix) == Some((Normalize(c), suffix))
  {
    match c
    case Null =>
      ParseBare("NULL", suffix);
    case Num(text) =>
      ParseBare(text, suffix);
    case Str(s) =>
      if s == [] {
        ParseBare("NULL", suffix);
      } else {
        ParseQuoted(s, suffix);
      }
  }

  /** An unquoted token reads back as `NULL` or as a number. */
  lemma ParseBare(tok: string, suffix: string)
    requires tok != [] && tok[0] != '\''
    requires forall k :: 0 <= k < |tok| ==> tok[k] != ',' && tok[k] != ')'
    requires suffix == [] || suffix[0] == ',' || suffix[0] == ')'
    ensures ParseValue(tok + suffix) == Some((if tok == "NULL" then Null else Num(tok), suffix))
  {
    TakeTokenPrefix(tok, suffix);
    assert (tok + suffix)[|tok|..] == suffix;
  }

  /** A quoted literal reads back as its string. */
  lemma ParseQuoted(s: string, suffix: string)
    requires suffix == [] || suffix[0] == ',' || suffix[0] == ')'
    ensures ParseValue(QuoteLiteral(s) + suffix) == Some((Str(s), suffix))
  {
    var t := QuoteLiteral(s) + suffix;
    assert t == "'" + (Escape(s) + "'" + suffix);
    assert t[1..] == Escape(s) + "'" + suffix;
    ScanEscaped(s, suffix);
  }

  lemma RowValid(row: Row)
    requires forall j :: 0 <= j < |row| ==> ValidCell(row[j])
    ensures row != [] ==> forall j :: 0 <= j < |row[1..]| ==> ValidCell(row[1..][j])
  {
  }

  /** The values of a rendered tuple read back as the normalized row. */
  lemma {:induction false} ParseValuesRendered(row: Row, suffix: string)
    requires forall j :: 0 <= j < |row| ==> ValidCell(row[j])
    requires suffix != [] && suffix[0] == ')'
    ensures ParseValues(Join(RenderRow(row), ", ") + suffix) == Some((NormalizeRow(row), suffix))
    decreases |row|
  {
    if row == [] {
      assert Join(RenderRow(row), ", ") + suffix == suffix;
    } else {
      var c := row[0];
      RenderedStart(c);
      if |row| == 1 {
        assert RenderRow(row) == [RenderValue(c)] + RenderRow(row[1..]);
        assert Join(RenderRow(row), ", ") == RenderValue(c);
        var t := RenderValue(c) + suffix;
        ParseValueRendered(c, suffix);
        assert t[0] == RenderValue(c)[0];
        assert ParseValues(t) == Some(([Normalize(c)], suffix));
        assert NormalizeRow(row[1..]) == [];
        assert NormalizeRow(row) == [Normalize(c)] + [];
        assert [Normalize(c)] + [] == [Normalize(c)];
      } else {
        var more := row[1..];
        var j := Join(RenderRow(more), ", ");
        assert RenderRow(row) == [RenderValue(c)] + RenderRow(more);
        assert Join(RenderRow(row), ", ") == RenderValue(c) + ", " + j;
        var t := RenderValue(c) + ", " + j + suffix;
        SeqAssoc(RenderValue(c), ", ", j + suffix);
        SeqAssoc(RenderValue(c) + ", ", j, suffix);
        assert t == RenderValue(c) + (", " + (j + suffix));
        ParseValueRendered(c, ", " + (j + suffix));
        assert (", " + (j + suffix))[2..] == j + suffix;
        RowValid(row);
        ParseValuesRendered(more, suffix);
        assert NormalizeRow(row) == [Normalize(c)] + NormalizeRow(more);
      }
    }
  }

  /** A rendered tuple reads back as the normalized row, whatever follows it. */
  lemma ParseTupleRendered(row: Row, suffix: string)
    requires forall j :: 0 <= j < |row| ==> ValidCell(row[j])
    ensures ParseTuple(ValueTuple(row) + suffix) == Some((NormalizeRow(row), suffix))
  {
    var j := Join(RenderRow(row), ", ");
    SeqAssoc("(" + j, ")", suffix);
    SeqAssoc("(", j, ")" + suffix);
    ParseValuesRendered(row, ")" + suffix);
    TupleStep(ValueTuple(row) + suffix, j + (")" + suffix), NormalizeRow(row), suffix);
  }

  lemma TupleStep(t: string, inner: string, cs: Row, suffix: string)
    requires t == "(" + inner
    requires ParseValues(inner) == Some((cs, ")" + suffix))
    ensures ParseTuple(t) == Some((cs, suffix))
  {
    assert t[1..] == inner;
    assert (")" + suffix)[1..] == suffix;
  }

  /** The tuples of a list of rows, as the batched INSERT lists them. */
  function ValueTuples(rows: seq<Row>): (r: seq<string>)
    ensures |r| == |rows|
  {
    if rows == [] then [] else [ValueTuple(rows[0])] + ValueTuples(rows[1..])
  }

  /** A `",\n"`-separated list of rendered tuples reads back as the
      normalized rows, when what follows does not continue the list. */
  lemma {:induction false} ParseTuplesRendered(rows: seq<Row>, suffix: string)
    requires rows != [] && ValidRows(rows)
    requires !(|suffix| >= 2 && suffix[0] == ',' && suffix[1] == '\n')
    ensures ParseTuples(Join(ValueTuples(rows), ",\n") + suffix) == Some((NormalizeRows(rows), suffix))
    decreases |rows|
  {
    var row := rows[0];
    assert row in rows;
    assert NormalizeRows(rows) == [NormalizeRow(row)] + NormalizeRows(rows[1..]);
    assert ValueTuples(rows) == [ValueTuple(row)] + ValueTuples(rows[1..]);
    if |rows| == 1 {
      assert Join(ValueTuples(rows), ",\n") == ValueTuple(row);
      ParseTupleRendered(row, suffix);
      assert NormalizeRows(rows[1..]) == [];
      assert NormalizeRows(rows) == [NormalizeRow(row)] + [];
      assert [NormalizeRow(row)] + [] == [NormalizeRow(row)];
    } else {
      var more := rows[1..];
      var j := Join(ValueTuples(more), ",\n");
      assert Join(ValueTuples(rows), ",\n") == ValueTuple(row) + ",\n" + j;
      SeqAssoc(ValueTuple(row), ",\n", j + suffix);
      SeqAssoc(ValueTuple(row) + ",\n", j, suffix);
      ParseTupleRendered(row, ",\n" + (j + suffix));
      assert (",\n" + (j + suffix))[2..] == j + suffix;
      assert forall r :: r in more ==> r in rows;
      ParseTuplesRendered(more, suffix);
    }
  }

  // ----- CREATE TABLE -----

  /** The dtype pandas gives a column, as far as the handler asks about it:
      integer, float, datetime64, or anything else. */
  datatype DType = IntegerDtype | FloatDtype | DatetimeDtype | OtherDtype

  /** The SQL type chosen for a dtype. */
  function SqlType(d: DType): string {
    match d
    case IntegerDtype => "INTEGER"
    case FloatDtype => "FLOAT"
    case DatetimeDtype => "DATETIME"
    case OtherDtype => "TEXT"
  }

  /** An identifier in backticks. Embedded backticks are not doubled. */
  function QuoteIdent(name: string): string {
    "`" + name + "`"
  }

  /** A column definition: the backticked name, one space, the SQL type. */
  function ColumnDef(name: string, d: DType): string {
    QuoteIdent(name) + " " + SqlType(d)
  }

  /** The column definitions, one per column in column order. */
  function ColumnDefs(columns: seq<string>, dtypes: seq<DType>): (defs: seq<string>)
    requires |dtypes| == |columns|
    ensures |defs| == |columns|
  {
    seq(|columns|, i requires 0 <= i < |columns| => ColumnDef(columns[i], dtypes[i]))
  }

  /** The `CREATE TABLE` statement. */
  function CreateTable(table: string, columns: seq<string>, dtypes: seq<DType>): string
    requires |dtypes| == |columns|
  {
    "CREATE TABLE " + QuoteIdent(table) + " (\n  " + Join(ColumnDefs(columns, dtypes), ",\n  ") + "\n);"
  }

  // ----- reading CREATE TABLE back -----

  /** The position of the first `ch` in `t`, or `|t|`. */
  function FindChar(t: string, ch: char): (i: nat)
    ensures i <= |t|
    ensures i < |t| ==> t[i] == ch
    ensures forall k :: 0 <= k < i ==> t[k] != ch
    decreases |t|
  {
    if t == [] || t[0] == ch then 0 else 1 + FindChar(t[1..], ch)
  }

  /** `FindChar` finds an occurrence of `ch` that nothing before it matches. */
  lemma FindCharAt(t: string, ch: char, i: nat)
    requires i < |t| && t[i] == ch
    requires forall k :: 0 <= k < i ==> t[k] != ch
    ensures FindChar(t, ch) == i
  {
  }

  /** Reads a backticked identifier off the front of `t`. */
  function ReadIdent(t: string): (r: Option<(string, string)>)
    ensures r.Some? ==> |r.value.1| < |t|
  {
    if t == [] || t[0] != '`' then None
    else
      var k := FindChar(t[1..], '`');
      if k < |t[1..]| then Some((t[1..][..k], t[1..][k + 1..])) else None
  }

  /** Reads a SQL type name off the front of `t`. */
  function ReadSqlType(t: string): Option<(DType, string)> {
    if |t| >= 7 && t[..7] == "INTEGER" then Some((IntegerDtype, t[7..]))
    else if |t| >= 5 && t[..5] == "FLOAT" then Some((FloatDtype, t[5..]))
    else if |t| >= 8 && t[..8] == "DATETIME" then Some((DatetimeDtype, t[8..]))
    else if |t| >= 4 && t[..4] == "TEXT" then Some((OtherDtype, t[4..]))
    else None
  }

  /** Reads a column definition (name in backticks, one space, type) off the
      front of `t`. */
  function ReadColumnDef(t: string): (r: Option<((string, DType), string)>)
    ensures r.Some? ==> |r.value.1| < |t|
  {
    match ReadIdent(t)
    case None => None
    case Some((name, rest)) =>
      if rest == [] || rest[0] != ' ' then None
      else
        match ReadSqlType(rest[1..])
        case None => None
        case Some((d, more)) => Some(((name, d), more))
  }

  /** Reads a whole column definition. */
  function ParseColumnDef(def: string): Option<(string, DType)> {
    match ReadColumnDef(def)
    case Some((col, rest)) => if rest == [] then Some(col) else None
    case None => None
  }

  const DefSep: string := ",\n  "

  /** Reads one or more column definitions separated by `",\n  "`. */
  function ReadColumnDefs(t: string): Option<(seq<(string, DType)>, string)>
    decreases |t|
  {
    match ReadColumnDef(t)
    case None => None
    case Some((col, rest)) =>
      if |rest| >= 4 && rest[..4] == DefSep then
        match ReadColumnDefs(rest[4..])
        case None => None
        case Some((cols, more)) => Some(([col] + cols, more))
      else Some(([col], rest))
  }

  /** Reads a `CREATE TABLE` statement back as its table name and its
      columns' names and dtypes. */
  function ParseCreateTable(stmt: string): Option<(string, seq<(string, DType)>)> {
    var lead := "CREATE TABLE ";
    var open := " (\n  ";
    if |stmt| < |lead| || stmt[..|lead|] != lead then None
    else
      match ReadIdent(stmt[|lead|..])
      case None => None
      case Some((table, rest)) =>
        if |rest| < |open| || rest[..|open|] != open then None
        else
          match ParseColumnsBody(rest[|open|..])
          case None => None
          case Some(cols) => Some((table, cols))
  }

  /** Reads the column list of a `CREATE TABLE` statement, up to and
      including its closing `"\n);"`. */
  function ParseColumnsBody(body: string): Option<seq<(string, DType)>> {
    if body == "\n);" then Some([])
    else
      match ReadColumnDefs(body)
      case None => None
      case Some((cols, more)) => if more == "\n);" then Some(cols) else None
  }

  /** The columns' names paired with their dtypes. */
  function Typed(columns: seq<string>, dtypes: seq<DType>): (r: seq<(string, DType)>)
    requires |dtypes| == |columns|
    ensures |r| == |columns|
  {
    seq(|columns|, i requires 0 <= i < |columns| => (columns[i], dtypes[i]))
  }

  /** No identifier holds a backtick: backticks are not escaped, so only
      such names read back. */
  predicate PlainIdents(names: seq<string>) {
    forall i :: 0 <= i < |names| ==> '`' !in names[i]
  }

  lemma ReadIdentOf(name: string, rest: string)
    requires '`' !in name
    ensures ReadIdent(QuoteIdent(name) + rest) == Some((name, rest))
  {
    var t := QuoteIdent(name) + rest;
    var body := name + ("`" + rest);
    assert t[1..] == body;
    FindCharAt(body, '`', |name|);
    assert body[..|name|] == name;
    assert body[|name| + 1..] == rest;
  }

  /** A word followed by anything starts with that word. */
  lemma PrefixRead(w: string, rest: string)
    ensures (w + rest)[..|w|] == w && (w + rest)[|w|..] == rest
  {
  }

  /** A string that starts with another letter does not start with `w`. */
  lemma NotPrefix(t: string, w: string)
    requires w != [] && t != [] && t[0] != w[0]
    ensures |t| < |w| || t[..|w|] != w
  {
    if |t| >= |w| {
      assert t[..|w|][0] == t[0];
    }
  }

  lemma ReadSqlTypeOf(d: DType, rest: string)
    ensures ReadSqlType(SqlType(d) + rest) == Some((d, rest))
  {
    var t := SqlType(d) + rest;
    PrefixRead(SqlType(d), rest);
    assert t[0] == SqlType(d)[0];
    match d
    case IntegerDtype =>
    case FloatDtype =>
      NotPrefix(t, "INTEGER");
    case DatetimeDtype =>
      NotPrefix(t, "INTEGER");
      NotPrefix(t, "FLOAT");
    case OtherDtype =>
      NotPrefix(t, "INTEGER");
      NotPrefix(t, "FLOAT");
      NotPrefix(t, "DATETIME");
  }

  lemma ReadColumnDefOf(name: string, d: DType, rest: string)
    requires '`' !in name
    ensures ReadColumnDef(ColumnDef(name, d) + rest) == Some(((name, d), rest))
  {
    var tail := " " + (SqlType(d) + rest);
    SeqAssoc(QuoteIdent(name) + " ", SqlType(d), rest);
    SeqAssoc(QuoteIdent(name), " ", SqlType(d) + rest);
    ReadIdentOf(name, tail);
    assert tail[1..] == SqlType(d) + rest;
    ReadSqlTypeOf(d, rest);
  }

  /** A column definition reads back as its column's name and dtype, as long
      as the name has no backtick of its own. */
  lemma ColumnDefRoundTrip(name: string, d: DType)
    requires '`' !in name
    ensures ParseColumnDef(ColumnDef(name, d)) == Some((name, d))
  {
    ReadColumnDefOf(name, d, []);
    assert ColumnDef(name, d) + [] == ColumnDef(name, d);
  }

  /** The joined column definitions read back as the columns' names and
      dtypes, whatever follows them that is not another separator. */
  lemma {:induction false} ReadColumnDefsOf(columns: seq<string>, dtypes: seq<DType>, rest: string)
    requires |dtypes| == |columns| && columns != [] && PlainIdents(columns)
    requires |rest| < 4 || rest[..4] != DefSep
    ensures ReadColumnDefs(Join(ColumnDefs(columns, dtypes), DefSep) + rest)
              == Some((Typed(columns, dtypes), rest))
    decreases |columns|
  {
    var defs := ColumnDefs(columns, dtypes);
    ColumnDefsCons(columns, dtypes);
    if |columns| == 1 {
      ReadColumnDefOf(columns[0], dtypes[0], rest);
      var t := ColumnDef(columns[0], dtypes[0]) + rest;
      ReadColumnDefsLast(t);
      assert Join(defs, DefSep) + rest == t;
      assert ReadColumnDefs(t) == Some(([(columns[0], dtypes[0])], rest));
      assert Typed(columns, dtypes) == [(columns[0], dtypes[0])];
    } else {
      var tail := Join(defs[1..], DefSep) + rest;
      JoinCons(defs, DefSep, rest);
      ReadColumnDefOf(columns[0], dtypes[0], DefSep + tail);
      ReadColumnDefsOf(columns[1..], dtypes[1..], rest);
      ReadColumnDefsStep(defs[0] + (DefSep + tail), tail);
    }
  }

  /** The definitions and typed columns of a list are those of its head
      followed by those of its tail. */
  lemma ColumnDefsCons(columns: seq<string>, dtypes: seq<DType>)
    requires |dtypes| == |columns| && columns != []
    ensures ColumnDefs(columns, dtypes)[0] == ColumnDef(columns[0], dtypes[0])
    ensures ColumnDefs(columns, dtypes)[1..] == ColumnDefs(columns[1..], dtypes[1..])
    ensures Typed(columns, dtypes) == [(columns[0], dtypes[0])] + Typed(columns[1..], dtypes[1..])
    ensures |columns| == 1 ==> Join(ColumnDefs(columns, dtypes), DefSep) == ColumnDef(columns[0], dtypes[0])
  {
  }

  lemma JoinCons(xs: seq<string>, sep: string, rest: string)
    requires |xs| >= 2
    ensures Join(xs, sep) + rest == xs[0] + (sep + (Join(xs[1..], sep) + rest))
  {
  }

  /** The last step of `ReadColumnDefs`: a definition followed by no separator. */
  lemma ReadColumnDefsLast(t: string)
    requires ReadColumnDef(t).Some?
    requires var r := ReadColumnDef(t).value.1; |r| < 4 || r[..4] != DefSep
    ensures ReadColumnDefs(t) == Some(([ReadColumnDef(t).value.0], ReadColumnDef(t).value.1))
  {
  }

  /** One step of `ReadColumnDefs`: a definition followed by the separator. */
  lemma ReadColumnDefsStep(t: string, tail: string)
    requires ReadColumnDef(t).Some? && ReadColumnDef(t).value.1 == DefSep + tail
    requires ReadColumnDefs(tail).Some?
    ensures ReadColumnDefs(t) == Some(([ReadColumnDef(t).value.0] + ReadColumnDefs(tail).value.0, ReadColumnDefs(tail).value.1))
  {
    var r := DefSep + tail;
    assert r[..4] == DefSep;
    assert r[4..] == tail;
  }

  /** The `CREATE TABLE` statement reads back as the table's name and its
      columns' names and dtypes, in column order, as long as no name holds
      a backtick. */
  lemma CreateTableRoundTrip(table: string, columns: seq<string>, dtypes: seq<DType>)
    requires |dtypes| == |columns| && '`' !in table && PlainIdents(columns)
    ensures ParseCreateTable(CreateTable(table, columns, dtypes)) == Some((table, Typed(columns, dtypes)))
  {
    var defs := Join(ColumnDefs(columns, dtypes), DefSep);
    var head := "CREATE TABLE " + QuoteIdent(table) + " (\n  ";
    SeqAssoc(head, defs, "\n);");
    ParseCreateTableHead(table, defs + "\n);");
    ParseColumnsBodyOf(columns, dtypes);
  }

  lemma ParseCreateTableHead(table: string, body: string)
    requires '`' !in table
    ensures ParseCreateTable("CREATE TABLE " + QuoteIdent(table) + " (\n  " + body)
              == match ParseColumnsBody(body) case None => None case Some(cols) => Some((table, cols))
  {
    var after := " (\n  " + body;
    var stmt := "CREATE TABLE " + QuoteIdent(table) + " (\n  " + body;
    assert stmt == "CREATE TABLE " + (QuoteIdent(table) + after);
    PrefixRead("CREATE TABLE ", QuoteIdent(table) + after);
    ReadIdentOf(table, after);
    PrefixRead(" (\n  ", body);
  }

  lemma ParseColumnsBodyOf(columns: seq<string>, dtypes: seq<DType>)
    requires |dtypes| == |columns| && PlainIdents(columns)
    ensures ParseColumnsBody(Join(ColumnDefs(columns, dtypes), DefSep) + "\n);") == Some(Typed(columns, dtypes))
  {
    var body := Join(ColumnDefs(columns, dtypes), DefSep) + "\n);";
    if columns == [] {
      assert body == "\n);";
    } else {
      ReadColumnDefsOf(columns, dtypes, "\n);");
      var defs := ColumnDefs(columns, dtypes);
      JoinFirst(defs, DefSep);
      assert defs[0][0] == '`';
      assert body[0] == '`';
    }
  }

  // ----- INSERT statements -----

  /** The backticked column names, in column order. */
  function QuotedNames(columns: seq<string>): (qs: seq<string>)
    ensures |qs| == |columns|
    ensures forall i :: 0 <= i < |columns| ==> qs[i] == QuoteIdent(columns[i])
  {
    seq(|columns|, i requires 0 <= i < |columns| => QuoteIdent(columns[i]))
  }

  /** The backticked column names, comma-separated, in column order. */
  function ColumnList(columns: seq<string>): string {
    Join(QuotedNames(columns), ", ")
  }

  /** The text both INSERT forms start with. */
  function InsertHeader(table: string, columns: seq<string>): string {
    "INSERT INTO " + QuoteIdent(table) + " (" + ColumnList(columns) + ") VALUES"
  }

  /** The one-row form. */
  function InsertRow(table: string, columns: seq<string>, row: Row): string {
    InsertHeader(table, columns) + " " + ValueTuple(row) + ";"
  }

  /** The multi-row form: the tuples on lines of their own, separated by commas. */
  function InsertBatch(table: string, columns: seq<string>, rows: seq<Row>): string {
    InsertHeader(table, columns) + "\n" + Join(ValueTuples(rows), ",\n") + ";"
  }

  /** Reads back the rows of an INSERT statement that starts with `header`
      (either form). */
  function ReadInsert(stmt: string, header: string): Option<seq<Row>> {
    if |stmt| > |header| && stmt[..|header|] == header
       && (stmt[|header|] == ' ' || stmt[|header|] == '\n') then
      match ParseTuples(stmt[|header| + 1..])
      case Some((rows, rest)) => if rest == ";" then Some(rows) else None
      case None => None
    else None
  }

  /** Reads back the rows of a list of INSERT statements, in order. */
  function ReadInserts(stmts: seq<string>, header: string): Option<seq<Row>> {
    if stmts == [] then Some([])
    else
      match ReadInsert(stmts[0], header)
      case None => None
      case Some(rows) =>
        match ReadInserts(stmts[1..], header)
        case None => None
        case Some(more) => Some(rows + more)
  }

  // ----- reading the target of an INSERT back -----

  /** Reads one or more backticked names separated by `", "`. */
  function ReadIdents(t: string): Option<(seq<string>, string)>
    decreases |t|
  {
    match ReadIdent(t)
    case None => None
    case Some((name, rest)) =>
      if |rest| >= 2 && rest[..2] == ", " then
        match ReadIdents(rest[2..])
        case None => None
        case Some((more, r)) => Some(([name] + more, r))
      else Some(([name], rest))
  }

  /** Reads a possibly empty column list and the `) VALUES` after it,
      giving the names in order. */
  function ReadTargetColumns(body: string): Option<seq<string>> {
    var names: Option<(seq<string>, string)> :=
      if body != [] && body[0] == ')' then Some(([], body)) else ReadIdents(body);
    match names
    case None => None
    case Some((columns, r)) =>
      if |r| >= 8 && r[..8] == ") VALUES" then Some(columns) else None
  }

  /** Reads the table name and the column list off the front of an INSERT
      statement of either form, up to and including `VALUES`. */
  function InsertTarget(stmt: string): Option<(string, seq<string>)> {
    if |stmt| < 12 || stmt[..12] != "INSERT INTO " then None
    else
      match ReadIdent(stmt[12..])
      case None => None
      case Some((table, r)) =>
        if |r| < 2 || r[..2] != " (" then None
        else
          match ReadTargetColumns(r[2..])
          case None => None
          case Some(columns) => Some((table, columns))
  }

  lemma InsertBody(header: string, sep: string, body: string, stmt: string)
    requires |sep| == 1 && (sep == " " || sep == "\n")
    requires stmt == header + sep + body + ";"
    ensures |stmt| > |header| && stmt[..|header|] == header && stmt[|header|] == sep[0]
    ensures stmt[|header| + 1..] == body + ";"
  {
  }

  /** An INSERT statement whose tuples are those of `rows` reads back as
      the normalized rows. */
  lemma ReadInsertTuples(header: string, sep: string, rows: seq<Row>, stmt: string)
    requires sep == " " || sep == "\n"
    requires rows != [] && ValidRows(rows)
    requires stmt == header + sep + Join(ValueTuples(rows), ",\n") + ";"
    ensures ReadInsert(stmt, header) == Some(NormalizeRows(rows))
  {
    InsertBody(header, sep, Join(ValueTuples(rows), ",\n"), stmt);
    ParseTuplesRendered(rows, ";");
  }

  lemma OneTuple(row: Row)
    ensures Join(ValueTuples([row]), ",\n") == ValueTuple(row)
    ensures NormalizeRows([row]) == [NormalizeRow(row)]
  {
    assert ValueTuples([row]) == [ValueTuple(row)] + ValueTuples([]);
    assert NormalizeRows([row]) == [NormalizeRow(row)] + NormalizeRows([]);
  }

  /** The one-row INSERT reads back as its (normalized) row. */
  lemma ReadInsertRow(table: string, columns: seq<string>, row: Row)
    requires forall j :: 0 <= j < |row| ==> ValidCell(row[j])
    ensures ReadInsert(InsertRow(table, columns, row), InsertHeader(table, columns)) == Some([NormalizeRow(row)])
  {
    OneTuple(row);
    assert ValidRows([row]);
    ReadInsertTuples(InsertHeader(table, columns), " ", [row], InsertRow(table, columns, row));
  }

  /** The multi-row INSERT reads back as its (normalized) rows, in order. */
  lemma ReadInsertBatch(table: string, columns: seq<string>, rows: seq<Row>)
    requires rows != [] && ValidRows(rows)
    ensures ReadInsert(InsertBatch(table, columns, rows), InsertHeader(table, columns)) == Some(NormalizeRows(rows))
  {
    ReadInsertTuples(InsertHeader(table, columns), "\n", rows, InsertBatch(table, columns, rows));
  }

  /** One step of `ReadIdents`: a name followed by the separator. */
  lemma ReadIdentsStep(t: string, tail: string)
    requires ReadIdent(t).Some? && ReadIdent(t).value.1 == ", " + tail
    requires ReadIdents(tail).Some?
    ensures ReadIdents(t) == Some(([ReadIdent(t).value.0] + ReadIdents(tail).value.0, ReadIdents(tail).value.1))
  {
    var r := ", " + tail;
    assert r[..2] == ", ";
    assert r[2..] == tail;
  }

  /** The column list reads back as the columns, in order, as long as no
      name holds a backtick. */
  lemma {:induction false} ReadIdentsOf(columns: seq<string>, rest: string)
    requires columns != [] && PlainIdents(columns)
    requires |rest| < 2 || rest[..2] != ", "
    ensures ReadIdents(ColumnList(columns) + rest) == Some((columns, rest))
    decreases |columns|
  {
    if |columns| == 1 {
      ReadIdentsLast(columns, rest);
    } else {
      assert PlainIdents(columns[1..]);
      ReadIdentsOf(columns[1..], rest);
      ReadIdentsCons(columns, rest);
    }
  }

  lemma ReadIdentsCons(columns: seq<string>, rest: string)
    requires |columns| >= 2 && '`' !in columns[0]
    requires ReadIdents(ColumnList(columns[1..]) + rest) == Some((columns[1..], rest))
    ensures ReadIdents(ColumnList(columns) + rest) == Some((columns, rest))
  {
    ColumnListCons(columns, rest);
    ReadIdentsPrepend(columns[0], ColumnList(columns[1..]) + rest, columns[1..], rest);
    assert [columns[0]] + columns[1..] == columns;
  }

  /** A name and the separator in front of a readable list add the name in
      front of what is read. */
  lemma ReadIdentsPrepend(name: string, tail: string, names: seq<string>, rest: string)
    requires '`' !in name && ReadIdents(tail) == Some((names, rest))
    ensures ReadIdents(QuoteIdent(name) + (", " + tail)) == Some(([name] + names, rest))
  {
    ReadIdentOf(name, ", " + tail);
    ReadIdentsStep(QuoteIdent(name) + (", " + tail), tail);
  }

  lemma ReadIdentsLast(columns: seq<string>, rest: string)
    requires |columns| == 1 && PlainIdents(columns)
    requires |rest| < 2 || rest[..2] != ", "
    ensures ReadIdents(ColumnList(columns) + rest) == Some((columns, rest))
  {
    assert '`' !in columns[0];
    assert ColumnList(columns) == QuoteIdent(columns[0]);
    ReadIdentOf(columns[0], rest);
    assert columns == [columns[0]];
  }

  lemma ColumnListCons(columns: seq<string>, rest: string)
    requires |columns| >= 2
    ensures ColumnList(columns) + rest
         == QuoteIdent(columns[0]) + (", " + (ColumnList(columns[1..]) + rest))
  {
    var qs := QuotedNames(columns);
    assert qs[1..] == QuotedNames(columns[1..]);
    JoinCons(qs, ", ", rest);
  }

  /** The column list and the `) VALUES` after it read back as the columns. */
  lemma ReadTargetColumnsOf(columns: seq<string>, rest: string)
    requires PlainIdents(columns)
    ensures ReadTargetColumns(ColumnList(columns) + (") VALUES" + rest)) == Some(columns)
  {
    var r := ") VALUES" + rest;
    PrefixRead(") VALUES", rest);
    if columns == [] {
      assert ColumnList(columns) + r == r;
    } else {
      assert r[..2] == ") ";
      ReadIdentsOf(columns, r);
      JoinFirst(QuotedNames(columns), ", ");
      assert (ColumnList(columns) + r)[0] == '`';
    }
  }

  /** An INSERT header reads back as its table and its columns, in order,
      whatever follows it, as long as no name holds a backtick. */
  lemma InsertTargetOf(table: string, columns: seq<string>, rest: string)
    requires '`' !in table && PlainIdents(columns)
    ensures InsertTarget(InsertHeader(table, columns) + rest) == Some((table, columns))
  {
    var body := ColumnList(columns) + (") VALUES" + rest);
    HeaderShape(table, columns, rest);
    ReadTargetColumnsOf(columns, rest);
    InsertTargetHead(table, body);
  }

  lemma InsertTargetHead(table: string, body: string)
    requires '`' !in table && ReadTargetColumns(body).Some?
    ensures InsertTarget("INSERT INTO " + (QuoteIdent(table) + (" (" + body)))
         == Some((table, ReadTargetColumns(body).value))
  {
    var r := " (" + body;
    PrefixRead("INSERT INTO ", QuoteIdent(table) + r);
    ReadIdentOf(table, r);
    PrefixRead(" (", body);
  }

  lemma HeaderShape(table: string, columns: seq<string>, rest: string)
    ensures InsertHeader(table, columns) + rest
         == "INSERT INTO " + (QuoteIdent(table) + (" (" + (ColumnList(columns) + (") VALUES" + rest))))
  {
  }

  /** Every single-row INSERT names the table and the columns, in order. */
  lemma RowInsertsTarget(table: string, columns: seq<string>, rows: seq<Row>)
    requires '`' !in table && PlainIdents(columns)
    ensures forall i :: 0 <= i < |rows| ==> InsertTarget(RowInserts(table, columns, rows)[i]) == Some((table, columns))
  {
    forall i | 0 <= i < |rows|
      ensures InsertTarget(InsertRow(table, columns, rows[i])) == Some((table, columns))
    {
      InsertRowTarget(table, columns, rows[i]);
    }
  }

  lemma InsertRowTarget(table: string, columns: seq<string>, row: Row)
    requires '`' !in table && PlainIdents(columns)
    ensures InsertTarget(InsertRow(table, columns, row)) == Some((table, columns))
  {
    var tuple := ValueTuple(row);
    InsertTargetOf(table, columns, " " + tuple + ";");
    assert InsertRow(table, columns, row) == InsertHeader(table, columns) + (" " + tuple + ";") by {
      SeqAssoc(InsertHeader(table, columns) + " ", tuple, ";");
      SeqAssoc(InsertHeader(table, columns), " ", tuple);
      SeqAssoc(InsertHeader(table, columns), " " + tuple, ";");
    }
  }

  /** Every multi-row INSERT names the table and the columns, in order. */
  lemma BatchInsertsTarget(table: string, columns: seq<string>, batches: seq<seq<Row>>)
    requires '`' !in table && PlainIdents(columns)
    ensures forall k :: 0 <= k < |batches| ==> InsertTarget(BatchInserts(table, columns, batches)[k]) == Some((table, columns))
  {
    forall k | 0 <= k < |batches|
      ensures InsertTarget(InsertBatch(table, columns, batches[k])) == Some((table, columns))
    {
      InsertBatchTarget(table, columns, batches[k]);
    }
  }

  lemma InsertBatchTarget(table: string, columns: seq<string>, rows: seq<Row>)
    requires '`' !in table && PlainIdents(columns)
    ensures InsertTarget(InsertBatch(table, columns, rows)) == Some((table, columns))
  {
    var body := Join(ValueTuples(rows), ",\n");
    InsertTargetOf(table, columns, "\n" + body + ";");
    assert InsertBatch(table, columns, rows) == InsertHeader(table, columns) + ("\n" + body + ";") by {
      SeqAssoc(InsertHeader(table, columns) + "\n", body, ";");
      SeqAssoc(InsertHeader(table, columns), "\n", body);
      SeqAssoc(InsertHeader(table, columns), "\n" + body, ";");
    }
  }

  // ----- batching -----

  /** The row slices taken at every multiple of the batch size:
      consecutive slices of `size` rows, the last one possibly shorter. */
  function Batches(rows: seq<Row>, size: nat): (batches: seq<seq<Row>>)
    requires size >= 1
    ensures Flatten(batches) == rows
    ensures forall k :: 0 <= k < |batches| ==> 1 <= |batches[k]| <= size
    ensures forall k :: 0 <= k < |batches| - 1 ==> |batches[k]| == size
    decreases |rows|
  {
    if rows == [] then []
    else if |rows| <= size then
      FlattenCons(rows, []);
      assert rows + [] == rows;
      [rows]
    else
      var rest := Batches(rows[size..], size);
      FlattenCons(rows[..size], rest);
      assert rows == rows[..size] + rows[size..];
      [rows[..size]] + rest
  }

  // ----- the INSERT statements of a frame -----

  /** One single-row INSERT per row, in row order. */
  function RowInserts(table: string, columns: seq<string>, rows: seq<Row>): (stmts: seq<string>)
    ensures |stmts| == |rows|
    ensures forall i :: 0 <= i < |rows| ==> stmts[i] == InsertRow(table, columns, rows[i])
  {
    if rows == [] then [] else [InsertRow(table, columns, rows[0])] + RowInserts(table, columns, rows[1..])
  }

  /** One multi-row INSERT per batch, in batch order. */
  function BatchInserts(table: string, columns: seq<string>, batches: seq<seq<Row>>): (stmts: seq<string>)
    ensures |stmts| == |batches|
    ensures forall k :: 0 <= k < |batches| ==> stmts[k] == InsertBatch(table, columns, batches[k])
  {
    if batches == [] then [] else [InsertBatch(table, columns, batches[0])] + BatchInserts(table, columns, batches[1..])
  }

  /** The larger of 1 and the requested batch size: the most rows one
      statement holds. */
  function RowsPerStatement(batchSize: int): nat {
    if batchSize <= 1 then 1 else batchSize
  }

  /** The INSERT statements for `rows`: one per row when `batchSize <= 1`,
      otherwise one per consecutive batch of `batchSize` rows. */
  function InsertStatements(table: string, columns: seq<string>, rows: seq<Row>, batchSize: int): (stmts: seq<string>)
    ensures |stmts| <= |rows|
    ensures stmts == [] <==> rows == []
    ensures batchSize <= 1 ==> |stmts| == |rows|
    ensures ValidRows(rows) ==>
              ReadInserts(stmts, InsertHeader(table, columns)) == Some(NormalizeRows(rows))
    ensures ValidRows(rows) ==>
              forall i :: 0 <= i < |stmts| ==>
                var back := ReadInsert(stmts[i], InsertHeader(table, columns));
                back.Some? && 1 <= |back.value| <= RowsPerStatement(batchSize)
                && (i < |stmts| - 1 ==> |back.value| == RowsPerStatement(batchSize))
    ensures '`' !in table && PlainIdents(columns) ==>
              forall i :: 0 <= i < |stmts| ==> InsertTarget(stmts[i]) == Some((table, columns))
  {
    if batchSize <= 1 then
      RowInsertsFacts(table, columns, rows, batchSize);
      RowInserts(table, columns, rows)
    else
      BatchInsertsFacts(table, columns, rows, batchSize);
      BatchInserts(table, columns, Batches(rows, batchSize))
  }

  /** The promises of `InsertStatements`, for statements `stmts` of either
      form. */
  predicate InsertStatementsFacts(table: string, columns: seq<string>, rows: seq<Row>, batchSize: int, stmts: seq<string>) {
    && |stmts| <= |rows|
    && (stmts == [] <==> rows == [])
    && (batchSize <= 1 ==> |stmts| == |rows|)
    && (ValidRows(rows) ==>
          ReadInserts(stmts, InsertHeader(table, columns)) == Some(NormalizeRows(rows)))
    && (ValidRows(rows) ==>
          forall i :: 0 <= i < |stmts| ==>
            var back := ReadInsert(stmts[i], InsertHeader(table, columns));
            back.Some? && 1 <= |back.value| <= RowsPerStatement(batchSize)
            && (i < |stmts| - 1 ==> |back.value| == RowsPerStatement(batchSize)))
    && ('`' !in table && PlainIdents(columns) ==>
          forall i :: 0 <= i < |stmts| ==> InsertTarget(stmts[i]) == Some((table, columns)))
  }

  lemma RowInsertsFacts(table: string, columns: seq<string>, rows: seq<Row>, batchSize: int)
    requires batchSize <= 1
    ensures InsertStatementsFacts(table, columns, rows, batchSize, RowInserts(table, columns, rows))
  {
    RowInsertsRead(table, columns, rows);
    if '`' !in table && PlainIdents(columns) {
      RowInsertsTarget(table, columns, rows);
    }
  }

  lemma BatchInsertsFacts(table: string, columns: seq<string>, rows: seq<Row>, batchSize: int)
    requires batchSize > 1
    ensures InsertStatementsFacts(table, columns, rows, batchSize, BatchInserts(table, columns, Batches(rows, batchSize)))
  {
    var batches := Batches(rows, batchSize);
    BatchInsertsRead(table, columns, rows, batches, batchSize);
    if '`' !in table && PlainIdents(columns) {
      BatchInsertsTarget(table, columns, batches);
    }
  }

  lemma RowInsertsRead(table: string, columns: seq<string>, rows: seq<Row>)
    ensures var stmts := RowInserts(table, columns, rows);
      ValidRows(rows) ==>
        ReadInserts(stmts, InsertHeader(table, columns)) == Some(NormalizeRows(rows)) &&
        forall i :: 0 <= i < |stmts| ==> ReadInsert(stmts[i], InsertHeader(table, columns)) == Some([NormalizeRow(rows[i])])
  {
    if ValidRows(rows) {
      ReadRowInserts(table, columns, rows);
      forall i | 0 <= i < |rows|
        ensures ReadInsert(InsertRow(table, columns, rows[i]), InsertHeader(table, columns)) == Some([NormalizeRow(rows[i])])
      {
        assert rows[i] in rows;
        ReadInsertRow(table, columns, rows[i]);
      }
    }
  }

  lemma BatchInsertsRead(table: string, columns: seq<string>, rows: seq<Row>, batches: seq<seq<Row>>, size: nat)
    requires size >= 1 && batches == Batches(rows, size)
    ensures var stmts := BatchInserts(table, columns, batches);
      |stmts| <= |rows| && (stmts == [] <==> rows == []) &&
      (ValidRows(rows) ==>
        ReadInserts(stmts, InsertHeader(table, columns)) == Some(NormalizeRows(rows)) &&
        forall k :: 0 <= k < |stmts| ==> ReadInsert(stmts[k], InsertHeader(table, columns)) == Some(NormalizeRows(batches[k])))
  {
    GroupCount(batches);
    if ValidRows(rows) {
      ReadBatchInserts(table, columns, batches);
      forall k | 0 <= k < |batches|
        ensures ReadInsert(InsertBatch(table, columns, batches[k]), InsertHeader(table, columns)) == Some(NormalizeRows(batches[k]))
      {
        FlattenContains(batches, k);
        ReadInsertBatch(table, columns, batches[k]);
      }
    }
  }

  lemma NormalizeRowsAppend(a: seq<Row>, b: seq<Row>)
    ensures NormalizeRows(a + b) == NormalizeRows(a) + NormalizeRows(b)
  {
    if a == [] {
      assert a + b == b;
    } else {
      assert (a + b)[1..] == a[1..] + b;
      NormalizeRowsAppend(a[1..], b);
    }
  }

  /** The single-row INSERTs read back as all the rows, in order. */
  lemma {:induction false} ReadRowInserts(table: string, columns: seq<string>, rows: seq<Row>)
    requires ValidRows(rows)
    ensures ReadInserts(RowInserts(table, columns, rows), InsertHeader(table, columns)) == Some(NormalizeRows(rows))
  {
    if rows != [] {
      var stmts := RowInserts(table, columns, rows);
      ValidRowsSplit([rows[0]], rows[1..]);
      assert rows == [rows[0]] + rows[1..];
      ReadInsertRow(table, columns, rows[0]);
      ReadRowInserts(table, columns, rows[1..]);
      assert stmts[1..] == RowInserts(table, columns, rows[1..]);
      ReadInsertsCons(stmts, InsertHeader(table, columns));
    }
  }

  /** The rows of a list of statements are those of the first followed by
      those of the others. */
  lemma ReadInsertsCons(stmts: seq<string>, header: string)
    requires stmts != []
    requires ReadInsert(stmts[0], header).Some? && ReadInserts(stmts[1..], header).Some?
    ensures ReadInserts(stmts, header) == Some(ReadInsert(stmts[0], header).value + ReadInserts(stmts[1..], header).value)
  {
  }

  lemma ValidRowsSplit(a: seq<Row>, b: seq<Row>)
    requires ValidRows(a + b)
    ensures ValidRows(a) && ValidRows(b)
  {
    assert forall r :: r in a ==> r in a + b;
    assert forall r :: r in b ==> r in a + b;
  }

  /** The multi-row INSERTs read back as all the rows of all the batches,
      in order. */
  lemma {:induction false} ReadBatchInserts(table: string, columns: seq<string>, batches: seq<seq<Row>>)
    requires forall k :: 0 <= k < |batches| ==> batches[k] != []
    requires ValidRows(Flatten(batches))
    ensures ReadInserts(BatchInserts(table, columns, batches), InsertHeader(table, columns)) == Some(NormalizeRows(Flatten(batches)))
  {
    if batches != [] {
      var stmts := BatchInserts(table, columns, batches);
      var rest := Flatten(batches[1..]);
      assert Flatten(batches) == batches[0] + rest;
      ValidRowsSplit(batches[0], rest);
      ReadInsertBatch(table, columns, batches[0]);
      ReadBatchInserts(table, columns, batches[1..]);
      assert stmts[1..] == BatchInserts(table, columns, batches[1..]);
      ReadInsertsCons(stmts, InsertHeader(table, columns));
      NormalizeRowsAppend(batches[0], rest);
    }
  }

  // ----- the handler's result -----

  datatype SqlOutput = SqlOutput(
    createTableStatement: string,
    insertStatements: seq<string>,
    rowCount: nat,
    columnCount: nat)

  /** The CSV-to-SQL conversion of a frame whose column dtypes are `dtypes`;
      `batchSize` absent means 1 (one INSERT per row). */
  function CsvToSql(frame: Frame, dtypes: seq<DType>, table: string, batchSize: Option<int>): (out: SqlOutput)
    requires WellFormed(frame) && |dtypes| == |frame.columns|
    ensures out.rowCount == |frame.rows| && out.columnCount == |frame.columns|
    ensures |out.insertStatements| <= |frame.rows|
    ensures out.insertStatements == [] <==> frame.rows == []
    ensures batchSize.GetOr(1) <= 1 ==> |out.insertStatements| == |frame.rows|
    ensures ValidRows(frame.rows) ==>
              ReadInserts(out.insertStatements, InsertHeader(table, frame.columns)) == Some(NormalizeRows(frame.rows))
    ensures ValidRows(frame.rows) ==>
              forall i :: 0 <= i < |out.insertStatements| ==>
                var back := ReadInsert(out.insertStatements[i], InsertHeader(table, frame.columns));
                back.Some? && 1 <= |back.value| <= RowsPerStatement(batchSize.GetOr(1))
                && (i < |out.insertStatements| - 1 ==> |back.value| == RowsPerStatement(batchSize.GetOr(1)))
    ensures ValidRows(frame.rows) ==>
              var back := ReadInserts(out.insertStatements, InsertHeader(table, frame.columns));
              back.Some? && forall k :: 0 <= k < |back.value| ==> |back.value[k]| == |frame.columns|
    ensures '`' !in table && PlainIdents(frame.columns) ==>
              ParseCreateTable(out.createTableStatement) == Some((table, Typed(frame.columns, dtypes)))
    ensures '`' !in table && PlainIdents(frame.columns) ==>
              forall i :: 0 <= i < |out.insertStatements| ==> InsertTarget(out.insertStatements[i]) == Some((table, frame.columns))
  {
    var create := CreateTable(table, frame.columns, dtypes);
    assert '`' !in table && PlainIdents(frame.columns) ==>
             ParseCreateTable(create) == Some((table, Typed(frame.columns, dtypes))) by {
      if '`' !in table && PlainIdents(frame.columns) {
        CreateTableRoundTrip(table, frame.columns, dtypes);
      }
    }
    var inserts := InsertStatements(table, frame.columns, frame.rows, batchSize.GetOr(1));
    NormalizedWidth(frame);
    SqlOutput(create, inserts, |frame.rows|, |frame.columns|)
  }

  /** Normalizing keeps one cell per column in every row. */
  lemma NormalizedWidth(frame: Frame)
    requires WellFormed(frame)
    ensures forall k :: 0 <= k < |NormalizeRows(frame.rows)| ==> |NormalizeRows(frame.rows)[k]| == |frame.columns|
  {
  }
}
