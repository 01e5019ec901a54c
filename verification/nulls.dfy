/** The null-handling endpoint: for every requested column that the frame
    has, either drop the rows missing a value there or fill the missing
    values with zero or with a given value. */
module Nulls {
  import opened Wrappers
  import opened Frames

  /** The strategies modelled here. `Unrecognized` is any name the handler
      does not test for: it leaves the frame as it is. */
  datatype Strategy = Drop | Zero | Value | Unrecognized

  /** The strategy a request names; `None` for `mean`, `median` and `mode`,
      which are not part of this model. */
  function StrategyOf(name: string): (s: Option<Strategy>)
    ensures s == Some(Drop) <==> name == "drop"
    ensures s == Some(Zero) <==> name == "zero"
    ensures s == Some(Value) <==> name == "value"
    ensures s.None? <==> name in {"mean", "median", "mode"}
  {
    if name == "drop" then Some(Drop)
    else if name == "zero" then Some(Zero)
    else if name == "value" then Some(Value)
    else if name == "mean" || name == "median" || name == "mode" then None
    else Some(Unrecognized)
  }

  /** What `fillna(None)` raises. */
  const NoFillValue: string := "Must specify a fill 'value' or 'method'."

  /** The cell `fillna(0)` writes. */
  const ZeroCell: Cell := Num("0")

  // ----- the set-based reference -----

  /** The positions of the columns that `names` selects; names the frame
      does not have select nothing. */
  function Selected(columns: seq<string>, names: seq<string>): set<nat> {
    set j: nat | j < |columns| && columns[j] in names
  }

  /** `row` has a value in every selected column. */
  predicate NullFreeAt(row: Row, sel: set<nat>) {
    forall j :: j in sel && j < |row| ==> row[j] != Null
  }

  /** The rows with a value in every selected column, in their order. */
  function KeepNullFree(rows: seq<Row>, sel: set<nat>): (r: seq<Row>)
    ensures |r| <= |rows|
    ensures forall row :: row in r ==> row in rows && NullFreeAt(row, sel)
    ensures forall row :: row in rows && NullFreeAt(row, sel) ==> row in r
    ensures |rows| == 1 ==> (r == rows <==> NullFreeAt(rows[0], sel)) && (r == [] <==> !NullFreeAt(rows[0], sel))
  {
    if rows == [] then []
    else
      var rest := KeepNullFree(rows[1..], sel);
      assert forall row :: row in rows ==> row == rows[0] || row in rows[1..];
      if NullFreeAt(rows[0], sel) then [rows[0]] + rest else rest
  }

  /** `row` with every missing value in a selected column replaced by `v`. */
  function FillRow(row: Row, sel: set<nat>, v: Cell): (r: Row)
    ensures |r| == |row|
    ensures forall j :: 0 <= j < |row| && (j !in sel || row[j] != Null) ==> r[j] == row[j]
    ensures forall j :: 0 <= j < |row| && j in sel && row[j] == Null ==> r[j] == v
    ensures v != Null ==> NullFreeAt(r, sel)
  {
    seq(|row|, j requires 0 <= j < |row| => if j in sel && row[j] == Null then v else row[j])
  }

  /** Every row filled. */
  function FillRows(rows: seq<Row>, sel: set<nat>, v: Cell): (r: seq<Row>)
    ensures |r| == |rows|
    ensures forall i :: 0 <= i < |rows| ==> r[i] == FillRow(rows[i], sel, v)
  {
    seq(|rows|, i requires 0 <= i < |rows| => FillRow(rows[i], sel, v))
  }

  /** The rows a strategy leaves, by the set of selected columns. */
  function Expected(rows: seq<Row>, strategy: Strategy, sel: set<nat>, fill: Cell): seq<Row> {
    match strategy
    case Drop => KeepNullFree(rows, sel)
    case Zero => FillRows(rows, sel, ZeroCell)
    case Value => FillRows(rows, sel, fill)
    case Unrecognized => rows
  }

  // ----- the handler -----

  /** One pass of the loop: the strategy applied to one column name. */
  function ApplyOne(frame: Frame, strategy: Strategy, name: string, fill: Cell): Result<Frame>
    requires WellFormed(frame)
  {
    if name !in frame.columns then Ok(frame)
    else
      var sel := {ColumnIndex(frame.columns, name)};
      match strategy
      case Drop => Ok(Frame(frame.columns, KeepNullFree(frame.rows, sel)))
      case Zero => Ok(Frame(frame.columns, FillRows(frame.rows, sel, ZeroCell)))
      case Value =>
        if fill == Null then Err(NoFillValue)
        else Ok(Frame(frame.columns, FillRows(frame.rows, sel, fill)))
      case Unrecognized => Ok(frame)
  }

  /** The loop over the requested column names, in order. It fails exactly
      when a value fill is asked for without a value and some name is a
      column; otherwise the columns stay, and the rows are what the strategy
      makes of them with all the named columns selected at once. */
  function HandleNulls(frame: Frame, strategy: Strategy, names: seq<string>, fill: Cell): (r: Result<Frame>)
    requires WellFormed(frame)
    ensures r.Err? <==> strategy == Value && fill == Null && exists k :: 0 <= k < |names| && names[k] in frame.columns
    ensures r.Err? ==> r.message == NoFillValue
    ensures r.Ok? ==> r.value.columns == frame.columns && WellFormed(r.value)
    ensures r.Ok? ==> r.value.rows == Expected(frame.rows, strategy, Selected(frame.columns, names), fill)
    decreases |names|
  {
    if names == [] then
      assert Selected(frame.columns, names) == {};
      ExpectedNothing(frame.rows, strategy, fill);
      Ok(frame)
    else
      match ApplyOne(frame, strategy, names[0], fill)
      case Err(e) =>
        ApplyOneFacts(frame, strategy, names[0], fill);
        assert names[0] in frame.columns;
        Err(e)
      case Ok(next) =>
        ApplyOneFacts(frame, strategy, names[0], fill);
        ExpectedNothing(frame.rows, strategy, fill);
        SelectedCons(frame.columns, names);
        var r := HandleNulls(next, strategy, names[1..], fill);
        ExpectedCompose(frame.rows, strategy, Selected(frame.columns, names[..1]), Selected(frame.columns, names[1..]), fill);
        assert r.Err? ==> exists k :: 0 <= k < |names| && names[k] in frame.columns by {
          if r.Err? {
            var k :| 0 <= k < |names[1..]| && names[1..][k] in frame.columns;
            assert names[k + 1] in frame.columns;
          }
        }
        r
  }

  /** The endpoint's result. */
  datatype NullsOutput = NullsOutput(processedData: Frame, rowCount: nat)

  /** The `columns` key of a request: absent, JSON `null`, or a list of names. */
  datatype ColumnsField = Absent | JsonNull | Given(names: seq<string>)

  /** What iterating over `None` raises. */
  const NotIterable: string := "'NoneType' object is not iterable"

  /** The names the loop runs over: every column when the key is absent. */
  function Requested(frame: Frame, columns: ColumnsField): seq<string>
    requires !columns.JsonNull?
  {
    if columns.Given? then columns.names else frame.columns
  }

  /** The positions `0 .. n - 1`. */
  function Positions(n: nat): (ps: set<nat>)
    ensures forall j: nat :: j in ps <==> j < n
  {
    if n == 0 then {} else Positions(n - 1) + {n - 1}
  }

  /** The request: `columns` absent means every column, `fillValue` absent
      means the empty string. A `null` list of columns cannot be iterated
      over and fails before any column is treated. */
  function HandleNullsRequest(frame: Frame, strategyName: string, columns: ColumnsField, fillValue: Option<Cell>): (r: Result<NullsOutput>)
    requires WellFormed(frame) && StrategyOf(strategyName).Some?
    ensures columns.JsonNull? ==> r == Err(NotIterable)
    ensures !columns.JsonNull? ==>
              (r.Err? <==> strategyName == "value" && fillValue == Some(Null)
                           && exists k :: 0 <= k < |Requested(frame, columns)| && Requested(frame, columns)[k] in frame.columns)
    ensures !columns.JsonNull? && r.Err? ==> r.message == NoFillValue
    ensures r.Ok? ==> r.value.rowCount == |r.value.processedData.rows| <= |frame.rows|
    ensures r.Ok? ==> r.value.processedData.columns == frame.columns
    ensures r.Ok? ==>
              r.value.processedData.rows
                == Expected(frame.rows, StrategyOf(strategyName).value,
                            Selected(frame.columns, Requested(frame, columns)), fillValue.GetOr(Str("")))
    ensures columns.Absent? && r.Ok? ==>
              r.value.processedData.rows
                == Expected(frame.rows, StrategyOf(strategyName).value, Positions(|frame.columns|), fillValue.GetOr(Str("")))
  {
    if columns.JsonNull? then Err(NotIterable)
    else
      var strategy := StrategyOf(strategyName).value;
      var names := Requested(frame, columns);
      SelectedAll(frame.columns);
      match HandleNulls(frame, strategy, names, fillValue.GetOr(Str("")))
      case Err(e) => Err(e)
      case Ok(f) =>
        ExpectedLength(frame.rows, strategy, Selected(frame.columns, names), fillValue.GetOr(Str("")));
        Ok(NullsOutput(f, |f.rows|))
  }

  // ----- lemmas -----

  /** Selecting no column changes nothing. */
  lemma ExpectedNothing(rows: seq<Row>, strategy: Strategy, fill: Cell)
    ensures Expected(rows, strategy, {}, fill) == rows
  {
    KeepAll(rows, {});
    forall i | 0 <= i < |rows|
      ensures FillRow(rows[i], {}, ZeroCell) == rows[i] && FillRow(rows[i], {}, fill) == rows[i]
    {
    }
  }

  /** Naming every column selects every column. */
  lemma SelectedAll(columns: seq<string>)
    ensures Selected(columns, columns) == Positions(|columns|)
  {
    forall j: nat | j < |columns|
      ensures j in Selected(columns, columns)
    {
      assert columns[j] in columns;
    }
  }

  lemma {:induction false} KeepAll(rows: seq<Row>, sel: set<nat>)
    requires forall i :: 0 <= i < |rows| ==> NullFreeAt(rows[i], sel)
    ensures KeepNullFree(rows, sel) == rows
  {
    if rows != [] {
      KeepAll(rows[1..], sel);
    }
  }

  /** `KeepNullFree` is a filter: over a concatenation it keeps the rows it
      keeps from each part, in order, so with the one-row case it keeps
      exactly the null-free rows, in their order and with their repeats. */
  lemma {:induction false} KeepNullFreeAppend(a: seq<Row>, b: seq<Row>, sel: set<nat>)
    ensures KeepNullFree(a + b, sel) == KeepNullFree(a, sel) + KeepNullFree(b, sel)
    decreases |a|
  {
    if a == [] {
      assert a + b == b;
    } else {
      assert (a + b)[0] == a[0];
      assert (a + b)[1..] == a[1..] + b;
      KeepNullFreeAppend(a[1..], b, sel);
    }
  }

  lemma ExpectedLength(rows: seq<Row>, strategy: Strategy, sel: set<nat>, fill: Cell)
    ensures |Expected(rows, strategy, sel, fill)| <= |rows|
  {
  }

  /** A name that is a column selects its position, and only that. */
  lemma {:induction false} SelectedCons(columns: seq<string>, names: seq<string>)
    requires names != []
    requires forall a, b :: 0 <= a < b < |columns| ==> columns[a] != columns[b]
    ensures Selected(columns, names) == Selected(columns, names[..1]) + Selected(columns, names[1..])
    ensures names[0] in columns ==> Selected(columns, names[..1]) == {ColumnIndex(columns, names[0])}
    ensures names[0] !in columns ==> Selected(columns, names[..1]) == {}
  {
    assert forall n :: n in names <==> n in names[..1] || n in names[1..] by {
      assert names == names[..1] + names[1..];
    }
    if names[0] in columns {
      var j := ColumnIndex(columns, names[0]);
      forall k: nat | k in Selected(columns, names[..1])
        ensures k == j
      {
        assert columns[k] == names[0];
      }
    }
  }

  /** What one pass of the loop does, by the set it selects. */
  lemma ApplyOneFacts(frame: Frame, strategy: Strategy, name: string, fill: Cell)
    requires WellFormed(frame)
    ensures var r := ApplyOne(frame, strategy, name, fill);
      && (r.Err? <==> strategy == Value && fill == Null && name in frame.columns)
      && (r.Err? ==> r.message == NoFillValue)
      && (r.Ok? ==> r.value.columns == frame.columns && WellFormed(r.value))
      && (r.Ok? && name in frame.columns ==>
            r.value.rows == Expected(frame.rows, strategy, {ColumnIndex(frame.columns, name)}, fill))
      && (r.Ok? && name !in frame.columns ==> r.value == frame)
  {
    var r := ApplyOne(frame, strategy, name, fill);
    if r.Ok? && name in frame.columns {
      var sel := {ColumnIndex(frame.columns, name)};
      assert forall i :: 0 <= i < |r.value.rows| ==> r.value.rows[i] in frame.rows || strategy != Drop;
    }
  }

  /** Dropping by one set and then by another drops by both. */
  lemma {:induction false} KeepCompose(rows: seq<Row>, a: set<nat>, b: set<nat>)
    ensures KeepNullFree(KeepNullFree(rows, a), b) == KeepNullFree(rows, a + b)
  {
    if rows != [] {
      KeepCompose(rows[1..], a, b);
      var rest := KeepNullFree(rows[1..], a);
      if NullFreeAt(rows[0], a) {
        assert ([rows[0]] + rest)[1..] == rest;
      }
    }
  }

  /** Filling by one set and then by another fills by both. */
  lemma FillCompose(rows: seq<Row>, a: set<nat>, b: set<nat>, v: Cell)
    ensures FillRows(FillRows(rows, a, v), b, v) == FillRows(rows, a + b, v)
  {
    forall i | 0 <= i < |rows|
      ensures FillRow(FillRow(rows[i], a, v), b, v) == FillRow(rows[i], a + b, v)
    {
      var row := rows[i];
      var once := FillRow(row, a, v);
      forall j | 0 <= j < |row|
        ensures FillRow(once, b, v)[j] == FillRow(row, a + b, v)[j]
      {
        if j in a && row[j] == Null {
          assert once[j] == v;
        }
      }
    }
  }

  /** Two passes of a strategy are one pass with both selections. */
  lemma ExpectedCompose(rows: seq<Row>, strategy: Strategy, a: set<nat>, b: set<nat>, fill: Cell)
    ensures Expected(Expected(rows, strategy, a, fill), strategy, b, fill) == Expected(rows, strategy, a + b, fill)
  {
    match strategy
    case Drop => KeepCompose(rows, a, b);
    case Zero => FillCompose(rows, a, b, ZeroCell);
    case Value => FillCompose(rows, a, b, fill);
    case Unrecognized =>
  }

  /** Handling the nulls a second time, with the same request, changes
      nothing: the rows kept have no nulls left to drop, and the filled
      cells are no longer null. */
  lemma HandleNullsIdempotent(frame: Frame, strategy: Strategy, names: seq<string>, fill: Cell)
    requires WellFormed(frame) && HandleNulls(frame, strategy, names, fill).Ok?
    ensures HandleNulls(HandleNulls(frame, strategy, names, fill).value, strategy, names, fill)
              == HandleNulls(frame, strategy, names, fill)
  {
    var sel := Selected(frame.columns, names);
    ExpectedCompose(frame.rows, strategy, sel, sel, fill);
    assert sel + sel == sel;
  }

  /** Only the names that are columns matter: dropping the others from the
      request gives the same result. */
  lemma UnknownNamesIgnored(frame: Frame, strategy: Strategy, names: seq<string>, known: seq<string>, fill: Cell)
    requires WellFormed(frame)
    requires forall n :: n in known <==> n in names && n in frame.columns
    ensures HandleNulls(frame, strategy, names, fill) == HandleNulls(frame, strategy, known, fill)
  {
    SameSelection(frame.columns, names, known);
    SameNamedColumn(frame.columns, names, known);
    var r1 := HandleNulls(frame, strategy, names, fill);
    var r2 := HandleNulls(frame, strategy, known, fill);
    if r1.Ok? && r2.Ok? {
      assert r1.value == r2.value;
    }
  }

  lemma SameSelection(columns: seq<string>, names: seq<string>, known: seq<string>)
    requires forall n :: n in known <==> n in names && n in columns
    ensures Selected(columns, names) == Selected(columns, known)
  {
    forall j: nat | j < |columns|
      ensures columns[j] in names <==> columns[j] in known
    {
      assert columns[j] in columns;
    }
  }

  lemma SameNamedColumn(columns: seq<string>, names: seq<string>, known: seq<string>)
    requires forall n :: n in known <==> n in names && n in columns
    ensures (exists k :: 0 <= k < |names| && names[k] in columns)
        <==> (exists k :: 0 <= k < |known| && known[k] in columns)
  {
    if exists k :: 0 <= k < |names| && names[k] in columns {
      var k :| 0 <= k < |names| && names[k] in columns;
      assert names[k] in known;
    }
    if exists k :: 0 <= k < |known| && known[k] in columns {
      var k :| 0 <= k < |known| && known[k] in columns;
      assert known[k] in names;
    }
  }
}
