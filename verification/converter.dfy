/**
  The row-to-record conversion: each table row is folded, cell by cell, into
  a record keyed by the first role of each cell's column, and then coloured
  by its category.
 */
module Converter {
  import opened Wrappers
  import opened DataView
  import opened Colors

  /** A record entry: a cell value, or the accumulated tooltip lines. */
  datatype Field = Scalar(value: Value) | Tooltips(lines: seq<string>)

  /** One converted row: a JavaScript object with string keys. */
  type Record = map<string, Field>

  const TooltipKey: string := "tooltip"
  const ColorKey: string := "color"
  const CategoryKey: string := "category"

  /** The property name `undefined` becomes when used as a key. */
  const UndefinedKey: string := "undefined"

  /** Why a cell cannot be converted: JavaScript throws a TypeError. */
  datatype CellError =
    | NoColumn(cell: nat)   // the row has more cells than the table has columns
    | NoRoles(cell: nat)    // the cell's column has no roles object

  /** The converter throws on the first row holding a bad cell. */
  datatype ConvertError = ConvertError(row: nat, cause: CellError)

  /** The first key of a roles object; `undefined` when it has none. */
  function FirstRole(roles: seq<string>): string
  {
    if |roles| == 0 then UndefinedKey else roles[0]
  }

  /** Cell `i` has a column with a roles object, so its key can be read. */
  predicate Resolvable(cols: seq<Column>, i: nat)
  {
    i < |cols| && cols[i].roles.Some?
  }

  /** Every cell of the row can be resolved to a key. */
  predicate CellsResolvable(cols: seq<Column>, row: Row)
  {
    forall i: nat :: i < |row| ==> Resolvable(cols, i)
  }

  /** The key cell `i` is stored under: its column's first role. */
  function KeyAt(cols: seq<Column>, i: nat): string
    requires Resolvable(cols, i)
  {
    FirstRole(cols[i].roles.value)
  }

  /** `e` is the error thrown at the first cell of `row` that cannot be resolved. */
  predicate FirstBadCell(cols: seq<Column>, row: Row, e: CellError)
  {
    && e.cell < |row|
    && !Resolvable(cols, e.cell)
    && (e.NoColumn? <==> e.cell >= |cols|)
    && forall j: nat :: j < e.cell ==> Resolvable(cols, j)
  }

  /** The popup line for a tooltip cell; `show` is JavaScript's string conversion. */
  function TooltipLine(col: Column, v: Value, show: Value -> string): string
  {
    col.displayName + ": " + show(v)
  }

  /**
    One step of the per-row reduce: store cell `i` (value `v`) into `d`.
    A tooltip cell appends its line to the tooltip list, creating the list
    on the first one; any other role overwrites its key with the value.
    The JavaScript tests `!d[role]`; the tooltip key only ever holds a
    non-empty (so truthy) list, so that test is "the list is absent".
   */
  function WriteCell(d: Record, cols: seq<Column>, i: nat, v: Value, show: Value -> string): (r: Result<Record, CellError>)
    ensures r.Success? <==> Resolvable(cols, i)
    ensures r.Failure? ==> r.error.cell == i && (r.error.NoColumn? <==> i >= |cols|)
  {
    if i >= |cols| then Failure(NoColumn(i))
    else if cols[i].roles.None? then Failure(NoRoles(i))
    else
      var role := FirstRole(cols[i].roles.value);
      if role == TooltipKey then
        var line := TooltipLine(cols[i], v, show);
        if role in d && d[role].Tooltips? then Success(d[role := Tooltips(d[role].lines + [line])])
        else Success(d[role := Tooltips([line])])
      else
        Success(d[role := Scalar(v)])
  }

  /** The reduce over a row's cells, left to right, from the empty object. */
  function FoldRow(cols: seq<Column>, row: Row, show: Value -> string): (r: Result<Record, CellError>)
    ensures r.Success? <==> CellsResolvable(cols, row)
    ensures r.Failure? ==> FirstBadCell(cols, row, r.error)
    decreases |row|
  {
    if |row| == 0 then Success(map[])
    else
      var n := |row| - 1;
      assert forall j: nat :: j < n ==> row[..n][j] == row[j];
      match FoldRow(cols, row[..n], show)
      case Failure(e) => Failure(e)
      case Success(d) =>
        assert CellsResolvable(cols, row) <==> Resolvable(cols, n);
        WriteCell(d, cols, n, row[n], show)
  }

  /** The category a record's colour is computed from, as a comparison sees it. */
  function CategoryOf(d: Record): Option<real>
  {
    if CategoryKey in d && d[CategoryKey].Scalar? then NumberOf(d[CategoryKey].value) else None
  }

  /** The record's `color` entry is text naming one of the palette colours. */
  predicate HasPaletteColor(rec: Record)
  {
    ColorKey in rec && rec[ColorKey].Scalar? && rec[ColorKey].value.Text? && rec[ColorKey].value.s in Palette
  }

  /** One row's record: the folded cells, then `color` set from the category. */
  function RowToRecord(cols: seq<Column>, row: Row, show: Value -> string): (r: Result<Record, CellError>)
    ensures r.Success? <==> CellsResolvable(cols, row)
    ensures r.Failure? ==> FirstBadCell(cols, row, r.error)
    ensures r.Success? ==> HasPaletteColor(r.value)
  {
    match FoldRow(cols, row, show)
    case Failure(e) => Failure(e)
    case Success(d) => Success(d[ColorKey := Scalar(Text(ColorSPI(CategoryOf(d))))])
  }

  /**
    The `rows.map` over a table's rows with `convert` as the callback: one
    result per row, in row order, unless the callback throws, in which case
    the whole map throws the first row's error.
   */
  function MapRows(rows: seq<Row>, convert: Row -> Result<Record, CellError>): (r: Result<seq<Record>, ConvertError>)
    ensures r.Success? <==> forall k :: 0 <= k < |rows| ==> convert(rows[k]).Success?
    ensures r.Success? ==> |r.value| == |rows|
    ensures r.Success? ==> forall k :: 0 <= k < |rows| ==> convert(rows[k]) == Success(r.value[k])
    ensures r.Failure? ==> r.error.row < |rows| && convert(rows[r.error.row]) == Failure(r.error.cause)
    ensures r.Failure? ==> forall k :: 0 <= k < r.error.row ==> convert(rows[k]).Success?
    decreases |rows|
  {
    if |rows| == 0 then Success([])
    else
      var n := |rows| - 1;
      assert forall k :: 0 <= k < n ==> rows[..n][k] == rows[k];
      match MapRows(rows[..n], convert)
      case Failure(e) => Failure(e)
      case Success(recs) =>
        match convert(rows[n])
        case Failure(cause) => Failure(ConvertError(n, cause))
        case Success(rec) =>
          assert forall k :: 0 <= k < n ==> (recs + [rec])[k] == recs[k];
          Success(recs + [rec])
  }

  /**
    The visual's converter: each row of the table turned into its record,
    one record per row and in row order; the first row holding a cell that
    cannot be resolved makes the whole conversion throw.
   */
  function Convert(table: Table, show: Value -> string): (r: Result<seq<Record>, ConvertError>)
    ensures r.Success? <==> forall k :: 0 <= k < |table.rows| ==> CellsResolvable(table.columns, table.rows[k])
    ensures r.Success? ==> |r.value| == |table.rows|
    ensures r.Success? ==>
      forall k :: 0 <= k < |table.rows| ==> RowToRecord(table.columns, table.rows[k], show) == Success(r.value[k])
    ensures r.Success? ==> forall k :: 0 <= k < |r.value| ==> HasPaletteColor(r.value[k])
    ensures r.Failure? ==>
      && r.error.row < |table.rows|
      && FirstBadCell(table.columns, table.rows[r.error.row], r.error.cause)
      && forall k :: 0 <= k < r.error.row ==> CellsResolvable(table.columns, table.rows[k])
  {
    MapRows(table.rows, row => RowToRecord(table.columns, row, show))
  }
}
