/**
  What a converted record holds, stated cell by cell against the row it
  came from: its keys, its tooltip list, its last-write-wins scalar fields,
  its colour, and its independence from all but the first role of each
  column.
 */
module RecordLaws {
  import opened Wrappers
  import opened DataView
  import opened Colors
  import opened Converter

  /** The keys the cells of `row` are stored under. */
  function RoleKeys(cols: seq<Column>, row: Row): set<string>
  {
    set i: nat | i < |row| && Resolvable(cols, i) :: KeyAt(cols, i)
  }

  /** Cell `i` is the last cell of `row` whose column's first role is `k`. */
  predicate LastWithKey(cols: seq<Column>, row: Row, k: string, i: nat)
  {
    && i < |row| && Resolvable(cols, i) && KeyAt(cols, i) == k
    && forall j: nat :: i < j < |row| && Resolvable(cols, j) ==> KeyAt(cols, j) != k
  }

  /** The tooltip lines of cells `i` onwards, in column order: a filter over the row. */
  function TooltipsFrom(cols: seq<Column>, row: Row, show: Value -> string, i: nat): seq<string>
    requires CellsResolvable(cols, row) && i <= |row|
    decreases |row| - i
  {
    if i == |row| then []
    else
      var here := if KeyAt(cols, i) == TooltipKey then [TooltipLine(cols[i], row[i], show)] else [];
      here + TooltipsFrom(cols, row, show, i + 1)
  }

  /** The tooltip lines of a whole row. */
  function TooltipLines(cols: seq<Column>, row: Row, show: Value -> string): seq<string>
    requires CellsResolvable(cols, row)
  {
    TooltipsFrom(cols, row, show, 0)
  }

  /** The fold stores exactly one key per distinct first role among the cells. */
  lemma {:induction false} FoldKeys(cols: seq<Column>, row: Row, show: Value -> string)
    requires CellsResolvable(cols, row)
    ensures FoldRow(cols, row, show).value.Keys == RoleKeys(cols, row)
    decreases |row|
  {
    if |row| > 0 {
      var n := |row| - 1;
      var prefix := row[..n];
      FoldKeys(cols, prefix, show);
      assert RoleKeys(cols, row) == RoleKeys(cols, prefix) + {KeyAt(cols, n)} by {
        forall k | k in RoleKeys(cols, row)
          ensures k in RoleKeys(cols, prefix) + {KeyAt(cols, n)}
        {
          var i: nat :| i < |row| && Resolvable(cols, i) && KeyAt(cols, i) == k;
          if i < n {
            assert k in RoleKeys(cols, prefix);
          }
        }
      }
    }
  }

  /** Appending a cell appends that cell's own tooltip lines, if any, to the filter. */
  lemma {:induction false} TooltipsFromSnoc(cols: seq<Column>, row: Row, show: Value -> string, i: nat)
    requires CellsResolvable(cols, row) && i < |row|
    ensures CellsResolvable(cols, row[..|row| - 1])
    ensures TooltipsFrom(cols, row, show, i)
         == TooltipsFrom(cols, row[..|row| - 1], show, i) + TooltipsFrom(cols, row, show, |row| - 1)
    decreases |row| - i
  {
    var n := |row| - 1;
    var prefix := row[..n];
    if i < n {
      assert prefix[i] == row[i];
      TooltipsFromSnoc(cols, row, show, i + 1);
    }
  }

  /**
    The fold's tooltip entry is the list of tooltip lines in column order,
    and it is present exactly when that list is not empty.
   */
  lemma {:induction false} FoldTooltips(cols: seq<Column>, row: Row, show: Value -> string)
    requires CellsResolvable(cols, row)
    ensures var d := FoldRow(cols, row, show).value;
      && (TooltipKey in d <==> TooltipLines(cols, row, show) != [])
      && (TooltipKey in d ==> d[TooltipKey] == Tooltips(TooltipLines(cols, row, show)))
    decreases |row|
  {
    if |row| > 0 {
      var n := |row| - 1;
      var prefix := row[..n];
      FoldTooltips(cols, prefix, show);
      TooltipsFromSnoc(cols, row, show, 0);
    }
  }

  /** For any key but `tooltip`, the fold holds the value of the last cell with that key. */
  lemma {:induction false} FoldLastWrite(cols: seq<Column>, row: Row, show: Value -> string, k: string)
    requires CellsResolvable(cols, row) && k != TooltipKey
    ensures forall i: nat :: LastWithKey(cols, row, k, i) ==>
      k in FoldRow(cols, row, show).value && FoldRow(cols, row, show).value[k] == Scalar(row[i])
    decreases |row|
  {
    if |row| > 0 {
      var n := |row| - 1;
      var prefix := row[..n];
      FoldLastWrite(cols, prefix, show, k);
      forall i: nat | LastWithKey(cols, row, k, i)
        ensures k in FoldRow(cols, row, show).value && FoldRow(cols, row, show).value[k] == Scalar(row[i])
      {
        if i < n {
          assert LastWithKey(cols, prefix, k, i);
        }
      }
    }
  }

  /** Every key that some cell is stored under has a last such cell. */
  lemma {:induction false} LastWithKeyExists(cols: seq<Column>, row: Row, k: string)
    requires k in RoleKeys(cols, row)
    ensures exists i: nat :: LastWithKey(cols, row, k, i)
    decreases |row|
  {
    var n := |row| - 1;
    if Resolvable(cols, n) && KeyAt(cols, n) == k {
      assert LastWithKey(cols, row, k, n);
    } else {
      var prefix := row[..n];
      var w: nat :| w < |row| && Resolvable(cols, w) && KeyAt(cols, w) == k;
      assert k in RoleKeys(cols, prefix) by {
        assert w < |prefix|;
      }
      LastWithKeyExists(cols, prefix, k);
      var i: nat :| LastWithKey(cols, prefix, k, i);
      assert LastWithKey(cols, row, k, i);
    }
  }

  /** A record's keys are the first roles of the row's columns, plus `color`. */
  lemma RecordKeys(cols: seq<Column>, row: Row, show: Value -> string)
    requires CellsResolvable(cols, row)
    ensures RowToRecord(cols, row, show).value.Keys == RoleKeys(cols, row) + {ColorKey}
  {
    FoldKeys(cols, row, show);
  }

  /**
    A record has a `tooltip` entry exactly when some column's first role is
    `tooltip`, and it lists "<display name>: <value>" for exactly those
    cells, in column order.
   */
  lemma RecordTooltips(cols: seq<Column>, row: Row, show: Value -> string)
    requires CellsResolvable(cols, row)
    ensures var r := RowToRecord(cols, row, show).value;
      && (TooltipKey in r <==> TooltipKey in RoleKeys(cols, row))
      && (TooltipKey in r <==> TooltipLines(cols, row, show) != [])
      && (TooltipKey in r ==> r[TooltipKey] == Tooltips(TooltipLines(cols, row, show)))
  {
    FoldKeys(cols, row, show);
    FoldTooltips(cols, row, show);
  }

  /**
    Any other entry but `color` holds the value of the last cell whose
    column's first role names it: later columns overwrite earlier ones.
   */
  lemma RecordScalars(cols: seq<Column>, row: Row, show: Value -> string, k: string)
    requires CellsResolvable(cols, row) && k != TooltipKey && k != ColorKey
    ensures var r := RowToRecord(cols, row, show).value;
      && (k in r <==> exists i: nat :: LastWithKey(cols, row, k, i))
      && forall i: nat :: LastWithKey(cols, row, k, i) ==> k in r && r[k] == Scalar(row[i])
  {
    FoldKeys(cols, row, show);
    FoldLastWrite(cols, row, show, k);
    if k in RoleKeys(cols, row) {
      LastWithKeyExists(cols, row, k);
    }
  }

  /**
    The `color` entry is always the classification of the last `category`
    cell, or amber when the row has no category; it replaces whatever a
    column with role `color` stored there.
   */
  lemma RecordColor(cols: seq<Column>, row: Row, show: Value -> string)
    requires CellsResolvable(cols, row)
    ensures var r := RowToRecord(cols, row, show).value;
      && (forall i: nat :: LastWithKey(cols, row, CategoryKey, i) ==>
            r[ColorKey] == Scalar(Text(ColorSPI(NumberOf(row[i])))))
      && (CategoryKey !in RoleKeys(cols, row) ==> r[ColorKey] == Scalar(Text(Amber)))
  {
    FoldKeys(cols, row, show);
    FoldLastWrite(cols, row, show, CategoryKey);
  }

  /** Two columns that agree on display name and first role convert alike. */
  predicate SameFirstRole(c: Column, c': Column)
  {
    && c.displayName == c'.displayName
    && c.roles.Some? == c'.roles.Some?
    && (c.roles.Some? && c'.roles.Some? ==> FirstRole(c.roles.value) == FirstRole(c'.roles.value))
  }

  predicate AgreeOnFirstRoles(cols: seq<Column>, cols': seq<Column>)
  {
    |cols| == |cols'| && forall i :: 0 <= i < |cols| ==> SameFirstRole(cols[i], cols'[i])
  }

  /** Roles after a column's first one never affect the fold. */
  lemma {:induction false} FoldOnlyFirstRole(cols: seq<Column>, cols': seq<Column>, row: Row, show: Value -> string)
    requires AgreeOnFirstRoles(cols, cols')
    ensures FoldRow(cols, row, show) == FoldRow(cols', row, show)
    decreases |row|
  {
    if |row| > 0 {
      FoldOnlyFirstRole(cols, cols', row[..|row| - 1], show);
    }
  }

  /** Mapping rows with two callbacks that agree on every row gives the same result. */
  lemma {:induction false} MapRowsAgree(rows: seq<Row>, f: Row -> Result<Record, CellError>, g: Row -> Result<Record, CellError>)
    requires forall k :: 0 <= k < |rows| ==> f(rows[k]) == g(rows[k])
    ensures MapRows(rows, f) == MapRows(rows, g)
    decreases |rows|
  {
    if |rows| > 0 {
      var n := |rows| - 1;
      assert forall k :: 0 <= k < n ==> rows[..n][k] == rows[k];
      MapRowsAgree(rows[..n], f, g);
    }
  }

  /** Roles after a column's first one never affect the converted table. */
  lemma ConvertOnlyFirstRole(table: Table, table': Table, show: Value -> string)
    requires table.rows == table'.rows && AgreeOnFirstRoles(table.columns, table'.columns)
    ensures Convert(table, show) == Convert(table', show)
  {
    var f := row => RowToRecord(table.columns, row, show);
    var g := row => RowToRecord(table'.columns, row, show);
    forall k | 0 <= k < |table.rows|
      ensures f(table.rows[k]) == g(table.rows[k])
    {
      FoldOnlyFirstRole(table.columns, table'.columns, table.rows[k], show);
    }
    MapRowsAgree(table.rows, f, g);
  }
}
