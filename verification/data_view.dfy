/**
  The host's table-shaped data view, as the visual receives it: column
  metadata plus rows of primitive cell values.
 */
module DataView {
  import opened Wrappers

  /** A primitive cell value. Numbers are exact reals: no NaN, no rounding. */
  datatype Value = Num(n: real) | Text(s: string) | Bool(b: bool) | Null

  /**
    Column metadata: the display name and the keys of the column's `roles`
    object, in the order `Object.keys` lists them. `None` stands for a
    column that carries no roles object at all.
   */
  datatype Column = Column(displayName: string, roles: Option<seq<string>>)

  /** One table row: the cell in position `i` belongs to column `i`. */
  type Row = seq<Value>

  datatype Table = Table(columns: seq<Column>, rows: seq<Row>)
}
