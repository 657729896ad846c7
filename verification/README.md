# templeaflet converter model

A Dafny model of the data transformation inside the Power BI map visual
`Visual` (`src/visual.ts`). The host hands the visual a table data view:
column metadata (a display name and a `roles` object per column) and rows of
cell values. `Visual.converter` turns every row into one record (a plain
JavaScript object) by reducing over the row's cells: the key of each cell is
the first role of its column; cells whose role is `tooltip` accumulate
`"<displayName>: <value>"` lines in a list, every other cell overwrites its
key with its value. After the reduce, the record's `color` is set from its
`category` by `Visual.colorSPI`, which classifies the category against 1:
green `#5b8943` above, red `#951a21` below, amber `#de913b` otherwise.

Modules:

- `Wrappers` (`wrappers.dfy`): `Option` and `Result`.
- `DataView` (`data_view.dfy`): cell values, columns, rows, tables.
- `Colors` (`colors.dfy`): the palette, JavaScript's number conversion for a
  comparison, and `ColorSPI`.
- `Converter` (`converter.dfy`): records, one reduce step (`WriteCell`), the
  reduce (`FoldRow`), one row's record (`RowToRecord`), the throwing
  `rows.map` (`MapRows`), and `Convert`.
- `RecordLaws` (`record_laws.dfy`): independent descriptions of a record
  (its key set, the tooltip filter, "last cell with this key") and the
  lemmas that tie the reduce to them.

Modelling choices:

- A record is a `map<string, Field>`, where a `Field` is a cell value or a
  list of tooltip lines. The colour is stored as a text value.
- A column's `roles` is the sequence of its role names in `Object.keys`
  order, or `None` when the column has no roles object. With an empty roles
  object the role is `undefined`, which JavaScript turns into the property
  name `"undefined"`; the model does the same.
- `converter` throws a TypeError when a row has more cells than there are
  columns, or when a cell's column has no roles object. Such a throw aborts
  the whole conversion. The model returns `Failure` with the row and the
  first bad cell.
- The JavaScript tooltip branch tests `!d[role]`. The `tooltip` key only ever holds a
  non-empty list, which is truthy, so the model tests "no list yet".
- Turning a cell value into text for a tooltip line is a parameter
  `show: Value -> string`. That is JavaScript's string conversion, which
  this model does not define.
- For numbers, booleans, null and missing values, a category is compared
  as JavaScript compares it against 1. Numbers
  compare as themselves, `true` as 1, `false` and `null` as 0. A missing
  category or a tooltip list compares as NaN, so both comparisons are false
  and the colour is amber.

## Model

| member | source | states |
|---|---|---|
| Colors.ColorSPI | src/visual.ts:68-79 | the colour is always one of the three palette colours; it is green exactly when the category is a number above 1, red exactly when it is below 1, and amber exactly when it equals 1 or is not comparable |
| Converter.WriteCell | src/visual.ts:86-103 | one reduce step succeeds exactly when the cell has a column with a roles object; otherwise it throws, reporting that cell and whether the column was missing |
| Converter.FoldRow | src/visual.ts:86-103 | the reduce over a row succeeds exactly when every cell has a column with a roles object; on failure it reports the first cell that lacks one |
| Converter.RowToRecord | src/visual.ts:86-107 | a row's record exists exactly when all its cells resolve, fails at the first bad cell otherwise, and always carries a palette colour under `color` |
| Converter.MapRows | src/visual.ts:85-108 | mapping the rows gives one result per row in row order when no row throws, and otherwise the error of the first row that throws |
| Converter.Convert | src/visual.ts:81-111 | the converter returns exactly one record per table row, in row order, each the record of its row and each with a palette colour; for a data view that has a table with columns and rows, it throws exactly when some row has a bad cell, reporting the first such row |
| RecordLaws.FoldKeys | src/visual.ts:86-103 | the reduce starts from an empty object and writes only each cell's role key, so its keys are exactly the first roles of the row's columns |
| RecordLaws.TooltipsFromSnoc | src/visual.ts:90-96 | appending a cell to a row appends exactly that cell's tooltip line, if it has one, to the row's tooltip lines |
| RecordLaws.FoldTooltips | src/visual.ts:90-96 | after the reduce the `tooltip` entry lists the tooltip cells' lines in column order, and it exists exactly when there is at least one |
| RecordLaws.FoldLastWrite | src/visual.ts:98-99 | after the reduce, any key other than `tooltip` holds the value of the last cell stored under it |
| RecordLaws.LastWithKeyExists | src/visual.ts:86-99 | every key a cell is stored under has a last (highest-index) such cell |
| RecordLaws.RecordKeys | src/visual.ts:86-105 | a record's keys are exactly the first roles of the row's columns plus `color` |
| RecordLaws.RecordTooltips | src/visual.ts:90-96 | a record has a `tooltip` entry exactly when some column's first role is `tooltip`; the entry lists `displayName: value` for exactly those cells, in column order |
| RecordLaws.RecordScalars | src/visual.ts:98-99 | every other key except `color` is present exactly when a cell is stored under it, and holds the value of the last such cell |
| RecordLaws.RecordColor | src/visual.ts:105 | `color` is the classification of the last `category` cell's value, or amber when the row has no category, and it replaces any value a `color`-role column stored |
| RecordLaws.FoldOnlyFirstRole | src/visual.ts:87 | two column lists that agree on each column's display name and first role give the same reduce result for every row |
| RecordLaws.ConvertOnlyFirstRole | src/visual.ts:81-111 | roles after the first one of any column never change the converter's output |

## Left out

- The constructor (src/visual.ts:37-66): it creates DOM elements and a Leaflet map with an ESRI basemap. These are foreign library calls.
- `popupStyle` (src/visual.ts:113-135): it only builds DOM nodes.
- `update` (src/visual.ts:137-177): viewport sizing, layer handling, marker creation and popup events are all UI glue. Its early-return guard at line 148 joins its two tests with `&&`, so it does not guard the dereference it seems meant to guard. This is outside the model.
- `destroy` (src/visual.ts:179-182) and all `console.log` calls: side effects only.
- Converter.Convert: the model always has a table with columns and rows. `converter` throws a TypeError at src/visual.ts:83 when the data view has no `table`, and at line 85 when the table has no `rows`; the host sends such a view when no fields are bound. These throws are not modelled.
- NumberOf: text cells compare as NaN here. JavaScript would turn numeric text such as `"2"` into a number first. The model does not parse strings.
- DataView.Value: there is no `Date` cell value. JavaScript compares a date by its timestamp.
- DataView.Value: numbers are exact reals. Floating-point rounding and NaN are not modelled.
- Converter.Record: a map has no key order. A JavaScript object keeps insertion order, and `Object.keys` lists integer-like role names first. This ordering is not modelled.
- Converter.Record: the property name `__proto__` is treated like any other key. In JavaScript, assigning to it changes the object's prototype.
- Converter.TooltipLine: JavaScript's value-to-string conversion is a parameter here, not a definition.
