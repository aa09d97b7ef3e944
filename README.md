# Product management record store, in Dafny

This project models the record store at the centre of the product management
system. The store is the class `PMS` in `app.py`. It keeps one table of
product orders with a fixed 11-column schema (`id`, `customer_name`, …,
`delivery_date`). It offers four operations: show the table, add an entry,
delete the entries with an id, and modify the entry with an id. Each
successful change writes the whole table back to storage.

- `record_table.dfy`, module `RecordTable`: cells (`Value`), rows, the schema
  and the specification functions. `Without` is what a deletion keeps.
  `FirstWith` is the row a modification targets. `Apply` is what a sequence of
  column updates does to a row. `UnknownNames` is the list of column names
  that get reported as missing. The lemmas characterise these functions
  independently of their definitions.
- `product_store.dfy`, module `ProductStore`: the class `PMS`. Its fields
  are the column list, the rows, the row labels of the table's index, and a
  count of storage writes. Its methods change these fields in place. Their
  postconditions tie the new state to the specification functions.
  `ModifyEntry` runs the update loop of `modify_entry` in app.py, with invariants.
- `scenarios.dfy`, module `Scenarios`: clients that run the store's
  intended use (create, add, delete, modify) through the class contracts
  alone. One of them shows that ids can repeat.

Design points, taken from the code:

- A new id is the current row count plus one (app.py:61). Ids are therefore
  not unique: adding after a deletion can reuse a live id. The model does not
  assume unique ids. `Scenarios.DuplicateIds` shows add, add, delete, add
  ending with two rows carrying id 2.
- A deletion removes every row that carries the id. A modification changes
  only the first such row (app.py:79, app.py:88). `Scenarios.SharedId` shows
  both on one table.
- The table's index is modelled as the `index` field. `Valid()` requires it
  to be the positions 0 .. n-1. This is why writing a row under the label
  `len(df)` appends it (app.py:68). It is also why the label `index[0]` found
  by a modification is the row's position (app.py:88). Delete and modify both
  end by resetting the index (app.py:80, app.py:94).
- Diagnostics become return values. `Outcome` says whether the call saved,
  refused a wrong width, or refused an unknown id. `ModifyEntry` also returns
  the unknown column names in the order it reports them.
- Writes to storage are counted in `saves`. A failed call never writes.

## Model

| member | source | states |
|---|---|---|
| `RecordTable.Schema` | app.py:19-31 | the schema has exactly 11 distinct column names, with `id` first and `price` eighth |
| `RecordTable.CarriesIdColumn` | app.py:79 | a row of the schema's width carries an id (`Carries`) exactly when its cell in the column named `id` is `Int(id)`; this is the comparison of the masks at app.py:79 and app.py:88 |
| `RecordTable.CountId` | app.py:79 | the number of rows carrying an id is at most the row count |
| `RecordTable.Without` | app.py:79 | the kept rows are rows of the table, none of them carries the id, and their number is the row count minus the number of rows that carry it |
| `RecordTable.CountIdZero` | app.py:76-79 | the membership test `HasId` (the id among the id column's values, app.py:76 and app.py:84) fails exactly when the count of rows carrying the id is zero |
| `RecordTable.WithoutShrinks` | app.py:76-79 | the filter removes some row if and only if `HasId` holds, which is the membership test the program checks first (app.py:76, and app.py:84 for modify) |
| `RecordTable.WithoutAbsent` | app.py:76-79 | deleting an id that no row carries keeps the table as it is |
| `RecordTable.WithoutConcat` | app.py:79 | filtering two stretches of rows is the concatenation of filtering each, so the filter works row by row in order |
| `RecordTable.WithoutKeeps` | app.py:79 | every row that does not carry the id survives, at the position given by the number of survivors before it |
| `RecordTable.WithoutKeepsOrder` | app.py:79 | two surviving rows keep their relative order |
| `RecordTable.FirstWith` | app.py:88 | the chosen row carries the id and no earlier row does |
| `RecordTable.ColumnIndex` | app.py:90-93 | the position found holds the column name, and no earlier column has that name |
| `RecordTable.SetCell` | app.py:90-93 | one update keeps the row's width |
| `RecordTable.Apply` | app.py:89-93 | applying the updates in order keeps the row's width |
| `RecordTable.UnknownNames` | app.py:89-91 | there are at most as many reports as updates, every reported name is missing from the schema, and every update whose column is missing gets reported |
| `RecordTable.UnknownNamesFromUpdates` | app.py:89-91 | every reported name is the column of one of the updates |
| `RecordTable.UnknownNamesConcat` | app.py:89-91 | reporting over two stretches of updates is the reports of the first followed by those of the second, so there is one report per unknown update, in update order |
| `RecordTable.ApplyUntouched` | app.py:89-93 | a cell whose column no update names keeps its value, so updates to unknown columns change nothing |
| `RecordTable.ApplyLastWins` | app.py:89-93 | a cell named by an update ends up holding the value of the last update that names it |
| `ProductStore.PMS.constructor` | app.py:16-47 | a new store has the 11 schema columns in order, no rows and an empty index, and has been written once |
| `ProductStore.PMS.Load` | app.py:48-52 | a store read from storage holds the stored rows, labelled 0 .. n-1, and writes nothing |
| `ProductStore.PMS.ShowEntries` | app.py:56-57 | the view is the whole table with the schema columns, every row as wide as the schema, and nothing changes |
| `ProductStore.PMS.AddEntry` | app.py:59-69 | a wrong width is refused with the table and storage untouched; otherwise the row `[row count + 1] + entry` is appended after the unchanged old rows and the table is written once |
| `ProductStore.PMS.DeleteEntry` | app.py:71-81 | an absent id is refused with nothing changed; otherwise the rows become `Without(old rows, id)`, the index becomes 0 .. n-1 and the table is written once |
| `ProductStore.PMS.ModifyEntry` | app.py:83-95 | an absent id is refused with nothing changed; otherwise only the first row carrying the id changes, to `Apply` of the updates, the unknown columns are reported in order, the row count, columns and index positions are kept, and the table is written once |
| `Scenarios.AddToFreshStore` | app.py:59-69 | a fresh store given one order shows exactly one row, with id 1 followed by the order's values, and a wider entry is refused |
| `Scenarios.DeleteFirstOfTwo` | app.py:71-81 | deleting id 1 from rows with ids 1 and 2 leaves the id-2 row alone at label 0, and deleting an absent id is refused |
| `Scenarios.ModifyPrice` | app.py:83-95 | setting the price of id 2 together with an unknown column changes only the price cell of that row |
| `Scenarios.ModifyReportsUnknown` | app.py:89-91 | the same modification reports `bogus_column` and nothing else |
| `Scenarios.DuplicateIds` | app.py:59-81 | add, add, delete id 1, add yields two rows that both carry id 2 |
| `Scenarios.SharedId` | app.py:79-93 | with two rows carrying id 2, modify changes only the first, and delete removes both |

## Left out

- Persistence (app.py:8-12, 47, 69, 81, 95) is reduced to the `saves` counter. The model keeps no file contents. A save that fails with `PermissionError` only prints a message and leaves the table as it is, so the model counts attempts, not successful writes.
- Checking whether the file exists and reading it (app.py:16, 48-54) become the choice between the two constructors. `Load` takes the stored rows as a parameter. `Load` assumes the stored file carries the schema header that the program itself writes, so every stored row is as wide as the schema; `pd.read_excel` would accept any header. A read that fails leaves the program's store without a table. The program gives that state no behaviour, so it is not modelled.
- Type coercion with `pd.to_datetime` and `pd.to_numeric` (app.py:36-45) acts on an empty table. Cells are the abstract `Value`, which has no dates and no parsing.
- Cell equality is `Value` equality. pandas would also find an id stored as the float 2.0 when asked for 2. The model's id cells written by `AddEntry` are always `Int`.
- The catch-all `except Exception` in `modify_entry` (app.py:96-97) catches pandas type errors. No abstract cell write can fail, so the model has no partial-update path.
- Printed diagnostics (app.py:12, 17, 50, 54, 57, 66, 77, 85, 91, 97) become the `Outcome` values and the list of unknown column names.
- `ProductStore.PMS.ModifyEntry`: its updates are a sequence of (column, value) pairs, which models the keyword arguments in their order. Python forbids two arguments with the same name and an update called `id`. The model allows both: a repeated column takes its last value, and `id` is written like any other column.
- The interactive menu (app.py:100-155) is left out, including its screen clearing and the tuple-wrapping of some prompted values. It is only input and output around the store.
