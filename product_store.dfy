/** The product management store: an object that owns the record table and
    changes it in place through add, delete and modify. */
module ProductStore {
  import opened RecordTable

  /** What an operation reports. Only Saved writes the table back to storage. */
  datatype Outcome = Saved | WidthMismatch | IdNotFound

  class PMS {
    /** The column names, fixed once the store exists. */
    var columns: seq<string>
    /** The rows, in table order. */
    var rows: seq<Row>
    /** The row labels of the table's index, one per row. */
    var index: seq<int>
    /** How many times the whole table has been written to storage. */
    var saves: nat

    /** Every row has one cell per column, and the index labels each row by
        its position, as a reset index does. */
    ghost predicate Valid()
      reads this
    {
      columns == Schema() &&
      (forall k :: 0 <= k < |rows| ==> |rows[k]| == |columns|) &&
      index == Positions(|rows|)
    }

    /** A store created when no storage file exists: the schema and no rows,
        written to storage at once. */
    constructor ()
      ensures Valid()
      ensures columns == Schema() && rows == [] && index == []
      ensures saves == 1
    {
      columns := Schema();
      rows := [];
      index := [];
      saves := 1;
    }

    /** A store read from an existing storage file whose rows are `table`.
        Reading does not write. */
    constructor Load(table: seq<Row>)
      requires forall k :: 0 <= k < |table| ==> |table[k]| == |Schema()|
      ensures Valid()
      ensures columns == Schema() && rows == table && index == Positions(|table|)
      ensures saves == 0
    {
      columns := Schema();
      rows := table;
      index := Positions(|table|);
      saves := 0;
    }

    /** The whole table, for display; nothing changes. */
    method ShowEntries() returns (cols: seq<string>, table: seq<Row>)
      requires Valid()
      ensures cols == Schema()
      ensures table == rows
      ensures forall k :: 0 <= k < |table| ==> |table[k]| == |cols|
    {
      cols, table := columns, rows;
    }

    /** Adds a row whose id is the current row count plus one, followed by
        `entry`. An entry that does not fill the remaining columns is refused
        and nothing is written. */
    method AddEntry(entry: seq<Value>) returns (outcome: Outcome)
      requires Valid()
      modifies this
      ensures Valid() && columns == old(columns)
      ensures outcome == (if |entry| + 1 == |columns| then Saved else WidthMismatch)
      ensures outcome == Saved ==>
        rows == old(rows) + [[Int(|old(rows)| + 1)] + entry] && saves == old(saves) + 1
      ensures outcome == WidthMismatch ==>
        rows == old(rows) && index == old(index) && saves == old(saves)
    {
      var newId := |rows| + 1;
      var withId := [Int(newId)] + entry;
      if |withId| != |columns| {
        return WidthMismatch;
      }
      // The label |rows| is not yet in the index, so writing the row under
      // that label appends it.
      var newLabel := |rows|;
      assert newLabel !in index;
      rows := rows + [withId];
      index := index + [newLabel];
      saves := saves + 1;
      outcome := Saved;
    }

    /** Removes every row that carries `id` and resets the index. An id that
        no row carries is refused and nothing is written. */
    method DeleteEntry(id: int) returns (outcome: Outcome)
      requires Valid()
      modifies this
      ensures Valid() && columns == old(columns)
      ensures outcome == (if HasId(old(rows), id) then Saved else IdNotFound)
      ensures outcome == Saved ==>
        rows == Without(old(rows), id) && saves == old(saves) + 1
      ensures outcome == IdNotFound ==>
        rows == old(rows) && index == old(index) && saves == old(saves)
    {
      if !HasId(rows, id) {
        return IdNotFound;
      }
      rows := Without(rows, id);
      index := Positions(|rows|);
      saves := saves + 1;
      outcome := Saved;
    }

    /** Applies `updates`, in order, to the first row that carries `id`,
        skipping and reporting the column names the table does not have, then
        resets the index. An id that no row carries is refused and nothing is
        written. */
    method ModifyEntry(id: int, updates: seq<Update>) returns (outcome: Outcome, unknown: seq<string>)
      requires Valid()
      modifies this
      ensures Valid() && columns == old(columns)
      ensures outcome == (if HasId(old(rows), id) then Saved else IdNotFound)
      ensures outcome == Saved ==>
        var p := FirstWith(old(rows), id);
        rows == old(rows)[p := Apply(old(rows)[p], columns, updates)] &&
        unknown == UnknownNames(updates, columns) &&
        saves == old(saves) + 1
      ensures outcome == IdNotFound ==>
        rows == old(rows) && index == old(index) && saves == old(saves) && unknown == []
    {
      if !HasId(rows, id) {
        return IdNotFound, [];
      }
      // The label of the first matching row; labels are positions.
      var rowIndex := index[FirstWith(rows, id)];
      unknown := [];
      for k := 0 to |updates|
        invariant columns == old(columns) && index == old(index) && saves == old(saves)
        invariant rows == old(rows)[rowIndex := Apply(old(rows)[rowIndex], columns, updates[..k])]
        invariant unknown == UnknownNames(updates[..k], columns)
      {
        assert updates[..k + 1][..k] == updates[..k];
        var (column, value) := updates[k];
        if column !in columns {
          unknown := unknown + [column];
        } else {
          rows := rows[rowIndex := rows[rowIndex][ColumnIndex(columns, column) := value]];
        }
      }
      assert updates[..|updates|] == updates;
      index := Positions(|rows|);
      saves := saves + 1;
      outcome := Saved;
    }
  }
}
