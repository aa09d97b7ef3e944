/** The record table of the product management system, as values: the schema,
    the cells, and the functions that say what a deletion and a modification
    do to the rows. The class in ProductStore is specified by these functions. */
module RecordTable {

  /** One cell of the table. Dates and prices are opaque to the store: it only
      compares the id cell and overwrites cells. */
  datatype Value = Missing | Int(i: int) | Real(r: real) | Text(s: string)

  /** A row lists its cells in column order; the id is the first cell. */
  type Row = seq<Value>

  /** An update names a column and the value to write into it. */
  type Update = (string, Value)

  predicate Distinct(names: seq<string>) {
    forall i, j :: 0 <= i < j < |names| ==> names[i] != names[j]
  }

  /** The column names of a newly created store, in order. */
  function Schema(): (cols: seq<string>)
    ensures |cols| == 11 && cols[0] == "id" && cols[7] == "price"
    ensures Distinct(cols)
  {
    ["id", "customer_name", "customer_address", "product_name", "description",
     "brand", "stock_quantity", "price", "discount", "order_date", "delivery_date"]
  }

  /** The positional labels 0 .. n-1 that a freshly reset index carries. */
  function Positions(n: nat): seq<int> {
    seq(n, i => i)
  }

  /** The row's id cell holds the identifier `id`. */
  predicate Carries(row: Row, id: int) {
    |row| > 0 && row[0] == Int(id)
  }

  /** For a row of the schema's width, the id cell that Carries inspects is
      the cell in the column named "id". */
  lemma CarriesIdColumn(row: Row, id: int)
    requires |row| == |Schema()|
    ensures Carries(row, id) <==> row[ColumnIndex(Schema(), "id")] == Int(id)
  {
    assert ColumnIndex(Schema(), "id") == 0;
  }

  /** Some row of the table carries the identifier `id`: the identifier is
      among the values of the id column. */
  predicate HasId(rows: seq<Row>, id: int) {
    exists row :: row in rows && Carries(row, id)
  }

  /** The number of rows that carry `id`. */
  function CountId(rows: seq<Row>, id: int): (n: nat)
    ensures n <= |rows|
  {
    if rows == [] then 0
    else (if Carries(rows[0], id) then 1 else 0) + CountId(rows[1..], id)
  }

  /** The rows that do not carry `id`, in their original order. */
  function Without(rows: seq<Row>, id: int): (kept: seq<Row>)
    ensures |kept| == |rows| - CountId(rows, id)
    ensures forall k :: 0 <= k < |kept| ==> kept[k] in rows && !Carries(kept[k], id)
  {
    if rows == [] then []
    else if Carries(rows[0], id) then Without(rows[1..], id)
    else [rows[0]] + Without(rows[1..], id)
  }

  /** The position of the first row that carries `id`. */
  function FirstWith(rows: seq<Row>, id: int): (p: nat)
    requires HasId(rows, id)
    ensures p < |rows| && Carries(rows[p], id)
    ensures forall k :: 0 <= k < p ==> !Carries(rows[k], id)
  {
    if Carries(rows[0], id) then 0
    else
      assert HasId(rows[1..], id) by {
        var row :| row in rows && Carries(row, id);
        assert rows == [rows[0]] + rows[1..];
      }
      1 + FirstWith(rows[1..], id)
  }

  /** The position of the column called `name`. */
  function ColumnIndex(cols: seq<string>, name: string): (k: nat)
    requires name in cols
    ensures k < |cols| && cols[k] == name
    ensures forall j :: 0 <= j < k ==> cols[j] != name
  {
    if cols[0] == name then 0 else 1 + ColumnIndex(cols[1..], name)
  }

  /** One update applied to a row: the named cell is overwritten when the
      column exists, and the row is left as it is when it does not. */
  function SetCell(row: Row, cols: seq<string>, u: Update): (r: Row)
    requires |row| == |cols|
    ensures |r| == |row|
  {
    if u.0 in cols then row[ColumnIndex(cols, u.0) := u.1] else row
  }

  /** The updates applied to a row one after the other, in their order. */
  function Apply(row: Row, cols: seq<string>, updates: seq<Update>): (r: Row)
    requires |row| == |cols|
    ensures |r| == |row|
    decreases |updates|
  {
    if updates == [] then row
    else SetCell(Apply(row, cols, updates[..|updates| - 1]), cols, updates[|updates| - 1])
  }

  /** The column names among the updates that the schema does not have, in the
      order they are reported. */
  function UnknownNames(updates: seq<Update>, cols: seq<string>): (names: seq<string>)
    ensures |names| <= |updates|
    ensures forall n :: n in names ==> n !in cols
    ensures forall k :: 0 <= k < |updates| && updates[k].0 !in cols ==> updates[k].0 in names
    decreases |updates|
  {
    if updates == [] then []
    else
      var last := updates[|updates| - 1];
      var prefix := UnknownNames(updates[..|updates| - 1], cols);
      assert forall k :: 0 <= k < |updates| - 1 ==> updates[..|updates| - 1][k] == updates[k];
      if last.0 in cols then prefix else prefix + [last.0]
  }

  /** Reporting over two stretches of updates is reporting over each, one
      name per unknown update in update order. */
  lemma {:induction false} UnknownNamesConcat(a: seq<Update>, b: seq<Update>, cols: seq<string>)
    ensures UnknownNames(a + b, cols) == UnknownNames(a, cols) + UnknownNames(b, cols)
    decreases |b|
  {
    if b == [] {
      assert a + b == a;
    } else {
      var ab, front, last := a + b, b[..|b| - 1], b[|b| - 1];
      var tail := if last.0 in cols then [] else [last.0];
      assert UnknownNames(ab, cols) == UnknownNames(a + front, cols) + tail by {
        assert ab[..|ab| - 1] == a + front && ab[|ab| - 1] == last;
      }
      assert UnknownNames(b, cols) == UnknownNames(front, cols) + tail;
      UnknownNamesConcat(a, front, cols);
    }
  }

  /** Every reported name is the column of some update that the schema lacks. */
  lemma {:induction false} UnknownNamesFromUpdates(updates: seq<Update>, cols: seq<string>, i: nat)
    requires i < |UnknownNames(updates, cols)|
    ensures exists k :: 0 <= k < |updates| && updates[k].0 == UnknownNames(updates, cols)[i]
    decreases |updates|
  {
    var prefix := updates[..|updates| - 1];
    var names := UnknownNames(prefix, cols);
    if i < |names| {
      UnknownNamesFromUpdates(prefix, cols, i);
      var k :| 0 <= k < |prefix| && prefix[k].0 == names[i];
      assert updates[k] == prefix[k];
    } else {
      assert updates[|updates| - 1].0 == UnknownNames(updates, cols)[i];
    }
  }

  // ---------------------------------------------------------------------
  // Deletion

  lemma {:induction false} CountIdZero(rows: seq<Row>, id: int)
    ensures CountId(rows, id) == 0 <==> !HasId(rows, id)
  {
    if rows != [] {
      CountIdZero(rows[1..], id);
      assert rows == [rows[0]] + rows[1..];
    }
  }

  /** A deletion removes a row exactly when some row carries the id. */
  lemma {:induction false} WithoutShrinks(rows: seq<Row>, id: int)
    ensures |Without(rows, id)| < |rows| <==> HasId(rows, id)
  {
    CountIdZero(rows, id);
  }

  /** Deleting an id that no row carries leaves the rows as they are. */
  lemma {:induction false} WithoutAbsent(rows: seq<Row>, id: int)
    requires !HasId(rows, id)
    ensures Without(rows, id) == rows
  {
    if rows != [] {
      assert rows[0] in rows;
      assert !HasId(rows[1..], id) by {
        forall row | row in rows[1..] ensures !Carries(row, id) {
          assert row in rows;
        }
      }
      WithoutAbsent(rows[1..], id);
    }
  }

  /** Deleting from two stretches of rows is deleting from each. */
  lemma {:induction false} WithoutConcat(a: seq<Row>, b: seq<Row>, id: int)
    ensures Without(a + b, id) == Without(a, id) + Without(b, id)
  {
    if a == [] {
      assert a + b == b;
    } else {
      assert (a + b)[0] == a[0];
      assert (a + b)[1..] == a[1..] + b;
      WithoutConcat(a[1..], b, id);
    }
  }

  /** A row that does not carry the id survives the deletion, at the position
      given by the number of survivors before it. */
  lemma WithoutKeeps(rows: seq<Row>, id: int, i: nat)
    requires i < |rows| && !Carries(rows[i], id)
    ensures |Without(rows[..i], id)| < |Without(rows, id)|
    ensures Without(rows, id)[|Without(rows[..i], id)|] == rows[i]
  {
    assert rows == rows[..i] + ([rows[i]] + rows[i + 1..]);
    WithoutConcat(rows[..i], [rows[i]] + rows[i + 1..], id);
    WithoutConcat([rows[i]], rows[i + 1..], id);
  }

  /** Survivors keep their relative order. */
  lemma WithoutKeepsOrder(rows: seq<Row>, id: int, i: nat, j: nat)
    requires i < j < |rows| && !Carries(rows[i], id) && !Carries(rows[j], id)
    ensures |Without(rows[..i], id)| < |Without(rows[..j], id)| < |Without(rows, id)|
    ensures Without(rows, id)[|Without(rows[..i], id)|] == rows[i]
    ensures Without(rows, id)[|Without(rows[..j], id)|] == rows[j]
  {
    WithoutKeeps(rows, id, i);
    WithoutKeeps(rows, id, j);
    assert rows[..j] == rows[..i] + rows[i..j];
    WithoutConcat(rows[..i], rows[i..j], id);
    assert rows[i..j] == [rows[i]] + rows[i + 1..j];
    WithoutConcat([rows[i]], rows[i + 1..j], id);
  }

  // ---------------------------------------------------------------------
  // Modification

  /** A cell whose column no update names keeps its value; in particular the
      updates whose column is not in the schema change nothing. */
  lemma {:induction false} ApplyUntouched(row: Row, cols: seq<string>, updates: seq<Update>, j: nat)
    requires |row| == |cols| && j < |row|
    requires forall k :: 0 <= k < |updates| ==> updates[k].0 != cols[j]
    ensures Apply(row, cols, updates)[j] == row[j]
    decreases |updates|
  {
    if updates != [] {
      var prefix := updates[..|updates| - 1];
      assert forall k :: 0 <= k < |prefix| ==> prefix[k] == updates[k];
      ApplyUntouched(row, cols, prefix, j);
    }
  }

  /** A cell named by some update ends up holding the value of the last update
      that names its column. */
  lemma {:induction false} ApplyLastWins(row: Row, cols: seq<string>, updates: seq<Update>, j: nat, k: nat)
    requires |row| == |cols| && Distinct(cols) && j < |row|
    requires k < |updates| && updates[k].0 == cols[j]
    requires forall k' :: k < k' < |updates| ==> updates[k'].0 != cols[j]
    ensures Apply(row, cols, updates)[j] == updates[k].1
    decreases |updates|
  {
    var prefix := updates[..|updates| - 1];
    if k < |updates| - 1 {
      assert forall m :: 0 <= m < |prefix| ==> prefix[m] == updates[m];
      ApplyLastWins(row, cols, prefix, j, k);
    }
  }
}
