/** Clients of the store that mirror its intended use. Each result is
    derived from the operations' contracts alone. */
module Scenarios {
  import opened RecordTable
  import opened ProductStore

  /** An example order: the ten data cells that follow the id. */
  function Order(name: string, product: string): (entry: seq<Value>)
    ensures |entry| + 1 == |Schema()|
  {
    [Text(name), Text("1 Main St"), Text(product), Text("A widget"), Text("Acme"),
     Text("10"), Real(9.99), Text("0%"), Text("2025-01-01"), Text("2025-01-05")]
  }

  /** A new store that receives one order shows exactly that order, under id 1. */
  method AddToFreshStore() returns (table: seq<Row>, wrongWidth: Outcome)
    ensures table == [[Int(1)] + Order("Ann", "Widget")]
    ensures wrongWidth == WidthMismatch
  {
    var store := new PMS();
    var outcome := store.AddEntry(Order("Ann", "Widget"));
    wrongWidth := store.AddEntry(Order("Ann", "Widget") + [Missing]);
    var cols;
    cols, table := store.ShowEntries();
  }

  /** Deleting id 1 from a table with ids 1 and 2 leaves the row with id 2 at
      position 0; deleting an absent id changes nothing. */
  method DeleteFirstOfTwo() returns (table: seq<Row>, labels: seq<int>, absent: Outcome)
    ensures table == [[Int(2)] + Order("Bob", "Gadget")]
    ensures labels == [0]
    ensures absent == IdNotFound
  {
    var store := new PMS();
    var outcome := store.AddEntry(Order("Ann", "Widget"));
    outcome := store.AddEntry(Order("Bob", "Gadget"));
    ghost var ann, bob := [Int(1)] + Order("Ann", "Widget"), [Int(2)] + Order("Bob", "Gadget");
    assert store.rows == [ann, bob];
    outcome := store.DeleteEntry(1);
    assert [ann, bob][1..] == [bob] && [bob][1..] == [];
    assert Carries(ann, 1) && !Carries(bob, 1);
    absent := store.DeleteEntry(7);
    table, labels := store.rows, store.index;
  }

  /** Modifying the price of id 2 together with a column the schema lacks
      writes the price into the row with id 2 and keeps every other cell. */
  method ModifyPrice() returns (row: Row)
    ensures row == ([Int(2)] + Order("Bob", "Gadget"))[7 := Real(15.0)]
  {
    ghost var ann, bob := [Int(1)] + Order("Ann", "Widget"), [Int(2)] + Order("Bob", "Gadget");
    var store := new PMS.Load([[Int(1)] + Order("Ann", "Widget"), [Int(2)] + Order("Bob", "Gadget")]);
    ghost var updates := [("price", Real(15.0)), ("bogus_column", Text("x"))];
    assert FirstWith(store.rows, 2) == 1 by {
      assert !Carries(ann, 2) && Carries(bob, 2);
      assert store.rows[1..][0] == bob;
    }
    assert Apply(bob, Schema(), updates) == bob[7 := Real(15.0)] by {
      assert updates[..1] == [updates[0]] && updates[..1][..0] == [];
      assert ColumnIndex(Schema(), "price") == 7 && "bogus_column" !in Schema();
    }
    var outcome, unknown := store.ModifyEntry(2, [("price", Real(15.0)), ("bogus_column", Text("x"))]);
    row := store.rows[1];
  }

  /** The same modification reports the column the schema lacks, and only it. */
  method ModifyReportsUnknown() returns (unknown: seq<string>)
    ensures unknown == ["bogus_column"]
  {
    var store := new PMS.Load([[Int(2)] + Order("Bob", "Gadget")]);
    ghost var updates := [("price", Real(15.0)), ("bogus_column", Text("x"))];
    assert Carries(store.rows[0], 2);
    assert UnknownNames(updates, Schema()) == ["bogus_column"] by {
      assert updates[..1] == [updates[0]] && updates[..1][..0] == [];
      assert "price" in Schema() && "bogus_column" !in Schema();
    }
    var outcome;
    outcome, unknown := store.ModifyEntry(2, [("price", Real(15.0)), ("bogus_column", Text("x"))]);
  }

  /** Because a new id is the row count plus one, adding after a deletion can
      reuse a live id. */
  method DuplicateIds() returns (table: seq<Row>)
    ensures table == [[Int(2)] + Order("Bob", "Gadget"), [Int(2)] + Order("Cy", "Gizmo")]
  {
    var store := new PMS();
    var outcome := store.AddEntry(Order("Ann", "Widget"));
    outcome := store.AddEntry(Order("Bob", "Gadget"));
    ghost var ann, bob := [Int(1)] + Order("Ann", "Widget"), [Int(2)] + Order("Bob", "Gadget");
    assert store.rows == [ann, bob];
    outcome := store.DeleteEntry(1);
    assert [ann, bob][1..] == [bob] && [bob][1..] == [];
    assert Carries(ann, 1) && !Carries(bob, 1);
    outcome := store.AddEntry(Order("Cy", "Gizmo"));
    table := store.rows;
  }

  /** With two rows sharing id 2, modifying id 2 touches only the first of
      them, while deleting id 2 removes both. */
  method SharedId() returns (modified: seq<Row>, remaining: nat)
    ensures modified == [([Int(2)] + Order("Bob", "Gadget"))[7 := Real(1.5)],
                         [Int(2)] + Order("Cy", "Gizmo")]
    ensures remaining == 0
  {
    ghost var bob, cy := [Int(2)] + Order("Bob", "Gadget"), [Int(2)] + Order("Cy", "Gizmo");
    var store := new PMS.Load([[Int(2)] + Order("Bob", "Gadget"), [Int(2)] + Order("Cy", "Gizmo")]);
    assert Carries(store.rows[0], 2) && FirstWith(store.rows, 2) == 0;
    var outcome, unknown := store.ModifyEntry(2, [("price", Real(1.5))]);
    assert [("price", Real(1.5))][..0] == [];
    assert ColumnIndex(Schema(), "price") == 7;
    modified := store.rows;
    assert modified == [bob[7 := Real(1.5)], cy];
    assert Carries(modified[0], 2) && Carries(modified[1], 2);
    assert modified[1..] == [modified[1]] && modified[1..][1..] == [];
    outcome := store.DeleteEntry(2);
    remaining := |store.rows|;
  }
}
