/** The inventory store: the `medicines` and `sales` tables held in memory,
    with the mutating operations of the data-access layer and the sale form's
    path into them.  Each operation opens, commits and closes its own
    connection in `app.py`; here each is one method call on the store. */
module Store {
  import opened MonthStrings
  import opened Tables
  import opened FormGuards

  datatype AddOutcome = Added(id: int) | DuplicateName

  /** How the sale form ends: no medicines to choose from, the chosen name
      not in the table, the gate refusing the quantity, or a recorded sale. */
  datatype SaleOutcome = NoMedicines | UnknownMedicine | Refused(gate: GateOutcome) | Sold(medicineId: int, amount: nat)

  class InventoryStore {
    var medicines: seq<Medicine>
    var sales: seq<Sale>
    /** The key AUTOINCREMENT gives the next medicine: keys are never reused. */
    var nextId: int

    ghost predicate Valid()
      reads this
    {
      1 <= nextId && IdsIncreasing(medicines) && IdsBelow(medicines, nextId)
    }

    /** `create_tables` on a new database file: both tables empty. */
    constructor ()
      ensures Valid()
      ensures medicines == [] && sales == [] && nextId == 1
    {
      medicines := [];
      sales := [];
      nextId := 1;
    }

    /** `insert_medicine`: look the name up, and insert a row under a fresh
        key only when no row has that name. */
    method InsertMedicine(name: string, price: real, quantity: int, expiry: string) returns (outcome: AddOutcome)
      requires Valid()
      modifies this
      ensures Valid()
      ensures sales == old(sales)
      ensures outcome.DuplicateName? <==> HasName(old(medicines), name)
      ensures outcome.DuplicateName? ==> medicines == old(medicines) && nextId == old(nextId)
      ensures outcome.Added? ==> outcome.id == old(nextId) && !HasId(old(medicines), outcome.id)
      ensures outcome.Added? ==> medicines == old(medicines) + [Medicine(outcome.id, name, price, quantity, expiry)]
      ensures outcome.Added? ==> nextId == old(nextId) + 1
      ensures old(NamesDistinct(medicines)) ==> NamesDistinct(medicines)
    {
      match FirstWithName(medicines, name)
      case Some(_) =>
        outcome := DuplicateName;
      case None =>
        if NamesDistinct(medicines) {
          AppendKeepsNamesDistinct(medicines, Medicine(nextId, name, price, quantity, expiry));
        }
        outcome := Added(nextId);
        medicines := medicines + [Medicine(nextId, name, price, quantity, expiry)];
        nextId := nextId + 1;
    }

    /** `delete_medicine`: drop the row with that key; sales that refer to it
        are left in place. */
    method DeleteMedicine(id: int)
      requires Valid()
      modifies this
      ensures Valid()
      ensures medicines == WithoutId(old(medicines), id)
      ensures forall k :: 0 <= k < |old(medicines)| && old(medicines)[k].id == id ==>
                medicines == old(medicines)[..k] + old(medicines)[k + 1..]
      ensures !HasId(old(medicines), id) ==> medicines == old(medicines)
      ensures sales == old(sales) && nextId == old(nextId)
    {
      ghost var before := medicines;
      DeleteKeepsKeys(medicines, id, nextId);
      medicines := WithoutId(medicines, id);
      forall k | 0 <= k < |before| && before[k].id == id
        ensures medicines == before[..k] + before[k + 1..]
      {
        DeleteRemovesOne(before, k);
      }
    }

    /** `update_medicine`: overwrite all four fields of the row with that key;
        names are not re-checked, and an absent key changes nothing. */
    method UpdateMedicine(id: int, name: string, price: real, quantity: int, expiry: string)
      requires Valid()
      modifies this
      ensures Valid()
      ensures medicines == Updated(old(medicines), id, name, price, quantity, expiry)
      ensures |medicines| == |old(medicines)|
      ensures forall i :: 0 <= i < |medicines| ==>
                medicines[i] == if old(medicines)[i].id == id then Medicine(id, name, price, quantity, expiry)
                                else old(medicines)[i]
      ensures !HasId(old(medicines), id) ==> medicines == old(medicines)
      ensures sales == old(sales) && nextId == old(nextId)
    {
      medicines := Updated(medicines, id, name, price, quantity, expiry);
    }

    /** `manage_sales`: record the sale and lower that key's stock by the
        amount, as one step; nothing here checks the amount or the key. */
    method ManageSales(medicineId: int, amount: int)
      requires Valid()
      modifies this
      ensures Valid()
      ensures sales == old(sales) + [Sale(medicineId, amount)]
      ensures medicines == Decremented(old(medicines), medicineId, amount)
      ensures |medicines| == |old(medicines)|
      ensures forall i :: 0 <= i < |medicines| ==>
                medicines[i] == if old(medicines)[i].id == medicineId
                                then old(medicines)[i].(quantity := old(medicines)[i].quantity - amount)
                                else old(medicines)[i]
      ensures HasId(old(medicines), medicineId) ==>
                forall key :: StockOf(medicines, key) + SoldOf(sales, key)
                              == old(StockOf(medicines, key) + SoldOf(sales, key))
      ensures nextId == old(nextId)
    {
      ghost var rowsBefore, salesBefore := medicines, sales;
      sales := sales + [Sale(medicineId, amount)];
      medicines := Decremented(medicines, medicineId, amount);
      if HasId(rowsBefore, medicineId) {
        forall key
          ensures StockOf(medicines, key) + SoldOf(sales, key) == StockOf(rowsBefore, key) + SoldOf(salesBefore, key)
        {
          SaleKeepsLedger(rowsBefore, salesBefore, medicineId, amount, key);
        }
      }
    }

    /** `get_inventory`: every row, in table order. */
    method GetInventory() returns (rows: seq<Medicine>)
      ensures rows == medicines
    {
      rows := medicines;
    }

    /** The sale form: pick the first row with the chosen name, pass the
        entered text through the gate against that row's stock, and record
        the sale only if the gate accepts. */
    method RecordSale(name: string, text: string) returns (outcome: SaleOutcome)
      requires Valid()
      modifies this
      ensures Valid()
      ensures outcome == NoMedicines <==> |old(medicines)| == 0
      ensures outcome == UnknownMedicine <==> |old(medicines)| > 0 && !HasName(old(medicines), name)
      ensures |old(medicines)| > 0 && FirstWithName(old(medicines), name).Some? ==>
                var row := old(medicines)[FirstWithName(old(medicines), name).value];
                outcome == match SaleGate(text, row.quantity)
                           case Accept(k) => Sold(row.id, k)
                           case g => Refused(g)
      ensures !outcome.Sold? ==> medicines == old(medicines) && sales == old(sales)
      ensures outcome.Sold? ==> sales == old(sales) + [Sale(outcome.medicineId, outcome.amount)]
      ensures outcome.Sold? ==> medicines == Decremented(old(medicines), outcome.medicineId, outcome.amount)
      ensures |medicines| == |old(medicines)|
      ensures forall i :: 0 <= i < |medicines| && old(medicines)[i].quantity >= 0 ==> medicines[i].quantity >= 0
      ensures StockNonNegative(old(medicines)) ==> StockNonNegative(medicines)
      ensures nextId == old(nextId)
    {
      if |medicines| == 0 {
        return NoMedicines;
      }
      match FirstWithName(medicines, name)
      case None =>
        outcome := UnknownMedicine;
      case Some(i) =>
        var row := medicines[i];
        var g := SaleGate(text, row.quantity);
        if g.Accept? {
          GatedSaleKeepsStock(medicines, i, text);
          ManageSales(row.id, g.amount);
          outcome := Sold(row.id, g.amount);
        } else {
          outcome := Refused(g);
        }
    }
  }

  /** A sale the gate accepted leaves the sold row with its stock minus the
      amount, which is not negative, and with unique keys no other row moves. */
  lemma GatedSaleKeepsStock(rows: seq<Medicine>, i: nat, text: string)
    requires IdsIncreasing(rows) && i < |rows|
    requires SaleGate(text, rows[i].quantity).Accept?
    ensures var k := SaleGate(text, rows[i].quantity).amount;
            var after := Decremented(rows, rows[i].id, k);
            |after| == |rows| && after[i].quantity == rows[i].quantity - k >= 0 &&
            forall j :: 0 <= j < |rows| && j != i ==> after[j] == rows[j]
  {
    var k := SaleGate(text, rows[i].quantity).amount;
    var after := Decremented(rows, rows[i].id, k);
    forall j | 0 <= j < |rows| && j != i ensures after[j] == rows[j] {
      assert rows[j].id != rows[i].id by {
        if j < i { assert rows[j].id < rows[i].id; } else { assert rows[i].id < rows[j].id; }
      }
    }
  }
}
