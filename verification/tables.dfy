/** The two tables of the pharmacy database as sequences of rows, in the
    order a plain `SELECT *` returns them (ascending key), and the SQL
    statements of the store as operations on those sequences. */
module Tables {

  datatype Option<T> = None | Some(value: T)

  /** A row of `medicines(id, name, price, quantity, expiry_date)`.  The price
      is a float column that nothing reasons about. */
  datatype Medicine = Medicine(id: int, name: string, price: real, quantity: int, expiry: string)

  /** A row of `sales(medicine_id, quantity)`; the reference is not enforced. */
  datatype Sale = Sale(medicineId: int, quantity: int)

  /** Keys in table order are strictly increasing, so no key is used twice. */
  ghost predicate IdsIncreasing(rows: seq<Medicine>)
  {
    forall i, j :: 0 <= i < j < |rows| ==> rows[i].id < rows[j].id
  }

  /** Every key is below the next key AUTOINCREMENT will hand out. */
  ghost predicate IdsBelow(rows: seq<Medicine>, bound: int)
  {
    forall i :: 0 <= i < |rows| ==> rows[i].id < bound
  }

  predicate HasId(rows: seq<Medicine>, id: int)
  {
    exists i :: 0 <= i < |rows| && rows[i].id == id
  }

  predicate HasName(rows: seq<Medicine>, name: string)
  {
    exists i :: 0 <= i < |rows| && rows[i].name == name
  }

  /** The application-level uniqueness of medicine names. */
  ghost predicate NamesDistinct(rows: seq<Medicine>)
  {
    forall i, j :: 0 <= i < j < |rows| ==> rows[i].name != rows[j].name
  }

  ghost predicate StockNonNegative(rows: seq<Medicine>)
  {
    forall i :: 0 <= i < |rows| ==> rows[i].quantity >= 0
  }

  /** `a` is `b` with some rows left out and the rest kept in order. */
  ghost predicate Sublist<T>(a: seq<T>, b: seq<T>)
    decreases |b|
  {
    if |a| == 0 then true
    else if |b| == 0 then false
    else (a[0] == b[0] && Sublist(a[1..], b[1..])) || Sublist(a, b[1..])
  }

  /** `SELECT * ... WHERE keep`: the rows that satisfy `keep`, in table order.
      The multiplicities together with `Sublist` pin the result down even
      when rows repeat: every kept occurrence is there, and nothing else. */
  function Select(rows: seq<Medicine>, keep: Medicine -> bool): (r: seq<Medicine>)
    ensures forall m :: m in r <==> m in rows && keep(m)
    ensures forall m :: multiset(r)[m] == if keep(m) then multiset(rows)[m] else 0
    ensures Sublist(r, rows)
    ensures (forall i :: 0 <= i < |rows| ==> keep(rows[i])) ==> r == rows
  {
    if |rows| == 0 then []
    else
      assert rows == [rows[0]] + rows[1..];
      if keep(rows[0]) then [rows[0]] + Select(rows[1..], keep)
      else Select(rows[1..], keep)
  }

  /** `fetchone()` after `SELECT ... WHERE name = ?`, and Python's
      `next(item for item in inventory if item[1] == name)`: the position of
      the first row with that name. */
  function FirstWithName(rows: seq<Medicine>, name: string): (r: Option<nat>)
    ensures r.None? <==> !HasName(rows, name)
    ensures r.Some? ==> r.value < |rows| && rows[r.value].name == name
    ensures r.Some? ==> forall j :: 0 <= j < r.value ==> rows[j].name != name
  {
    if |rows| == 0 then None
    else if rows[0].name == name then Some(0)
    else match FirstWithName(rows[1..], name)
      case None => None
      case Some(k) => Some(k + 1)
  }

  /** `UPDATE medicines SET ... WHERE id = ?`: every row with that key is
      rewritten by `change`, every other row stays, and the order is kept. */
  function UpdateWhereId(rows: seq<Medicine>, id: int, change: Medicine -> Medicine): (r: seq<Medicine>)
    ensures |r| == |rows|
    ensures forall i :: 0 <= i < |rows| ==> r[i] == if rows[i].id == id then change(rows[i]) else rows[i]
  {
    if |rows| == 0 then []
    else [if rows[0].id == id then change(rows[0]) else rows[0]] + UpdateWhereId(rows[1..], id, change)
  }

  /** `DELETE FROM medicines WHERE id = ?`: every row with the key goes,
      every other row stays, in order, and an absent key changes nothing. */
  function WithoutId(rows: seq<Medicine>, id: int): (r: seq<Medicine>)
    ensures forall m :: m in r <==> m in rows && m.id != id
    ensures forall m :: multiset(r)[m] == if m.id != id then multiset(rows)[m] else 0
    ensures Sublist(r, rows)
    ensures !HasId(rows, id) ==> r == rows
  {
    Select(rows, OtherId(id))
  }

  /** The `WHERE` condition that keeps the rows a delete of `id` spares. */
  function OtherId(id: int): Medicine -> bool
  {
    (m: Medicine) => m.id != id
  }

  /** `UPDATE medicines SET name = ?, price = ?, quantity = ?, expiry_date = ? WHERE id = ?`. */
  function Updated(rows: seq<Medicine>, id: int, name: string, price: real, quantity: int, expiry: string): (r: seq<Medicine>)
    ensures |r| == |rows|
    ensures forall i :: 0 <= i < |rows| ==>
              r[i] == if rows[i].id == id then Medicine(id, name, price, quantity, expiry) else rows[i]
    ensures !HasId(rows, id) ==> r == rows
  {
    UpdateWhereId(rows, id, (m: Medicine) => Medicine(m.id, name, price, quantity, expiry))
  }

  /** `UPDATE medicines SET quantity = quantity - ? WHERE id = ?`. */
  function Decremented(rows: seq<Medicine>, id: int, amount: int): (r: seq<Medicine>)
    ensures |r| == |rows|
    ensures forall i :: 0 <= i < |rows| ==>
              r[i] == if rows[i].id == id then rows[i].(quantity := rows[i].quantity - amount) else rows[i]
    ensures !HasId(rows, id) ==> r == rows
  {
    UpdateWhereId(rows, id, (m: Medicine) => m.(quantity := m.quantity - amount))
  }

  /** The stock held under key `id` (a sum over the rows with that key). */
  function StockOf(rows: seq<Medicine>, id: int): int
  {
    if |rows| == 0 then 0
    else (if rows[0].id == id then rows[0].quantity else 0) + StockOf(rows[1..], id)
  }

  /** The quantity recorded as sold against `id` in the sales table. */
  function SoldOf(sales: seq<Sale>, id: int): int
  {
    if |sales| == 0 then 0
    else SoldOf(sales[..|sales| - 1], id) + (if sales[|sales| - 1].medicineId == id then sales[|sales| - 1].quantity else 0)
  }

  /** With increasing keys, the rows after the first never carry its key. */
  lemma TailLacksFirstId(rows: seq<Medicine>)
    requires IdsIncreasing(rows) && |rows| > 0
    ensures IdsIncreasing(rows[1..])
    ensures !HasId(rows[1..], rows[0].id)
  {
    forall i | 0 <= i < |rows[1..]| ensures rows[1..][i].id != rows[0].id {
      assert rows[0].id < rows[i + 1].id;
    }
  }

  /** One step of a filter: the first row is kept iff it satisfies `keep`. */
  lemma SelectStep(rows: seq<Medicine>, keep: Medicine -> bool)
    requires |rows| > 0
    ensures Select(rows, keep) == (if keep(rows[0]) then [rows[0]] else []) + Select(rows[1..], keep)
  {
  }

  /** Dropping the row at `k > 0` keeps the first row in front. */
  lemma DropSplit(rows: seq<Medicine>, k: nat)
    requires 0 < k < |rows|
    ensures rows[..k] + rows[k + 1..] == [rows[0]] + (rows[1..][..k - 1] + rows[1..][k..])
  {
    assert rows[..k] == [rows[0]] + rows[1..][..k - 1];
    assert rows[1..][k..] == rows[k + 1..];
  }

  /** A filter that rejects exactly the row at `k` removes that one row and
      keeps the others in order. */
  lemma {:induction false} SelectDropsOne(rows: seq<Medicine>, keep: Medicine -> bool, k: nat)
    requires k < |rows|
    requires forall i :: 0 <= i < |rows| ==> (keep(rows[i]) <==> i != k)
    ensures Select(rows, keep) == rows[..k] + rows[k + 1..]
  {
    var tail := rows[1..];
    SelectStep(rows, keep);
    if k == 0 {
      forall i | 0 <= i < |tail| ensures keep(tail[i]) { assert tail[i] == rows[i + 1]; }
      assert Select(tail, keep) == tail;
    } else {
      DropSplit(rows, k);
      forall i | 0 <= i < |tail| ensures keep(tail[i]) <==> i != k - 1 { assert tail[i] == rows[i + 1]; }
      SelectDropsOne(tail, keep, k - 1);
    }
  }

  /** Deleting a key that is present removes exactly that one row and keeps
      the others in order. */
  lemma DeleteRemovesOne(rows: seq<Medicine>, k: nat)
    requires IdsIncreasing(rows) && k < |rows|
    ensures WithoutId(rows, rows[k].id) == rows[..k] + rows[k + 1..]
  {
    var keep := OtherId(rows[k].id);
    forall i | 0 <= i < |rows| ensures keep(rows[i]) <==> i != k {
      if i < k { assert rows[i].id < rows[k].id; }
      if k < i { assert rows[k].id < rows[i].id; }
    }
    SelectDropsOne(rows, keep, k);
  }

  /** A deletion keeps the store's key invariant: keys stay increasing and
      below the counter. */
  lemma DeleteKeepsKeys(rows: seq<Medicine>, id: int, bound: int)
    requires IdsIncreasing(rows) && IdsBelow(rows, bound)
    ensures IdsIncreasing(WithoutId(rows, id)) && IdsBelow(WithoutId(rows, id), bound)
  {
    var r := WithoutId(rows, id);
    SublistKeepsIdsIncreasing(r, rows);
    forall i | 0 <= i < |r| ensures r[i].id < bound {
      assert r[i] in rows;
    }
  }

  /** A deletion keeps keys increasing: it only drops rows. */
  lemma {:induction false} SublistKeepsIdsIncreasing(a: seq<Medicine>, b: seq<Medicine>)
    requires Sublist(a, b) && IdsIncreasing(b)
    ensures IdsIncreasing(a)
    ensures forall m :: m in a ==> m in b
    decreases |b|
  {
    if |a| > 0 && |b| > 0 {
      if a[0] == b[0] && Sublist(a[1..], b[1..]) {
        SublistKeepsIdsIncreasing(a[1..], b[1..]);
        forall j | 0 < j < |a| ensures a[0].id < a[j].id {
          assert a[j] == a[1..][j - 1];
          assert a[j] in a[1..];
          var t :| 0 <= t < |b[1..]| && b[1..][t] == a[j];
          assert b[t + 1] == a[j];
        }
        forall m | m in a ensures m in b {
          if m != a[0] { assert m in a[1..]; }
        }
      } else {
        SublistKeepsIdsIncreasing(a, b[1..]);
      }
    }
  }

  /** A key is present iff the first row has it or the rest does. */
  lemma HasIdStep(rows: seq<Medicine>, id: int)
    requires |rows| > 0
    ensures HasId(rows, id) <==> rows[0].id == id || HasId(rows[1..], id)
  {
    if HasId(rows, id) && rows[0].id != id {
      var i :| 0 <= i < |rows| && rows[i].id == id;
      assert rows[1..][i - 1].id == id;
    }
    if HasId(rows[1..], id) {
      var i :| 0 <= i < |rows[1..]| && rows[1..][i].id == id;
      assert rows[i + 1].id == id;
    }
  }

  /** With unique keys, a sale's decrement lowers the stock under the sold key
      by exactly the amount when the key is present, and not at all otherwise. */
  lemma {:induction false} DecrementLowersStock(rows: seq<Medicine>, id: int, amount: int)
    requires IdsIncreasing(rows)
    ensures StockOf(Decremented(rows, id, amount), id) == StockOf(rows, id) - (if HasId(rows, id) then amount else 0)
  {
    if |rows| > 0 {
      var d := Decremented(rows, id, amount);
      assert d[1..] == Decremented(rows[1..], id, amount);
      TailLacksFirstId(rows);
      HasIdStep(rows, id);
      DecrementLowersStock(rows[1..], id, amount);
    }
  }

  /** A decrement under one key leaves the stock under every other key alone. */
  lemma {:induction false} DecrementKeepsOtherStock(rows: seq<Medicine>, id: int, amount: int, other: int)
    requires other != id
    ensures StockOf(Decremented(rows, id, amount), other) == StockOf(rows, other)
  {
    if |rows| > 0 {
      assert Decremented(rows, id, amount)[1..] == Decremented(rows[1..], id, amount);
      DecrementKeepsOtherStock(rows[1..], id, amount, other);
    }
  }

  /** A recorded sale adds its quantity to what is sold under its key only. */
  lemma SaleAddsToSold(sales: seq<Sale>, s: Sale, id: int)
    ensures SoldOf(sales + [s], id) == SoldOf(sales, id) + (if s.medicineId == id then s.quantity else 0)
  {
    assert (sales + [s])[..|sales|] == sales;
  }

  /** The sale ledger: recording a sale of `amount` under a present key while
      decrementing that key's stock keeps stock-on-hand plus quantity-sold
      the same for every key. */
  lemma SaleKeepsLedger(rows: seq<Medicine>, sales: seq<Sale>, id: int, amount: int, key: int)
    requires IdsIncreasing(rows) && HasId(rows, id)
    ensures StockOf(Decremented(rows, id, amount), key) + SoldOf(sales + [Sale(id, amount)], key)
            == StockOf(rows, key) + SoldOf(sales, key)
  {
    SaleAddsToSold(sales, Sale(id, amount), key);
    if key == id {
      DecrementLowersStock(rows, id, amount);
    } else {
      DecrementKeepsOtherStock(rows, id, amount, key);
    }
  }

  /** Adding a row whose name is new keeps names distinct. */
  lemma AppendKeepsNamesDistinct(rows: seq<Medicine>, m: Medicine)
    requires NamesDistinct(rows) && !HasName(rows, m.name)
    ensures NamesDistinct(rows + [m])
  {
    forall i, j | 0 <= i < j < |rows + [m]| ensures (rows + [m])[i].name != (rows + [m])[j].name {
      if j == |rows| {
        assert (rows + [m])[i] == rows[i];
      }
    }
  }

  /** The update statement does not re-check names: renaming one row to the
      name of another makes two rows share a name. */
  lemma UpdateMayDuplicateName()
    ensures var rows := [Medicine(1, "Aspirin", 1.0, 5, "2030-01"), Medicine(2, "Ibuprofen", 2.0, 7, "2030-02")];
            NamesDistinct(rows) && !NamesDistinct(Updated(rows, 2, "Aspirin", 2.0, 7, "2030-02"))
  {
    var rows := [Medicine(1, "Aspirin", 1.0, 5, "2030-01"), Medicine(2, "Ibuprofen", 2.0, 7, "2030-02")];
    var u := Updated(rows, 2, "Aspirin", 2.0, 7, "2030-02");
    assert u[0].name == u[1].name;
  }
}
