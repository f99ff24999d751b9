/** Client code that drives the store, using only the contracts of its
    operations, through a duplicate add, a sell-out followed by an
    over-sell, and a medicine expiring in the current month. */
module Scenarios {
  import opened MonthStrings
  import opened Tables
  import opened Queries
  import opened FormGuards
  import opened Store

  /** Adding the same name twice: the second add is refused and the table
      keeps the first row, with its quantity. */
  method DuplicateAdd()
  {
    var s := new InventoryStore();
    var first := s.InsertMedicine("Paracetamol", 2.5, 100, "2025-12");
    assert first == Added(1);
    assert s.medicines[0].name == "Paracetamol";
    var second := s.InsertMedicine("Paracetamol", 3.0, 50, "2026-01");
    assert second == DuplicateName;
    assert s.medicines == [Medicine(1, "Paracetamol", 2.5, 100, "2025-12")];
  }

  /** Selling the whole stock leaves it at zero and the row out of stock;
      asking for one more is refused and changes nothing. */
  method SellOut()
  {
    var s := new InventoryStore();
    var added := s.InsertMedicine("Ibuprofen", 1.0, 10, "2027-03");
    var ten := "10";
    assert ten == DecimalString(10) by {
      assert DecimalString(10) == DecimalString(1) + [DigitChar(0)];
    }
    SaleGateOnDecimal(10, 10);
    var sold := s.RecordSale("Ibuprofen", ten);
    assert sold == Sold(1, 10);
    assert s.medicines[0].quantity == 0;
    assert s.medicines[0] in OutOfStock(s.medicines);
    assert s.sales == [Sale(1, 10)];

    SaleGateOnDecimal(1, 0);
    var refused := s.RecordSale("Ibuprofen", DecimalString(1));
    assert refused == Refused(InsufficientStock);
    assert s.medicines[0].quantity == 0 && s.sales == [Sale(1, 10)];
  }

  /** A medicine expiring this month is expiring soon but not expired. */
  method ThisMonth(nowYear: nat, nowMonth: nat)
    requires ValidMonth(nowYear, nowMonth)
  {
    var s := new InventoryStore();
    var current := ExpiryString(nowYear, nowMonth);
    var added := s.InsertMedicine("Aspirin", 0.5, 20, current);
    CurrentMonthBoundary(s.medicines, s.medicines[0], current, current);
    assert s.medicines[0] !in Expired(s.medicines, current);
    assert s.medicines[0] in ExpiringSoon(s.medicines, current);
  }
}
