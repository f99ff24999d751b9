/** The read-only queries of the store: name search and the three stock
    alerts.  Each is a filter over the `medicines` table that keeps table
    order; "now" enters only as the month texts the caller passes in. */
module Queries {
  import opened MonthStrings
  import opened Tables

  /** `t` occurs in `s` starting at position `i`. */
  predicate OccursAt(s: string, t: string, i: int)
  {
    0 <= i <= |s| - |t| && s[i..i + |t|] == t
  }

  /** `s` contains `t` as a contiguous piece, checked as: `t` is a prefix of
      `s` or of one of its suffixes. */
  predicate Contains(s: string, t: string): (r: bool)
    ensures r <==> exists i :: OccursAt(s, t, i)
    decreases |s|
  {
    if |t| <= |s| && s[..|t|] == t then
      assert OccursAt(s, t, 0);
      true
    else if |s| == 0 then false
    else
      assert forall i :: OccursAt(s, t, i) ==> i >= 1 && OccursAt(s[1..], t, i - 1);
      assert forall i :: OccursAt(s[1..], t, i) ==> OccursAt(s, t, i + 1);
      Contains(s[1..], t)
  }

  /** `SELECT * FROM medicines WHERE name LIKE '%term%'`, read as plain
      substring containment. */
  function Search(rows: seq<Medicine>, term: string): (r: seq<Medicine>)
    ensures forall m :: m in r <==> m in rows && Contains(m.name, term)
    ensures forall m :: multiset(r)[m] == if Contains(m.name, term) then multiset(rows)[m] else 0
    ensures Sublist(r, rows)
  {
    Select(rows, (m: Medicine) => Contains(m.name, term))
  }

  /** `SELECT * FROM medicines WHERE quantity = 0`. */
  function OutOfStock(rows: seq<Medicine>): (r: seq<Medicine>)
    ensures forall m :: m in r <==> m in rows && m.quantity == 0
    ensures forall m :: multiset(r)[m] == if m.quantity == 0 then multiset(rows)[m] else 0
    ensures Sublist(r, rows)
  {
    Select(rows, (m: Medicine) => m.quantity == 0)
  }

  /** `SELECT * FROM medicines WHERE expiry_date < ?` with the current month. */
  function Expired(rows: seq<Medicine>, currentMonth: string): (r: seq<Medicine>)
    ensures forall m :: m in r <==> m in rows && LexLess(m.expiry, currentMonth)
    ensures forall m :: multiset(r)[m] == if LexLess(m.expiry, currentMonth) then multiset(rows)[m] else 0
    ensures Sublist(r, rows)
  {
    Select(rows, (m: Medicine) => LexLess(m.expiry, currentMonth))
  }

  /** `SELECT * FROM medicines WHERE expiry_date <= ?` with the month thirty
      days ahead. */
  function ExpiringSoon(rows: seq<Medicine>, thresholdMonth: string): (r: seq<Medicine>)
    ensures forall m :: m in r <==> m in rows && LexLessEq(m.expiry, thresholdMonth)
    ensures forall m :: multiset(r)[m] == if LexLessEq(m.expiry, thresholdMonth) then multiset(rows)[m] else 0
    ensures Sublist(r, rows)
  {
    Select(rows, (m: Medicine) => LexLessEq(m.expiry, thresholdMonth))
  }

  /** Every expired row is also listed as expiring soon, since the threshold
      month is never before the current month. */
  lemma ExpiredWithinExpiringSoon(rows: seq<Medicine>, currentMonth: string, thresholdMonth: string)
    requires LexLessEq(currentMonth, thresholdMonth)
    ensures forall m :: m in Expired(rows, currentMonth) ==> m in ExpiringSoon(rows, thresholdMonth)
  {
    forall m | m in Expired(rows, currentMonth) ensures m in ExpiringSoon(rows, thresholdMonth) {
      if currentMonth != thresholdMonth {
        LexLessTransitive(m.expiry, currentMonth, thresholdMonth);
      }
    }
  }

  /** The month boundary: a row that expires in the current month is not
      yet expired but is expiring soon. */
  lemma CurrentMonthBoundary(rows: seq<Medicine>, m: Medicine, currentMonth: string, thresholdMonth: string)
    requires m in rows && m.expiry == currentMonth
    requires LexLessEq(currentMonth, thresholdMonth)
    ensures m !in Expired(rows, currentMonth)
    ensures m in ExpiringSoon(rows, thresholdMonth)
  {
    LexLessIrreflexive(currentMonth);
  }

  /** For expiry texts the forms build, the alert queries classify by the
      calendar: expired means an earlier month than now, expiring soon means
      a month no later than the threshold month. */
  lemma AlertsFollowCalendar(rows: seq<Medicine>, m: Medicine, year: nat, month: nat,
                             nowYear: nat, nowMonth: nat, thresholdYear: nat, thresholdMonth: nat)
    requires m in rows && m.expiry == ExpiryString(year, month)
    requires ValidMonth(year, month) && ValidMonth(nowYear, nowMonth) && ValidMonth(thresholdYear, thresholdMonth)
    ensures m in Expired(rows, ExpiryString(nowYear, nowMonth))
            <==> MonthIndex(year, month) < MonthIndex(nowYear, nowMonth)
    ensures m in ExpiringSoon(rows, ExpiryString(thresholdYear, thresholdMonth))
            <==> MonthIndex(year, month) <= MonthIndex(thresholdYear, thresholdMonth)
  {
    ExpiryOrderIsChronological(year, month, nowYear, nowMonth);
    ExpiryOrderIsChronological(year, month, thresholdYear, thresholdMonth);
  }

  /** Stock and expiry alerts are independent: a sold-out row that has
      expired appears in both lists. */
  lemma SoldOutAndExpired(rows: seq<Medicine>, m: Medicine, currentMonth: string)
    requires m in rows && m.quantity == 0 && LexLess(m.expiry, currentMonth)
    ensures m in OutOfStock(rows) && m in Expired(rows, currentMonth)
  {
  }
}
