# Pharmacy inventory store — a Dafny model

This project models the inventory core of a single-pharmacy stock and sales
tracker. The core is a data-access layer over two SQLite tables:

- `medicines(id, name, price, quantity, expiry_date)`, whose key is an
  AUTOINCREMENT integer;
- `sales(medicine_id, quantity)`, whose reference to a medicine is not
  enforced.

The layer offers these operations:

- add a medicine (refused when the name is already present);
- update and delete a medicine by key;
- record a sale and decrement the stock;
- read the inventory and search it by name;
- list three alerts: out of stock, expiring soon and expired.

Expiry dates are `"YYYY-MM"` text, and the alerts compare that text with
SQLite's text order. The forms that feed the store add two guards:

- the Add form's expiry pickers never offer a month before the current one;
- the sale form accepts a quantity only when it is all digits and at most the
  stock shown.

How the model is laid out:

- `month_strings.dfy` (`MonthStrings`) builds the expiry text as
  `f"{year}-{month:02d}"` does. It defines SQLite's byte-wise text order. It
  proves that, for four-digit years and months 1..12, text order equals
  calendar order.
- `tables.dfy` (`Tables`) has the row datatypes. Each SQL statement is an
  operation on sequences: `SELECT … WHERE` becomes `Select`, `UPDATE … WHERE
  id = ?` becomes `UpdateWhereId`, and `DELETE` becomes `WithoutId`. The module
  also proves the frame lemmas and the stock/sales ledger lemmas.
- `queries.dfy` (`Queries`) holds the search and the three alert filters.
- `form_guards.dfy` (`FormGuards`) holds the expiry windows of the Add and
  Update forms, `str.isdigit`/`int` on the quantity text, and the sale gate.
- `store.dfy` (`Store`) has the class `InventoryStore`. It holds the two
  tables as `seq` fields plus the AUTOINCREMENT counter. Its methods are
  `insert_medicine`, `delete_medicine`, `update_medicine`, `manage_sales`,
  `get_inventory`, and the sale form's path into `manage_sales`.
- `scenarios.dfy` drives the store through a duplicate add, a sell-out and
  an over-sell, and a current-month expiry. It uses only the contracts.

The model assumes that table order is ascending key. SQLite leaves the row
order of a `SELECT` without `ORDER BY` undefined. In practice, a plain
`SELECT *` on a table whose `id` is an `INTEGER PRIMARY KEY` scans in key
order, and the model takes that order. AUTOINCREMENT hands out keys above
every key ever used, so that order is also insertion order.
`InventoryStore.Valid()` keeps the keys strictly increasing and below the
counter.

The model keeps these behaviours of the code, even where a stricter design
would differ:

- A sale of quantity `0` passes the form's check, because `"0".isdigit()` is
  true, although a sale is meant to be of a positive quantity.
- `manage_sales` itself checks nothing. The stock check exists only in the
  sale form, and there is no `InsufficientStock` result from the store.
- Update and delete of an absent key are silent no-ops.
- Update does not re-check name uniqueness, so it can create duplicate names
  (`Tables.UpdateMayDuplicateName`).
- Stored quantities are modelled as `int`, not `nat`. The Update form passes
  any quantity through, so the code does not keep stock non-negative. The
  model proves instead that a gated sale never makes a non-negative stock
  negative.

## Model

| member | source | states |
|---|---|---|
| `MonthStrings.DecimalString` | app.py:140 | `str(year)` is a non-empty text of digits with no leading zero |
| `MonthStrings.ZeroPad` | app.py:140 | `:02d` pads on the left with zeros to the width and keeps the digits as the suffix; a wide enough text is unchanged |
| `MonthStrings.ExpiryString` | app.py:140 | `f"{year}-{month:02d}"` is `str(year)`, then `-`, then `:02d` of the month, which pads it to at least two digits: exactly two for a month below 100 |
| `MonthStrings.ExpiryStringShape` | app.py:179 | for a four-digit year and a month 1..12 the expiry text is 4 year digits, `-`, 2 month digits: 7 characters |
| `MonthStrings.ExpiryOrderIsChronological` | app.py:83-99 | on such texts, SQLite's `<` holds iff the first month is earlier in the calendar, `<=` iff not later, and `=` iff year and month are equal |
| `MonthStrings.PaddedMonthOrder` | app.py:140 | the zero-padded `YYYY-MM` form compares as (year, month) pairs and is injective |
| `MonthStrings.DigitsOrder` | app.py:140 | zero-padded decimal texts of one width are in numeric order, and equal only for equal numbers |
| `MonthStrings.DecimalIsDigits` | app.py:140 | `str(n)` of an n with exactly w digits is its w-digit zero-padded form |
| `MonthStrings.LexLess` | app.py:96 | SQLite's text `<`: the empty text is before exactly the non-empty texts, and nothing is before the empty text |
| `MonthStrings.LexLessEq` | app.py:87 | SQLite's text `<=` holds iff the second text is not strictly before the first |
| `MonthStrings.LexLessAppend` | app.py:87 | texts with equally long leading parts compare by those parts first, then by the rests |
| `MonthStrings.LexLessTransitive` | app.py:87 | SQLite's text order is transitive |
| `MonthStrings.LexLessIrreflexive` | app.py:96 | no text is strictly before itself |
| `MonthStrings.LexLessAsymmetric` | app.py:96 | two texts are never each strictly before the other |
| `MonthStrings.LexLessTotal` | app.py:96 | two different texts are ordered one way or the other |
| `MonthStrings.LexLessEqTransitive` | app.py:87 | the non-strict text order is transitive |
| `Tables.Select` | app.py:78 | a `WHERE` filter keeps exactly the rows that satisfy the condition, each as often as it occurs, in table order, and keeps every row when all satisfy it |
| `Tables.FirstWithName` | app.py:23-24 | the lookup by name finds nothing iff no row has the name, and otherwise the first row with it |
| `Tables.UpdateWhereId` | app.py:54 | an `UPDATE … WHERE id = ?` rewrites exactly the rows with that key, leaves all others, keeps the length |
| `Tables.WithoutId` | app.py:47 | `DELETE … WHERE id = ?` keeps exactly the rows with another key, each as often as it occurs, in order, and is a no-op for an absent key |
| `Tables.Updated` | app.py:54 | the update sets name, price, quantity and expiry of every row with the key, leaves all other rows, keeps the length, and is a no-op for an absent key |
| `Tables.Decremented` | app.py:71 | `quantity = quantity - ?` lowers the quantity of every row with the key by the amount, leaves all other rows, keeps the length, and is a no-op for an absent key |
| `Tables.SelectDropsOne` | app.py:47 | a filter that rejects exactly one position removes just that row and keeps the rest in order |
| `Tables.DeleteRemovesOne` | app.py:47 | with unique keys, deleting a present key removes exactly that one row: `rows[..k] + rows[k+1..]` |
| `Tables.SublistKeepsIdsIncreasing` | app.py:47 | dropping rows keeps keys increasing and adds no row |
| `Tables.DeleteKeepsKeys` | app.py:47 | a delete keeps keys increasing and below the AUTOINCREMENT counter |
| `Tables.DecrementLowersStock` | app.py:71 | the decrement lowers the stock under the sold key by exactly the amount when the key is present, and not at all otherwise |
| `Tables.DecrementKeepsOtherStock` | app.py:71 | the decrement leaves the stock under every other key unchanged |
| `Tables.SaleAddsToSold` | app.py:70 | the inserted sale adds its quantity to the sold total of its key only |
| `Tables.SaleKeepsLedger` | app.py:67-73 | for a present key, a sale keeps stock-on-hand plus quantity-sold unchanged for every key |
| `Tables.AppendKeepsNamesDistinct` | app.py:26-31 | inserting a row whose name is absent keeps names pairwise distinct |
| `Tables.UpdateMayDuplicateName` | app.py:54-55 | the update does not re-check names: it can turn distinct names into duplicates |
| `Queries.Contains` | app.py:39 | `'%term%'` matches a name iff the term occurs in it at some position |
| `Queries.Search` | app.py:39 | search returns exactly the rows whose name contains the term, each as often as it occurs, in table order |
| `Queries.OutOfStock` | app.py:78 | out-of-stock returns exactly the rows with quantity 0, each as often as it occurs, in table order |
| `Queries.Expired` | app.py:96 | expired returns exactly the rows whose expiry text is before the current month, each as often as it occurs, in table order |
| `Queries.ExpiringSoon` | app.py:87 | expiring-soon returns exactly the rows whose expiry text is at or before the threshold month, each as often as it occurs, in table order |
| `Queries.ExpiredWithinExpiringSoon` | app.py:83-99 | with the threshold not before the current month, every expired row is also expiring soon |
| `Queries.CurrentMonthBoundary` | app.py:83-99 | a row expiring in the current month is not expired but is expiring soon |
| `Queries.AlertsFollowCalendar` | app.py:83-99 | for form-built expiry texts, expired means an earlier calendar month than now and expiring soon means no later than the threshold month |
| `Queries.SoldOutAndExpired` | app.py:75-99 | a sold-out expired row is listed both as out of stock and as expired |
| `FormGuards.AddWindowAllows` | app.py:135-139 | for a current month 1..12, the Add form offers exactly the months 1..12 of the next ten years (this one included) that are not before the current month |
| `FormGuards.UpdateWindowAllows` | app.py:174-177 | the Update form offers exactly the months 1..12 from January of this year up to, not including, January ten years on |
| `FormGuards.AddWindowNeverExpired` | app.py:135-140 | a month the Add form offers gives a 7-character expiry text that is not before the current month and lies less than ten years ahead |
| `FormGuards.UpdateWindowCanExpire` | app.py:174-179 | the Update form offers every month 1..12 of the current year; after January that includes the previous month, which is already expired |
| `FormGuards.UpdateWindowInJanuary` | app.py:174-179 | in January no month the Update form offers is already expired |
| `FormGuards.IsDigitText` | app.py:259 | `"".isdigit()` is false, and the decimal text of every non-negative integer passes |
| `FormGuards.ParseDecimal` | app.py:263 | `int` of a text of w digits is below 10^w |
| `FormGuards.ParseDecimalRoundTrip` | app.py:263 | `int(str(n)) == n` |
| `FormGuards.ParseDecimalLeadingZero` | app.py:263 | `int` ignores a leading zero |
| `FormGuards.SaleGate` | app.py:259-266 | refused as invalid iff the text is not all digits; refused for insufficient stock iff it is all digits and its value exceeds the stock; accepted iff it is all digits and its value is at most the stock, and then the amount is that value and leaves the stock non-negative |
| `FormGuards.SaleGateOnDecimal` | app.py:259-266 | entering the decimal text of n records n iff n is at most the stock, and is refused for insufficient stock otherwise |
| `FormGuards.LeadingZeroSale` | app.py:259-266 | `"05"` against a stock of at least 5 sells 5 |
| `FormGuards.ZeroSaleAccepted` | app.py:259 | `"0"` passes the gate, so a zero-quantity sale is recorded |
| `Store.InventoryStore.constructor` | app.py:8-18 | freshly created tables are empty and the first key will be 1 |
| `Store.InventoryStore.InsertMedicine` | app.py:20-34 | refused iff the name is present, and then nothing changes; otherwise exactly one row is appended under a fresh key with the given fields, earlier rows are untouched, and distinct names stay distinct |
| `Store.InventoryStore.DeleteMedicine` | app.py:44-49 | removes exactly the row with the key, keeps the others in order, is a no-op for an absent key, and never touches the sales |
| `Store.InventoryStore.UpdateMedicine` | app.py:51-57 | sets all four fields of the row with the key, leaves every other row and the length unchanged, and is a no-op for an absent key |
| `Store.InventoryStore.ManageSales` | app.py:67-73 | appends exactly one sale `(id, amount)` and lowers that key's quantity by the amount, no other row changes, and, for a key that is present, stock plus sold stays constant per key (for an absent key the sold total grows and no stock moves) |
| `Store.InventoryStore.GetInventory` | app.py:59-65 | returns every row in table order and changes nothing |
| `Store.InventoryStore.RecordSale` | app.py:240-267 | the sale form: the first row with the name is checked by the gate; only an accepted amount reaches `ManageSales`; a refused sale changes nothing; no row's stock goes from non-negative to negative, so a table with no negative stock keeps none |
| `Store.GatedSaleKeepsStock` | app.py:259-266 | after an accepted sale the sold row holds its stock minus the amount, which is non-negative, and with unique keys no other row changes |

## Left out

- The Streamlit pages, menus, messages and table rendering, and pandas, are
  left out: they are presentation only. Of the forms, the model keeps the
  expiry-month pickers of the Add and Update forms and the sale form's
  quantity check.
- Opening, committing and closing the SQLite connection is left out. So is
  the storage file: the tables are in-memory state of one store object.
  `create_tables` is the constructor on an empty database; reopening an
  existing file is not modelled.
- The clock is not modelled. `datetime.now()` and the `now + 30 days` month
  used by `get_expiring_soon` are parameters: the current month text and the
  threshold month text. Near the end of January, thirty days ahead can land
  in March, so the model does not compute the threshold.
- `price` is a `real` that nothing reasons about. Float rounding is not
  modelled.
- Queries.Search: the model matches plain, case-sensitive substrings.
  SQLite's `LIKE` also folds ASCII case and treats `%` and `_` in the term as
  wildcards.
- Queries.Contains: the same plain, case-sensitive match as `Queries.Search`,
  with no `LIKE` wildcards or case folding.
- FormGuards.IsDigitText: accepts ASCII digits only, unlike Python's
  `str.isdigit()` (see the next line).
- The "in table order" parts of the contracts of `Tables.Select`,
  `Tables.FirstWithName` and the four `Queries` filters rest on the assumption
  that rows come back in key order. SQLite does not promise that order
  without `ORDER BY`.
- FormGuards.ParseDecimal: there is no digit limit. Python's `int()`
  (3.11 onwards and the 2022 security releases) raises `ValueError` on a text
  of more than 4300 digits. The model returns the value.
- FormGuards.SaleGate: a text of more than 4300 ASCII digits passes
  `isdigit()`, and then `int(quantity)` raises `ValueError`. The exception
  leaves the form with no message and no sale. The model answers
  `InsufficientStock` instead (and `RecordSale` answers
  `Refused(InsufficientStock)`). In both cases the tables are unchanged.
- SQLite's 64-bit `INTEGER` is not modelled. `sqlite3` raises
  `OverflowError` when `insert_medicine` or `manage_sales` binds a quantity
  of 2^63 or more. Only a direct call can pass such a value, because the Add
  form's integer input stays within JavaScript's safe-integer range.
- FormGuards.SaleGate: `str.isdigit()` is modelled for ASCII digits only.
  Python also accepts other Unicode digits, some of which `int()` then
  rejects.
- The `id` column of `sales` is not modelled, because nothing reads it.
- Typing and NULLs are not modelled:
  - The Update form passes price and quantity as unvalidated text.
  - The Add form can submit an empty price or quantity (`None`).
  - SQLite column affinity applies to both.
  The model's operations take typed values.
- The Update form preselects the stored year and month by list position. A
  stored year before the current one breaks that. This is not modelled.
- The Delete and Update forms choose the row by name. Which row `next(...)`
  picks is modelled only for the sale form (`FirstWithName`).
- Years outside 1000..9999 are not covered by the order lemmas. For those
  the expiry text is not 4 digits, dash, 2 digits.
- Concurrency is not modelled. This covers the check-then-insert race in add
  and stale stock between the sale form's read and `manage_sales`. The code
  is single-threaded per request.
