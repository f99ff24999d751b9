/** The two input guards of the forms that feed the store: the expiry
    month pickers of the Add and Update forms, and the quantity check of the
    sale form. */
module FormGuards {
  import opened MonthStrings

  /** The Add form offers years now.year .. now.year + 9, and in the current
      year only months from the current one on. */
  predicate AddWindowAllows(nowYear: int, nowMonth: int, year: int, month: int): (r: bool)
    ensures 1 <= nowMonth <= 12 ==>
              (r <==> nowYear <= year < nowYear + 10 && 1 <= month <= 12 &&
                      MonthIndex(nowYear, nowMonth) <= MonthIndex(year, month))
  {
    nowYear <= year < nowYear + 10 &&
    (if year == nowYear then nowMonth <= month < 13 else 1 <= month < 13)
  }

  /** The Update form offers the same years but every month of each. */
  predicate UpdateWindowAllows(nowYear: int, year: int, month: int): (r: bool)
    ensures r <==> 1 <= month <= 12 &&
                   MonthIndex(nowYear, 1) <= MonthIndex(year, month) < MonthIndex(nowYear + 10, 1)
  {
    nowYear <= year < nowYear + 10 && 1 <= month < 13
  }

  /** A month picked on the Add form gives a seven-character expiry text that
      is not before the current month (so the new row is not expired) and
      lies less than ten years ahead. */
  lemma AddWindowNeverExpired(nowYear: nat, nowMonth: nat, year: nat, month: nat)
    requires ValidMonth(nowYear, nowMonth) && year <= 9999
    requires AddWindowAllows(nowYear, nowMonth, year, month)
    ensures ValidMonth(year, month)
    ensures |ExpiryString(year, month)| == 7
    ensures !LexLess(ExpiryString(year, month), ExpiryString(nowYear, nowMonth))
    ensures MonthIndex(year, month) < MonthIndex(nowYear + 10, 1)
  {
    ExpiryStringShape(year, month);
    ExpiryOrderIsChronological(year, month, nowYear, nowMonth);
  }

  /** The Update form, unlike the Add form, offers every month of the
      current year, so after January it can set an already expired month. */
  lemma UpdateWindowCanExpire(nowYear: nat, nowMonth: nat)
    requires ValidMonth(nowYear, nowMonth) && nowMonth > 1
    ensures forall m :: 1 <= m <= 12 ==> UpdateWindowAllows(nowYear, nowYear, m)
    ensures UpdateWindowAllows(nowYear, nowYear, nowMonth - 1)
    ensures LexLess(ExpiryString(nowYear, nowMonth - 1), ExpiryString(nowYear, nowMonth))
  {
    ExpiryOrderIsChronological(nowYear, nowMonth - 1, nowYear, nowMonth);
  }

  /** In January the Update form offers no month that is already expired. */
  lemma UpdateWindowInJanuary(nowYear: nat, year: nat, month: nat)
    requires ValidMonth(nowYear, 1) && year <= 9999
    requires UpdateWindowAllows(nowYear, year, month)
    ensures !LexLess(ExpiryString(year, month), ExpiryString(nowYear, 1))
  {
    ExpiryOrderIsChronological(year, month, nowYear, 1);
  }

  /** Python's `str.isdigit()` on the entered text, for ASCII digits: at least
      one character, all of them digits. */
  predicate IsDigitText(s: string): (r: bool)
    ensures |s| == 0 ==> !r
    ensures forall n: nat :: s == DecimalString(n) ==> r
  {
    |s| > 0 && forall i :: 0 <= i < |s| ==> '0' <= s[i] <= '9'
  }

  /** Python's `int(s)` on a text of digits (leading zeros allowed). */
  function ParseDecimal(s: string): (n: nat)
    requires forall i :: 0 <= i < |s| ==> '0' <= s[i] <= '9'
    ensures n < Pow10(|s|)
  {
    if |s| == 0 then 0
    else 10 * ParseDecimal(s[..|s| - 1]) + (s[|s| - 1] as int - '0' as int)
  }

  /** `int` undoes `str`. */
  lemma {:induction false} ParseDecimalRoundTrip(n: nat)
    ensures ParseDecimal(DecimalString(n)) == n
    decreases n
  {
    var s := DecimalString(n);
    if n >= 10 {
      ParseDecimalRoundTrip(n / 10);
      assert s[..|s| - 1] == DecimalString(n / 10);
    }
  }

  /** `int` ignores leading zeros. */
  lemma {:induction false} ParseDecimalLeadingZero(s: string)
    requires forall i :: 0 <= i < |s| ==> '0' <= s[i] <= '9'
    ensures ParseDecimal("0" + s) == ParseDecimal(s)
    decreases |s|
  {
    var z := "0" + s;
    if |s| == 0 {
      assert ParseDecimal(z) == 10 * ParseDecimal(z[..0]) + 0;
    } else {
      assert z[..|z| - 1] == "0" + s[..|s| - 1];
      ParseDecimalLeadingZero(s[..|s| - 1]);
    }
  }

  datatype GateOutcome = InvalidQuantity | InsufficientStock | Accept(amount: nat)

  /** The sale form's checks before a sale is recorded: the text must be all
      digits, and the amount it denotes must not exceed the stock shown. */
  function SaleGate(text: string, stock: int): (g: GateOutcome)
    ensures g.InvalidQuantity? <==> !IsDigitText(text)
    ensures g.Accept? <==> IsDigitText(text) && ParseDecimal(text) <= stock
    ensures g.InsufficientStock? <==> IsDigitText(text) && ParseDecimal(text) > stock
    ensures g.Accept? ==> g.amount == ParseDecimal(text) && stock - g.amount >= 0
  {
    if !IsDigitText(text) then InvalidQuantity
    else if ParseDecimal(text) > stock then InsufficientStock
    else Accept(ParseDecimal(text))
  }

  /** Entering the decimal text of n sells n exactly when n is within the
      stock, and is refused as insufficient otherwise. */
  lemma SaleGateOnDecimal(n: nat, stock: int)
    ensures SaleGate(DecimalString(n), stock) == if n <= stock then Accept(n) else InsufficientStock
  {
    ParseDecimalRoundTrip(n);
  }

  /** A quantity typed with a leading zero is read by its value: "05"
      sells five. */
  lemma LeadingZeroSale(stock: int)
    requires stock >= 5
    ensures SaleGate("05", stock) == Accept(5)
  {
    ParseDecimalLeadingZero("5");
    assert ParseDecimal("5") == 10 * ParseDecimal("") + 5;
  }

  /** "0" is all digits, so a sale of nothing passes the gate. */
  lemma ZeroSaleAccepted(stock: int)
    requires stock >= 0
    ensures SaleGate("0", stock) == Accept(0)
  {
    assert ParseDecimal("0") == 10 * ParseDecimal("") + 0;
  }
}
