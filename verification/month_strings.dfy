/** Expiry dates are stored as "YYYY-MM" text and compared as text.  This
    module defines how the forms build that text, how SQLite compares it, and
    proves that for four-digit years the text order is the calendar order. */
module MonthStrings {

  /** The character of a decimal digit. */
  function DigitChar(d: nat): (c: char)
    requires d < 10
    ensures '0' <= c <= '9'
    ensures c as int - '0' as int == d
  {
    ('0' as int + d) as char
  }

  /** Python's `str(n)` for a non-negative integer: no leading zeros. */
  function DecimalString(n: nat): (s: string)
    ensures 1 <= |s|
    ensures forall i :: 0 <= i < |s| ==> '0' <= s[i] <= '9'
    ensures |s| > 1 ==> s[0] != '0'
    decreases n
  {
    if n < 10 then [DigitChar(n)] else DecimalString(n / 10) + [DigitChar(n % 10)]
  }

  /** Python's format spec `0<width>d` applied to the text of a non-negative
      integer: pad on the left with zeros up to `width` characters. */
  function ZeroPad(s: string, width: nat): (r: string)
    ensures |r| == if |s| < width then width else |s|
    ensures |s| < width ==> r[..width - |s|] == Zeros(width - |s|) && r[width - |s|..] == s
    ensures width <= |s| ==> r == s
    decreases width - |s|
  {
    if |s| < width then ZeroPad(['0'] + s, width) else s
  }

  /** `n` zero characters. */
  function Zeros(n: nat): (r: string)
    ensures |r| == n
  {
    if n == 0 then [] else Zeros(n - 1) + ['0']
  }

  /** The expiry text built by the inventory forms, `f"{year}-{month:02d}"`;
      for four-digit years it is also what `strftime('%Y-%m')` gives. */
  function ExpiryString(year: nat, month: nat): (r: string)
    ensures |DecimalString(year)| < |r|
    ensures r[..|DecimalString(year)|] == DecimalString(year) && r[|DecimalString(year)|] == '-'
    ensures r[|DecimalString(year)| + 1..] == ZeroPad(DecimalString(month), 2)
    ensures month < 100 ==> |r| == |DecimalString(year)| + 3
  {
    assert month < 100 ==> |DecimalString(month)| <= 2 by {
      if 10 <= month < 100 {
        assert DecimalString(month) == DecimalString(month / 10) + [DigitChar(month % 10)];
      }
    }
    DecimalString(year) + "-" + ZeroPad(DecimalString(month), 2)
  }

  function Pow10(w: nat): (p: nat)
    ensures p >= 1
  {
    if w == 0 then 1 else 10 * Pow10(w - 1)
  }

  /** The low `w` decimal digits of `n`, most significant first, zero padded. */
  function Digits(n: nat, w: nat): (s: string)
    ensures |s| == w
  {
    if w == 0 then [] else Digits(n / 10, w - 1) + [DigitChar(n % 10)]
  }

  /** The order SQLite's default BINARY collation (and Python's `<`) puts on
      text: the first differing character decides, and a proper prefix comes
      first.  Dafny's own `<` on strings is the proper-prefix relation only. */
  predicate LexLess(a: string, b: string): (r: bool)
    ensures r ==> |b| > 0
    ensures |a| == 0 ==> (r <==> |b| > 0)
  {
    |b| > 0 && (|a| == 0 || a[0] < b[0] || (a[0] == b[0] && LexLess(a[1..], b[1..])))
  }

  /** SQLite's `<=` on text: not strictly after. */
  predicate LexLessEq(a: string, b: string): (r: bool)
    ensures r <==> !LexLess(b, a)
  {
    if a == b then
      LexLessIrreflexive(a);
      true
    else
      LexLessTotal(a, b);
      LexLessAsymmetric(a, b);
      LexLess(a, b)
  }

  /** A year and month as the forms can produce them: a four-digit year
      (Python's `datetime` allows years 1..9999) and a month 1..12. */
  predicate ValidMonth(year: int, month: int)
  {
    1000 <= year <= 9999 && 1 <= month <= 12
  }

  /** Months counted from year 0: the calendar order of (year, month). */
  function MonthIndex(year: int, month: int): int
  {
    12 * year + (month - 1)
  }

  lemma {:induction false} LexLessIrreflexive(a: string)
    ensures !LexLess(a, a)
    decreases |a|
  {
    if |a| > 0 {
      LexLessIrreflexive(a[1..]);
    }
  }

  lemma {:induction false} LexLessAsymmetric(a: string, b: string)
    ensures !(LexLess(a, b) && LexLess(b, a))
    decreases |a|
  {
    if |a| > 0 && |b| > 0 && a[0] == b[0] {
      LexLessAsymmetric(a[1..], b[1..]);
    }
  }

  lemma {:induction false} LexLessTransitive(a: string, b: string, c: string)
    requires LexLess(a, b) && LexLess(b, c)
    ensures LexLess(a, c)
    decreases |a|
  {
    if |a| > 0 && a[0] == b[0] && b[0] == c[0] {
      LexLessTransitive(a[1..], b[1..], c[1..]);
    }
  }

  /** Text order is total: two different texts are ordered one way or the other. */
  lemma {:induction false} LexLessTotal(a: string, b: string)
    requires a != b
    ensures LexLess(a, b) || LexLess(b, a)
    decreases |a|
  {
    if |a| > 0 && |b| > 0 && a[0] == b[0] {
      assert a == [a[0]] + a[1..] && b == [b[0]] + b[1..];
      LexLessTotal(a[1..], b[1..]);
    }
  }

  lemma LexLessEqTransitive(a: string, b: string, c: string)
    requires LexLessEq(a, b) && LexLessEq(b, c)
    ensures LexLessEq(a, c)
  {
    if a != b && b != c {
      LexLessTransitive(a, b, c);
    }
  }

  /** Comparing two texts that start with equally long parts: the first parts
      decide, and only when they are equal do the rests. */
  lemma {:induction false} LexLessAppend(p: string, q: string, s: string, t: string)
    requires |p| == |q|
    ensures LexLess(p + s, q + t) <==> LexLess(p, q) || (p == q && LexLess(s, t))
    decreases |p|
  {
    if |p| == 0 {
      assert p + s == s && q + t == t;
    } else {
      assert (p + s)[0] == p[0] && (p + s)[1..] == p[1..] + s;
      assert (q + t)[0] == q[0] && (q + t)[1..] == q[1..] + t;
      LexLessAppend(p[1..], q[1..], s, t);
      assert p == [p[0]] + p[1..] && q == [q[0]] + q[1..];
    }
  }

  /** Zero-padded decimal texts of the same width are in numeric order. */
  lemma {:induction false} DigitsOrder(a: nat, b: nat, w: nat)
    requires a < Pow10(w) && b < Pow10(w)
    ensures LexLess(Digits(a, w), Digits(b, w)) <==> a < b
    ensures Digits(a, w) == Digits(b, w) <==> a == b
  {
    if w > 0 {
      var p, q := Digits(a / 10, w - 1), Digits(b / 10, w - 1);
      var ca, cb := DigitChar(a % 10), DigitChar(b % 10);
      DigitsOrder(a / 10, b / 10, w - 1);
      LexLessAppend(p, q, [ca], [cb]);
      assert LexLess([ca], [cb]) <==> ca < cb;
      assert a == 10 * (a / 10) + a % 10 && b == 10 * (b / 10) + b % 10;
      if Digits(a, w) == Digits(b, w) {
        assert p == Digits(a, w)[..w - 1] && q == Digits(b, w)[..w - 1];
        assert ca == Digits(a, w)[w - 1] && cb == Digits(b, w)[w - 1];
      }
    }
  }

  /** Python's `str(n)` is the zero-padded form of the width n actually has. */
  lemma {:induction false} DecimalIsDigits(n: nat, w: nat)
    requires 1 <= w && Pow10(w - 1) <= n < Pow10(w)
    ensures DecimalString(n) == Digits(n, w)
  {
    if w == 1 {
      assert n < 10 && n / 10 == 0 && n % 10 == n;
    } else {
      assert n == 10 * (n / 10) + n % 10;
      assert Pow10(w - 1) == 10 * Pow10(w - 2);
      DecimalIsDigits(n / 10, w - 1);
    }
  }

  /** For a four-digit year and a month 1..12 the expiry text is seven
      characters: four year digits, a dash, two month digits. */
  lemma ExpiryStringShape(year: nat, month: nat)
    requires ValidMonth(year, month)
    ensures ExpiryString(year, month) == Digits(year, 4) + "-" + Digits(month, 2)
    ensures |ExpiryString(year, month)| == 7
  {
    assert Pow10(3) == 1000 && Pow10(4) == 10000;
    DecimalIsDigits(year, 4);
    if month < 10 {
      assert DecimalString(month) == [DigitChar(month)];
      assert Digits(month, 2) == Digits(0, 1) + [DigitChar(month)];
      assert Digits(0, 1) == ['0'];
      assert ZeroPad(DecimalString(month), 2) == ['0', DigitChar(month)];
    } else {
      assert Pow10(1) == 10 && Pow10(2) == 100;
      DecimalIsDigits(month, 2);
    }
  }

  /** The seven-character "YYYY-MM" form compares as (year, month) pairs. */
  lemma PaddedMonthOrder(y1: nat, m1: nat, y2: nat, m2: nat)
    requires ValidMonth(y1, m1) && ValidMonth(y2, m2)
    ensures LexLess(Digits(y1, 4) + "-" + Digits(m1, 2), Digits(y2, 4) + "-" + Digits(m2, 2))
            <==> MonthIndex(y1, m1) < MonthIndex(y2, m2)
    ensures Digits(y1, 4) + "-" + Digits(m1, 2) == Digits(y2, 4) + "-" + Digits(m2, 2)
            <==> y1 == y2 && m1 == m2
  {
    assert Pow10(4) == 10000 && Pow10(2) == 100;
    var d1, d2 := Digits(y1, 4), Digits(y2, 4);
    var s1, s2 := "-" + Digits(m1, 2), "-" + Digits(m2, 2);
    assert d1 + "-" + Digits(m1, 2) == d1 + s1;
    assert d2 + "-" + Digits(m2, 2) == d2 + s2;
    LexLessAppend(d1, d2, s1, s2);
    DigitsOrder(y1, y2, 4);
    DigitsOrder(m1, m2, 2);
    assert s1[0] == s2[0] && s1[1..] == Digits(m1, 2) && s2[1..] == Digits(m2, 2);
    assert LexLess(s1, s2) <==> LexLess(Digits(m1, 2), Digits(m2, 2));
    if d1 + s1 == d2 + s2 {
      assert d1 == (d1 + s1)[..4] && d2 == (d2 + s2)[..4];
      assert s1 == (d1 + s1)[4..] && s2 == (d2 + s2)[4..];
    }
  }

  /** The key fact the alert queries rely on: on expiry texts built from
      four-digit years and months 1..12, SQLite's text comparison is the
      calendar order of (year, month), both strict and non-strict. */
  lemma ExpiryOrderIsChronological(y1: nat, m1: nat, y2: nat, m2: nat)
    requires ValidMonth(y1, m1) && ValidMonth(y2, m2)
    ensures LexLess(ExpiryString(y1, m1), ExpiryString(y2, m2)) <==> MonthIndex(y1, m1) < MonthIndex(y2, m2)
    ensures LexLessEq(ExpiryString(y1, m1), ExpiryString(y2, m2)) <==> MonthIndex(y1, m1) <= MonthIndex(y2, m2)
    ensures ExpiryString(y1, m1) == ExpiryString(y2, m2) <==> y1 == y2 && m1 == m2
  {
    ExpiryStringShape(y1, m1);
    ExpiryStringShape(y2, m2);
    PaddedMonthOrder(y1, m1, y2, m2);
  }
}
