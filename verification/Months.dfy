/**
 * The YYYYMM codec. Two modules of the program carry a copy of it; the reading copy validates
 * its input and refuses year 0000, which the stored pattern admits.
 */
module Months {
  import opened TextOrder
  import opened Products
  import opened DecimalArithmetic

  predicate IsDigit(c: char) {
    '0' <= c <= '9'
  }

  function DigitValue(c: char): nat
    requires IsDigit(c)
  {
    c as int - '0' as int
  }

  function DigitChar(d: nat): (c: char)
    requires d < 10
    ensures IsDigit(c) && DigitValue(c) == d
  {
    ('0' as int + d) as char
  }

  /** The number that a text of digits denotes. */
  function NumberOf(text: string): nat
    requires forall i :: 0 <= i < |text| ==> IsDigit(text[i])
  {
    if text == "" then 0
    else 10 * NumberOf(text[..|text| - 1]) + DigitValue(text[|text| - 1])
  }

  predicate AllDigits(text: string) {
    forall i :: 0 <= i < |text| ==> IsDigit(text[i])
  }

  /** The stored pattern: four digits, then 01 to 12. */
  predicate YearMonthPattern(text: string) {
    && |text| == 6
    && AllDigits(text)
    && 1 <= NumberOf(text[4..]) <= 12
  }

  /** A month counted from year 0; the sealing module reads it without checking the text. */
  function MonthNumber(text: string): int
    requires |text| == 6 && AllDigits(text)
  {
    NumberOf(text[..4]) * 12 + NumberOf(text[4..]) - 1
  }

  /** Whether the presentation can format a text as a month. */
  predicate Formats(text: string) {
    && |text| == 6
    && AllDigits(text)
    && NumberOf(text[..4]) >= 1
    && 1 <= NumberOf(text[4..]) <= 12
  }

  function DecimalText(n: nat): (t: string)
    ensures t != "" && AllDigits(t) && NumberOf(t) == n
  {
    if n < 10 then [DigitChar(n)]
    else
      var front := DecimalText(n / 10);
      var t := front + [DigitChar(n % 10)];
      assert t[..|t| - 1] == front;
      t
  }

  function ZeroPad(text: string, width: nat): (t: string)
    ensures |t| == if |text| < width then width else |text|
    ensures AllDigits(text) ==> AllDigits(t)
    decreases width - |text|
  {
    if |text| >= width then text else ZeroPad("0" + text, width)
  }

  /** A year padded with zeros to four characters, the sign of a negative year included. */
  function YearText(year: int): string {
    if year < 0 then "-" + ZeroPad(DecimalText(-year), 3) else ZeroPad(DecimalText(year), 4)
  }

  /** The text of a month number: its year, and its month within the year on two digits. */
  function MonthValue(number: int): string {
    YearText(number / 12) + ZeroPad(DecimalText(number % 12 + 1), 2)
  }

  // ---------------------------------------------------------------- round trips

  lemma {:induction false} LeadingZero(text: string)
    requires AllDigits(text)
    ensures AllDigits("0" + text) && NumberOf("0" + text) == NumberOf(text)
  {
    var padded := "0" + text;
    if text != "" {
      var front := text[..|text| - 1];
      LeadingZero(front);
      assert padded[..|padded| - 1] == "0" + front;
    } else {
      assert padded[..0] == "";
    }
  }

  lemma {:induction false} PaddingKeepsValue(text: string, width: nat)
    requires AllDigits(text)
    ensures NumberOf(ZeroPad(text, width)) == NumberOf(text)
    decreases width - |text|
  {
    if |text| < width {
      LeadingZero(text);
      PaddingKeepsValue("0" + text, width);
    }
  }

  lemma {:induction false} BelowPower(text: string)
    requires AllDigits(text)
    ensures NumberOf(text) < Pow10(|text|)
  {
    if text != "" {
      BelowPower(text[..|text| - 1]);
    }
  }

  lemma LastDigitSplits(x: int, d: int, y: int, e: int)
    requires 0 <= d < 10 && 0 <= e < 10 && 10 * x + d == 10 * y + e
    ensures x == y && d == e
  {
  }

  lemma DigitOf(c: char, d: char)
    requires IsDigit(c) && IsDigit(d) && DigitValue(c) == DigitValue(d)
    ensures c == d
  {
  }

  /** Texts of equal length with equal values are equal. */
  lemma {:induction false} NumberInjective(a: string, b: string)
    requires AllDigits(a) && AllDigits(b) && |a| == |b| && NumberOf(a) == NumberOf(b)
    ensures a == b
  {
    if a != "" {
      var last := |a| - 1;
      LastDigitSplits(NumberOf(a[..last]), DigitValue(a[last]),
                      NumberOf(b[..last]), DigitValue(b[last]));
      DigitOf(a[last], b[last]);
      NumberInjective(a[..last], b[..last]);
      assert a == a[..last] + [a[last]] && b == b[..last] + [b[last]];
    }
  }

  lemma {:induction false} DecimalTextLength(n: nat)
    ensures n < 100 ==> |DecimalText(n)| <= 2
    ensures n < 10000 ==> |DecimalText(n)| <= 4
    ensures n >= 10000 ==> |DecimalText(n)| >= 5
  {
    if n >= 10 {
      DecimalTextLength(n / 10);
      if n >= 100 {
        DecimalTextLength(n / 10 / 10);
        if n >= 1000 {
          assert n < 10000 ==> n / 10 / 10 / 10 < 10;
        }
      }
    }
  }

  /** Formatting then reading gives the number back, exactly on years 0 to 9999. */
  lemma ValueThenNumber(number: int)
    ensures YearMonthPattern(MonthValue(number)) <==> 0 <= number < 120000
    ensures 0 <= number < 120000 ==> MonthNumber(MonthValue(number)) == number
  {
    var year, month := number / 12, number % 12 + 1;
    var yearText, monthText := YearText(year), ZeroPad(DecimalText(month), 2);
    var text := MonthValue(number);
    DecimalTextLength(month);
    PaddingKeepsValue(DecimalText(month), 2);
    if number < 0 {
      assert text[0] == '-';
      assert !IsDigit(text[0]);
    } else {
      DecimalTextLength(year);
      PaddingKeepsValue(DecimalText(year), 4);
      assert text == yearText + monthText;
      if year < 10000 {
        assert text[..4] == yearText && text[4..] == monthText;
      }
    }
  }

  /** Reading then formatting gives the text back. */
  lemma NumberThenValue(text: string)
    requires YearMonthPattern(text)
    ensures 0 <= MonthNumber(text) < 120000
    ensures MonthValue(MonthNumber(text)) == text
  {
    BelowPower(text[..4]);
    SmallPowers();
    var number := MonthNumber(text);
    var back := MonthValue(number);
    ValueThenNumber(number);
    var y, m := NumberOf(text[..4]), NumberOf(text[4..]);
    assert number == y * 12 + m - 1;
    assert NumberOf(back[..4]) * 12 + NumberOf(back[4..]) - 1 == number;
    NumberInjective(back[..4], text[..4]);
    NumberInjective(back[4..], text[4..]);
    assert back == back[..4] + back[4..] && text == text[..4] + text[4..];
  }

  /** The two copies of the codec differ only in refusing year 0000. */
  lemma FormatsIsPatternFromYearOne(text: string)
    ensures Formats(text) <==> YearMonthPattern(text) && MonthNumber(text) >= 12
  {
    if YearMonthPattern(text) {
      BelowPower(text[..4]);
      SmallPowers();
    }
  }

  // ---------------------------------------------------------------- order

  lemma TenTimes(d: int, p: int, rest: int, last: int)
    ensures 10 * (d * p + rest) + last == d * (10 * p) + (10 * rest + last)
  {
    MulRotate(d, 10, p);
  }

  lemma {:induction false} LeadingDigit(text: string)
    requires text != "" && AllDigits(text)
    ensures NumberOf(text)
         == DigitValue(text[0]) * Pow10(|text| - 1) + NumberOf(text[1..])
  {
    if |text| > 1 {
      var front, rest := text[..|text| - 1], text[1..];
      LeadingDigit(front);
      assert rest[..|rest| - 1] == front[1..];
      TenTimes(DigitValue(text[0]), Pow10(|text| - 2), NumberOf(front[1..]),
               DigitValue(text[|text| - 1]));
    } else {
      assert text[..0] == "" && text[1..] == "";
      assert Pow10(0) == 1;
    }
  }

  lemma SmallerLeads(x: int, y: int, p: int, restX: int, restY: int)
    requires 0 <= restX < p && 0 <= restY < p && x < y
    ensures x * p + restX < y * p + restY
  {
    MulLe(x + 1, y, p);
    MulAdd(x, 1, p);
  }

  lemma LeadingDigitDecides(x: int, y: int, p: int, restX: int, restY: int)
    requires 0 <= restX < p && 0 <= restY < p && x != y
    ensures x * p + restX < y * p + restY <==> x < y
  {
    if x < y {
      SmallerLeads(x, y, p, restX, restY);
    } else {
      SmallerLeads(y, x, p, restY, restX);
    }
  }

  /** On digit texts of one length, Python's string order is the numeric order. */
  lemma {:induction false} TextOrderIsNumeric(a: string, b: string)
    requires AllDigits(a) && AllDigits(b) && |a| == |b|
    ensures TextLess(a, b) <==> NumberOf(a) < NumberOf(b)
  {
    if a != "" {
      LeadingDigit(a);
      LeadingDigit(b);
      BelowPower(a[1..]);
      BelowPower(b[1..]);
      if a[0] == b[0] {
        TextOrderIsNumeric(a[1..], b[1..]);
      } else {
        LeadingDigitDecides(DigitValue(a[0]), DigitValue(b[0]), Pow10(|a| - 1),
                            NumberOf(a[1..]), NumberOf(b[1..]));
      }
    }
  }

  lemma YearAndMonth(text: string)
    requires |text| == 6 && AllDigits(text)
    ensures NumberOf(text) == 100 * NumberOf(text[..4]) + NumberOf(text[4..])
  {
    assert text[..5][..4] == text[..4];
    assert text[4..][..1] == [text[4]] && [text[4]][..0] == "";
    assert NumberOf(text[4..]) == 10 * NumberOf([text[4]]) + DigitValue(text[5]);
    assert NumberOf([text[4]]) == DigitValue(text[4]);
  }

  lemma MonthOrder(year: int, month: int, otherYear: int, otherMonth: int)
    requires 1 <= month <= 12 && 1 <= otherMonth <= 12
    ensures 100 * year + month < 100 * otherYear + otherMonth
       <==> year * 12 + month - 1 < otherYear * 12 + otherMonth - 1
  {
  }

  /** The stored window checks compare texts; that is the order of the months. */
  lemma TextOrderIsMonthOrder(a: string, b: string)
    requires YearMonthPattern(a) && YearMonthPattern(b)
    ensures TextLess(a, b) <==> MonthNumber(a) < MonthNumber(b)
  {
    TextOrderIsNumeric(a, b);
    YearAndMonth(a);
    YearAndMonth(b);
    MonthOrder(NumberOf(a[..4]), NumberOf(a[4..]), NumberOf(b[..4]), NumberOf(b[4..]));
  }

  // ---------------------------------------------------------------- month ranges

  /** The given number of consecutive months, ending at the last one. */
  function ExpectedMonths(last: int, count: nat): (months: seq<string>)
    ensures |months| == count
  {
    seq(count, i requires 0 <= i < count => MonthValue(last - count + 1 + i))
  }
}
