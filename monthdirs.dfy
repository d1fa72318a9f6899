/** Month directory names: `strftime("%Y%m")` when a directory is created,
    and `int(name[:4])`, `int(name[4:])`, `datetime(year, month, 1)` when the
    archiver and the retention cleanup read a listing back. */
module MonthDirs {
  import opened Results
  import opened Calendar

  predicate IsDigit(c: char) {
    '0' <= c <= '9'
  }

  /** Every character is a decimal digit (what Python's `int` accepts,
      signs and spaces aside). */
  predicate AllDigits(s: string) {
    s == [] || (IsDigit(s[|s| - 1]) && AllDigits(s[..|s| - 1]))
  }

  /** The decimal value of a string of digits. */
  function Number(s: string): nat
    requires AllDigits(s)
  {
    if s == [] then 0 else Number(s[..|s| - 1]) * 10 + (s[|s| - 1] as int - '0' as int)
  }

  /** The last decimal digit of `n`. */
  function Digit(n: int): (c: char)
    ensures IsDigit(c) && c as int - '0' as int == n % 10
  {
    ('0' as int + n % 10) as char
  }

  /** The name `strftime("%Y%m")` gives the month's directory: four digits of
      year and two of month. */
  function FormatMonthDir(ym: YearMonth): string {
    [Digit(ym.year / 1000), Digit(ym.year / 100), Digit(ym.year / 10), Digit(ym.year),
     Digit(ym.month / 10), Digit(ym.month)]
  }

  lemma NumberSnoc(s: string, c: char)
    requires AllDigits(s) && IsDigit(c)
    ensures AllDigits(s + [c]) && Number(s + [c]) == Number(s) * 10 + (c as int - '0' as int)
  {
    assert (s + [c])[..|s|] == s;
  }

  /** Four digits never make more than 9999. */
  lemma NumberOfFour(s: string)
    requires |s| == 4 && AllDigits(s)
    ensures Number(s) <= 9999
  {
    var p3, p2, p1 := s[..3], s[..2], s[..1];
    assert p3[..2] == p2 && p2[..1] == p1 && p1[..0] == [];
    assert AllDigits(p3) && AllDigits(p2) && AllDigits(p1);
    assert Number(p1) <= 9;
    assert Number(p2) <= 99;
    assert Number(p3) <= 999;
  }

  /** The month a directory name stands for, or None where Python's parse
      raises ValueError: a name too short to hold a month part, parts that are
      not digits, year 0, or a month outside 1..12. */
  function ParseMonthDir(name: string): (r: Option<YearMonth>)
    ensures r.Some? ==> 1 <= r.value.year <= 9999 && 1 <= r.value.month <= 12
  {
    if |name| <= 4 || !AllDigits(name[..4]) || !AllDigits(name[4..]) then None
    else
      var year := Number(name[..4]);
      var month := Number(name[4..]);
      NumberOfFour(name[..4]);
      if 1 <= year && 1 <= month <= 12 then Some(YearMonth(year, month)) else None
  }

  /** Four digits read back as the number they spell. */
  lemma NumberOfDigits4(a: char, b: char, c: char, d: char)
    requires IsDigit(a) && IsDigit(b) && IsDigit(c) && IsDigit(d)
    ensures AllDigits([a, b, c, d])
    ensures Number([a, b, c, d]) == ((((a as int - '0' as int) * 10 + (b as int - '0' as int)) * 10
                                      + (c as int - '0' as int)) * 10 + (d as int - '0' as int))
  {
    NumberSnoc([], a);
    assert [a] == [] + [a];
    NumberSnoc([a], b);
    assert [a, b] == [a] + [b];
    NumberSnoc([a, b], c);
    assert [a, b, c] == [a, b] + [c];
    NumberSnoc([a, b, c], d);
    assert [a, b, c, d] == [a, b, c] + [d];
  }

  lemma NumberOfDigits2(a: char, b: char)
    requires IsDigit(a) && IsDigit(b)
    ensures AllDigits([a, b])
    ensures Number([a, b]) == (a as int - '0' as int) * 10 + (b as int - '0' as int)
  {
    NumberSnoc([], a);
    assert [a] == [] + [a];
    NumberSnoc([a], b);
    assert [a, b] == [a] + [b];
  }

  /** The digits of a number below 10000, most significant first, spell it. */
  lemma DecimalPlaces(n: int)
    requires 0 <= n < 10000
    ensures (((n / 1000 % 10) * 10 + n / 100 % 10) * 10 + n / 10 % 10) * 10 + n % 10 == n
  {
    assert n / 1000 % 10 == n / 1000;
    assert n / 100 == (n / 1000) * 10 + n / 100 % 10;
    assert n / 10 == (n / 100) * 10 + n / 10 % 10;
  }

  /** Parsing the name of a month's directory gives that month back, for the
      years Python's datetime supports. */
  lemma ParseFormat(ym: YearMonth)
    requires 1 <= ym.year <= 9999 && 1 <= ym.month <= 12
    ensures ParseMonthDir(FormatMonthDir(ym)) == Some(ym)
  {
    var name := FormatMonthDir(ym);
    var y, m := ym.year, ym.month;
    assert name[..4] == [Digit(y / 1000), Digit(y / 100), Digit(y / 10), Digit(y)];
    assert name[4..] == [Digit(m / 10), Digit(m)];
    NumberOfDigits4(Digit(y / 1000), Digit(y / 100), Digit(y / 10), Digit(y));
    NumberOfDigits2(Digit(m / 10), Digit(m));
    DecimalPlaces(y);
    DecimalPlaces(m);
  }

  /** Distinct months within Python's year range get distinct directories. */
  lemma FormatInjective(a: YearMonth, b: YearMonth)
    requires 1 <= a.year <= 9999 && 1 <= a.month <= 12
    requires 1 <= b.year <= 9999 && 1 <= b.month <= 12
    requires FormatMonthDir(a) == FormatMonthDir(b)
    ensures a == b
  {
    ParseFormat(a);
    ParseFormat(b);
  }
}
