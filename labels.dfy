/** Cohort and period labels (`YYYY-MM...`) and the calendar mapping
    `mob_to_date` of app.py. */
module Labels {
  import opened Common

  /** A label read as numbers; the source never checks that the month lies in 1..12. */
  datatype YearMonth = YearMonth(year: int, month: int)

  predicate IsDigit(ch: char) {
    '0' <= ch <= '9'
  }

  predicate AllDigits(s: string) {
    forall i :: 0 <= i < |s| ==> IsDigit(s[i])
  }

  function DigitValue(ch: char): (d: nat)
    requires IsDigit(ch)
    ensures d < 10
  {
    (ch as int) - ('0' as int)
  }

  function DigitChar(d: nat): (ch: char)
    requires d < 10
    ensures IsDigit(ch) && DigitValue(ch) == d
  {
    ('0' as int + d) as char
  }

  /** The decimal number written by a string of digits, most significant first. */
  function DigitsValue(s: string): nat
    requires AllDigits(s)
  {
    if |s| == 0 then 0 else DigitsValue(s[..|s| - 1]) * 10 + DigitValue(s[|s| - 1])
  }

  /** Python's slice `s[lo:hi]` for non-negative bounds: out-of-range bounds are clipped. */
  function Slice(s: string, lo: nat, hi: nat): (r: string)
    requires lo <= hi
    ensures |r| <= hi - lo
    ensures lo <= |s| ==> r == s[lo..if hi <= |s| then hi else |s|]
    ensures |s| <= lo ==> r == []
  {
    if |s| <= lo then [] else s[lo..if hi <= |s| then hi else |s|]
  }

  /** Python's `int(s)`, read only on non-empty strings of ASCII digits. The
      other forms `int()` accepts (a sign, surrounding whitespace, underscores,
      non-ASCII digits) are not modelled and read as None here. */
  function ParseInt(s: string): (r: Option<nat>)
    ensures r.Some? <==> |s| > 0 && AllDigits(s)
  {
    if |s| > 0 && AllDigits(s) then Some(DigitsValue(s)) else None
  }

  /** `int(label[:4]), int(label[5:7])` (app.py lines 55, 57 and 97). */
  function ParseLabel(name: string): (r: Option<YearMonth>)
    ensures r.Some? <==> ParseInt(Slice(name, 0, 4)).Some? && ParseInt(Slice(name, 5, 7)).Some?
    ensures r.Some? ==> 0 <= r.value.year <= 9999 && 0 <= r.value.month <= 99
  {
    match (ParseInt(Slice(name, 0, 4)), ParseInt(Slice(name, 5, 7)))
    case (Some(y), Some(m)) =>
      DigitsBound(Slice(name, 0, 4));
      DigitsBound(Slice(name, 5, 7));
      Some(YearMonth(y, m))
    case _ => None
  }

  lemma {:induction false} DigitsBound(s: string)
    requires AllDigits(s)
    ensures |s| <= 1 ==> DigitsValue(s) <= 9
    ensures |s| <= 2 ==> DigitsValue(s) <= 99
    ensures |s| <= 3 ==> DigitsValue(s) <= 999
    ensures |s| <= 4 ==> DigitsValue(s) <= 9999
  {
    if |s| > 0 {
      DigitsBound(s[..|s| - 1]);
    }
  }

  /** Months on book of period `p` for cohort `c` (app.py line 58). For
      calendar months it is zero exactly at the cohort's own month and
      positive exactly for the later months. */
  function MonthsOnBook(c: YearMonth, p: YearMonth): (r: int)
    ensures 1 <= c.month <= 12 && 1 <= p.month <= 12 ==>
      (r == 0 <==> p == c) && (r > 0 <==> c.year < p.year || (c.year == p.year && c.month < p.month))
  {
    (p.year - c.year) * 12 + (p.month - c.month)
  }

  /** The calendar year-month `mob` months after cohort `c` (app.py lines 98-100).
      Python's `//` and `%` floor; with the positive divisor 12 they agree with
      Dafny's Euclidean `/` and `%`, for negative `mob` too. */
  function TargetMonth(c: YearMonth, mob: int): (r: YearMonth)
    ensures 1 <= r.month <= 12
    ensures MonthsOnBook(c, r) == mob
    ensures mob == 0 && 1 <= c.month <= 12 ==> r == c
  {
    var total := c.month + mob;
    YearMonth(c.year + (total - 1) / 12, (total - 1) % 12 + 1)
  }

  /** A calendar month is determined by its distance from the cohort:
      TargetMonth inverts MonthsOnBook. */
  lemma TargetMonthOfMonthsOnBook(c: YearMonth, p: YearMonth)
    requires 1 <= p.month <= 12
    ensures TargetMonth(c, MonthsOnBook(c, p)) == p
  {
    var r := TargetMonth(c, MonthsOnBook(c, p));
    assert (r.year - p.year) * 12 == p.month - r.month;
  }

  /** `str(n)` for a natural number. */
  function NatToString(n: nat): string
    decreases n
  {
    if n < 10 then [DigitChar(n)] else NatToString(n / 10) + [DigitChar(n % 10)]
  }

  /** `str(i)`: a minus sign before negative numbers. */
  function IntToString(i: int): string {
    if i < 0 then "-" + NatToString(-i) else NatToString(i)
  }

  /** The `:02d` format: at least two digits, zero-padded. */
  function Pad2(n: nat): string {
    if n < 10 then "0" + NatToString(n) else NatToString(n)
  }

  /** `f"{year}-{month:02d}"` (app.py line 101). */
  function FormatYearMonth(ym: YearMonth): string
    requires 0 <= ym.month
  {
    IntToString(ym.year) + "-" + Pad2(ym.month)
  }

  /** The label is the year written out, a dash, and a month below 100 as
      exactly two digits; a minus sign leads exactly for a negative year. */
  lemma FormatYearMonthLayout(ym: YearMonth)
    requires 0 <= ym.month
    ensures var r := FormatYearMonth(ym);
      |r| >= 3 && (r[0] == '-' <==> ym.year < 0) &&
      (ym.month <= 99 ==>
        r[|r| - 3] == '-' && AllDigits(r[|r| - 2..]) && DigitsValue(r[|r| - 2..]) == ym.month &&
        (0 <= ym.year ==> AllDigits(r[..|r| - 3]) && DigitsValue(r[..|r| - 3]) == ym.year))
  {
    var year := IntToString(ym.year);
    var month := Pad2(ym.month);
    Pad2Digits(ym.month);
    NatToStringDigits(if ym.year < 0 then -ym.year else ym.year);
    var r := year + "-" + month;
    assert ym.month <= 99 ==> r[|r| - 2..] == month && r[..|r| - 3] == year;
  }

  /** `mob_to_date` (app.py lines 95-101): None where `int()` would raise on the label. */
  function MobToDate(cohorte: string, mob: int): (r: Option<string>)
    ensures r.Some? <==> ParseLabel(cohorte).Some?
  {
    match ParseLabel(cohorte)
    case None => None
    case Some(c) => Some(FormatYearMonth(TargetMonth(c, mob)))
  }

  lemma {:induction false} NatToStringDigits(n: nat)
    ensures AllDigits(NatToString(n))
    ensures DigitsValue(NatToString(n)) == n
    decreases n
  {
    var s := NatToString(n);
    if n >= 10 {
      NatToStringDigits(n / 10);
      assert s[..|s| - 1] == NatToString(n / 10);
    }
  }

  lemma NatToStringFourDigits(n: nat)
    requires 1000 <= n <= 9999
    ensures |NatToString(n)| == 4
  {
    assert |NatToString(n / 1000)| == 1;
    assert |NatToString(n / 100)| == 2 by { assert (n / 100) / 10 == n / 1000; }
    assert |NatToString(n / 10)| == 3 by { assert (n / 10) / 10 == n / 100; }
  }

  /** `:02d` writes a number below 100 as exactly two digits. */
  lemma Pad2Digits(m: nat)
    ensures m <= 99 ==> |Pad2(m)| == 2 && AllDigits(Pad2(m)) && DigitsValue(Pad2(m)) == m
  {
    if m <= 99 {
      var s := Pad2(m);
      NatToStringDigits(m);
      if m < 10 {
        assert s == ['0', DigitChar(m)];
        assert s[..1] == "0";
      } else {
        assert |NatToString(m / 10)| == 1;
      }
    }
  }

  /** Formatting and parsing round-trip for four-digit years: the label that
      `mob_to_date` writes is read back by the label parser as the same month. */
  lemma ParseFormatYearMonth(ym: YearMonth)
    requires 1000 <= ym.year <= 9999 && 1 <= ym.month <= 12
    ensures ParseLabel(FormatYearMonth(ym)) == Some(ym)
  {
    var y := NatToString(ym.year);
    var m := Pad2(ym.month);
    var s := FormatYearMonth(ym);
    NatToStringFourDigits(ym.year);
    NatToStringDigits(ym.year);
    Pad2Digits(ym.month);
    assert s == y + "-" + m;
    assert Slice(s, 0, 4) == y;
    assert Slice(s, 5, 7) == m;
  }

  /** What `mob_to_date` returns names the calendar month `mob` months after
      the cohort, whenever that month has a four-digit year. */
  lemma MobToDateRoundTrip(cohorte: string, mob: int)
    requires ParseLabel(cohorte).Some?
    requires 1000 <= TargetMonth(ParseLabel(cohorte).value, mob).year <= 9999
    ensures MobToDate(cohorte, mob).Some?
    ensures ParseLabel(MobToDate(cohorte, mob).value) == Some(TargetMonth(ParseLabel(cohorte).value, mob))
  {
    ParseFormatYearMonth(TargetMonth(ParseLabel(cohorte).value, mob));
  }

  /** Worked example: a seven-digit year does not read back as the same month.
      The label of May of year 1000000 is `1000000-05`, whose slices `[:4]` and
      `[5:7]` read as year 1000 and month 0. */
  lemma SevenDigitYearMisread()
    ensures FormatYearMonth(YearMonth(1000000, 5)) == "1000000-05"
    ensures ParseLabel("1000000-05") == Some(YearMonth(1000, 0))
  {
    NatToStringDigits(1000000);
    assert NatToString(1000000) == "1000000";
    assert Slice("1000000-05", 0, 4) == "1000";
    assert Slice("1000000-05", 5, 7) == "00";
    assert "00"[..1] == "0" && "0"[..0] == "";
    assert "1000"[..3] == "100" && "100"[..2] == "10" && "10"[..1] == "1" && "1"[..0] == "";
    assert DigitsValue("00") == 0;
    assert DigitsValue("1000") == 1000;
  }
}
