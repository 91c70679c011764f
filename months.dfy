/**
 * The dashboard's month helpers: `monthKey`, the list of the twelve months that
 * end with the current one, the summary row of the selected month and the chart
 * series. The budget page declares the same `monthKey` and month list word for
 * word, so both pages are modelled by the members here.
 */
module Months {
  import opened Wrappers
  import opened Text
  import opened Ordering

  /** `Date.prototype.getMonth()`: 0 for January through 11 for December. */
  type MonthIndex = m: int | 0 <= m < 12

  /** The year and month of a `Date`; the day and time play no part. */
  datatype CalendarMonth = CalendarMonth(year: int, month: MonthIndex)

  /** Months since January of year 0, so consecutive months differ by one. */
  function Ordinal(d: CalendarMonth): int {
    d.year * 12 + d.month
  }

  /** The year `new Date(year, m, 1)` starts from: 0..99 are read as 1900..1999. */
  function FullYear(year: int): int {
    if 0 <= year <= 99 then 1900 + year else year
  }

  /** `new Date(year, monthIndex, 1)`: a month index outside 0..11 rolls over into
      the years before or after. */
  function MakeDate(year: int, monthIndex: int): CalendarMonth {
    CalendarMonth(FullYear(year) + monthIndex / 12, monthIndex % 12)
  }

  /** The date made lands `monthIndex` months after January of the full year. */
  lemma MakeDateOrdinal(year: int, monthIndex: int)
    ensures Ordinal(MakeDate(year, monthIndex)) == FullYear(year) * 12 + monthIndex
  {
  }

  /** The calendar month before `d`; January steps back to December of the year before. */
  function PreviousMonth(d: CalendarMonth): CalendarMonth {
    if d.month == 0 then CalendarMonth(d.year - 1, 11) else CalendarMonth(d.year, d.month - 1)
  }

  /** `String(n).padStart(2, "0")` */
  function PadStart2(s: string): string {
    if |s| == 0 then "00" else if |s| == 1 then "0" + s else s
  }

  /** `monthKey(d)` */
  function MonthKey(d: CalendarMonth): string {
    IntToString(d.year) + "-" + PadStart2(IntToString(d.month + 1))
  }

  /** The key is the year as `String` writes it, "-", and the month number 1..12 as
      exactly two digits. */
  lemma MonthKeyShape(d: CalendarMonth)
    ensures MonthKey(d) == IntToString(d.year) + "-" + [DigitChar((d.month + 1) / 10), DigitChar((d.month + 1) % 10)]
  {
    var n := d.month + 1;
    assert n >= 10 ==> Digits(n) == Digits(n / 10) + [DigitChar(n % 10)];
  }

  /** Reads a key of the form year "-" two-digit month back. */
  function ParseMonthKey(key: string): Option<CalendarMonth> {
    if |key| < 4 || key[|key| - 3] != '-' || !IsDigit(key[|key| - 2]) || !IsDigit(key[|key| - 1]) then None
    else
      var year := ParseInteger(key[..|key| - 3]);
      var number := DigitValue(key[|key| - 2]) * 10 + DigitValue(key[|key| - 1]);
      if year.None? || number < 1 || 12 < number then None
      else Some(CalendarMonth(year.value, number - 1))
  }

  /** A month key determines its year and month. */
  lemma MonthKeyRoundTrip(d: CalendarMonth)
    ensures ParseMonthKey(MonthKey(d)) == Some(d)
  {
    var key := MonthKey(d);
    var y := IntToString(d.year);
    MonthKeyShape(d);
    assert key[..|key| - 3] == y;
    IntToStringRoundTrip(d.year);
  }

  lemma MonthKeyInjective(d: CalendarMonth, e: CalendarMonth)
    requires MonthKey(d) == MonthKey(e)
    ensures d == e
  {
    MonthKeyRoundTrip(d);
    MonthKeyRoundTrip(e);
  }

  /** The `i`-th entry of the month list: `new Date(now.getFullYear(), now.getMonth() - i, 1)`. */
  function MonthAt(now: CalendarMonth, i: int): CalendarMonth {
    MakeDate(now.year, now.month - i)
  }

  /** The `months` list: twelve keys, going back one month at a time from `now`. */
  method MonthList(now: CalendarMonth) returns (list: seq<string>)
    ensures |list| == 12
    ensures forall i :: 0 <= i < 12 ==> list[i] == MonthKey(MonthAt(now, i))
  {
    list := [];
    for i := 0 to 12
      invariant |list| == i
      invariant forall j :: 0 <= j < i ==> list[j] == MonthKey(MonthAt(now, j))
    {
      var d := MonthAt(now, i);
      var key := MonthKey(d);
      list := list + [key];
      assert list[i] == key;
    }
  }

  /** The list starts with the current month (outside the years 0..99, which `Date`
      reads as 1900..1999). */
  lemma MonthListStartsNow(now: CalendarMonth)
    requires !(0 <= now.year <= 99)
    ensures MonthAt(now, 0) == now
  {
  }

  /** Each entry is the calendar month before the one in front of it. */
  lemma MonthListSteps(now: CalendarMonth, i: int)
    ensures MonthAt(now, i + 1) == PreviousMonth(MonthAt(now, i))
  {
    var d, e := MonthAt(now, i), MonthAt(now, i + 1);
    MakeDateOrdinal(now.year, now.month - i);
    MakeDateOrdinal(now.year, now.month - i - 1);
    assert Ordinal(e) == Ordinal(d) - 1;
    assert Ordinal(PreviousMonth(d)) == Ordinal(d) - 1;
    OrdinalInjective(e, PreviousMonth(d));
  }

  lemma OrdinalInjective(d: CalendarMonth, e: CalendarMonth)
    requires Ordinal(d) == Ordinal(e)
    ensures d == e
  {
    assert d.year == Ordinal(d) / 12 && d.month == Ordinal(d) % 12;
    assert e.year == Ordinal(e) / 12 && e.month == Ordinal(e) % 12;
  }

  /** No key occurs twice in the list. */
  lemma MonthKeysDistinct(now: CalendarMonth, i: int, j: int)
    requires 0 <= i < j < 12
    ensures MonthKey(MonthAt(now, i)) != MonthKey(MonthAt(now, j))
  {
    if MonthKey(MonthAt(now, i)) == MonthKey(MonthAt(now, j)) {
      MonthKeyInjective(MonthAt(now, i), MonthAt(now, j));
      assert false;
    }
  }

  /** For four-digit years the key of the month before sorts first as text. */
  lemma PreviousKeySortsFirst(d: CalendarMonth)
    requires 1000 <= PreviousMonth(d).year && d.year <= 9999
    ensures OrdinalCompare(MonthKey(PreviousMonth(d)), MonthKey(d)) < 0
  {
    if d.month == 0 {
      JanuaryKeySortsFirst(d);
    } else {
      SameYearKeySortsFirst(d);
    }
  }

  lemma JanuaryKeySortsFirst(d: CalendarMonth)
    requires d.month == 0 && 1001 <= d.year <= 9999
    ensures OrdinalCompare(MonthKey(PreviousMonth(d)), MonthKey(d)) < 0
  {
    assert PreviousMonth(d) == CalendarMonth(d.year - 1, 11);
    KeyWithYear(d.year - 1, 11);
    KeyWithYear(d.year, 0);
    YearDecides(d.year - 1, d.year, "-12", "-01");
  }

  /** The key of January and of December of a non-negative year. */
  lemma KeyWithYear(year: nat, month: MonthIndex)
    requires month == 0 || month == 11
    ensures MonthKey(CalendarMonth(year, month)) == Digits(year) + (if month == 0 then "-01" else "-12")
  {
    var key := IntToString(month + 1);
    assert month == 0 ==> key == "1";
    assert month == 11 ==> key == "12" by {
      if month == 11 {
        assert Digits(12) == Digits(1) + [DigitChar(2)];
      }
    }
  }

  lemma SameYearKeySortsFirst(d: CalendarMonth)
    requires d.month != 0
    ensures OrdinalCompare(MonthKey(PreviousMonth(d)), MonthKey(d)) < 0
  {
    MonthKeyShape(PreviousMonth(d));
    MonthKeyShape(d);
    var y := IntToString(d.year) + "-";
    assert MonthKey(PreviousMonth(d)) == y + [DigitChar(d.month / 10), DigitChar(d.month % 10)];
    assert MonthKey(d) == y + [DigitChar((d.month + 1) / 10), DigitChar((d.month + 1) % 10)];
    MonthNumberDecides(y, d.month);
  }

  /** Between four-digit years the earlier year's text sorts first, whatever follows. */
  lemma YearDecides(a: nat, b: nat, u: string, v: string)
    requires 1000 <= a < b <= 9999
    ensures OrdinalCompare(Digits(a) + u, Digits(b) + v) < 0
  {
    FourDigits(a);
    FourDigits(b);
    DigitsOrdered(a, b);
    OrdinalCompareDecidedPrefix(Digits(a), Digits(b), u, v);
  }

  /** Within a year the two-digit month numbers decide. */
  lemma MonthNumberDecides(y: string, m: int)
    requires 1 <= m <= 11
    ensures OrdinalCompare(y + [DigitChar(m / 10), DigitChar(m % 10)],
                           y + [DigitChar((m + 1) / 10), DigitChar((m + 1) % 10)]) < 0
  {
    var pa := [DigitChar(m / 10), DigitChar(m % 10)];
    var pb := [DigitChar((m + 1) / 10), DigitChar((m + 1) % 10)];
    OrdinalCompareCommonPrefix(y, pa, pb);
    if m / 10 == (m + 1) / 10 {
      assert pa == [pa[0]] + [pa[1]] && pb == [pa[0]] + [pb[1]];
      OrdinalCompareCommonPrefix([pa[0]], [pa[1]], [pb[1]]);
    }
  }

  /** With a four-digit year the keys run strictly downwards in text order too, which
      is the order the month selector lists them in. */
  lemma MonthKeysDescending(now: CalendarMonth, i: int)
    requires 1001 <= now.year <= 9999
    requires 0 <= i < 11
    ensures OrdinalCompare(MonthKey(MonthAt(now, i + 1)), MonthKey(MonthAt(now, i))) < 0
  {
    var d := MonthAt(now, i);
    MonthListSteps(now, i);
    MakeDateOrdinal(now.year, now.month - i);
    assert Ordinal(PreviousMonth(d)) == Ordinal(d) - 1 == now.year * 12 + now.month - i - 1;
    PreviousKeySortsFirst(d);
  }

  // ----- the selected month's figures and the chart -----

  /** `MonthRow`: one month of the `monthly_summary` remote procedure. */
  datatype MonthSummary = MonthSummary(month: string, income: int, expense: int, net: int)

  /** `rows.find(r => r.month === month) ?? { month, income: 0, expense: 0, net: 0 }` */
  function SelectedSummary(rows: seq<MonthSummary>, month: string): (r: MonthSummary)
    ensures r.month == month
    ensures (exists i :: 0 <= i < |rows| && rows[i].month == month) ==>
      exists i :: 0 <= i < |rows| && rows[i] == r && forall j :: 0 <= j < i ==> rows[j].month != month
    ensures (forall i :: 0 <= i < |rows| ==> rows[i].month != month) ==> r == MonthSummary(month, 0, 0, 0)
  {
    if rows == [] then MonthSummary(month, 0, 0, 0)
    else if rows[0].month == month then rows[0]
    else
      var r := SelectedSummary(rows[1..], month);
      assert forall i :: 0 < i < |rows| ==> rows[i] == rows[1..][i - 1];
      r
  }

  /** `[...rows].reverse()`: the chart series, oldest month first. */
  function ChartSeries(rows: seq<MonthSummary>): seq<MonthSummary> {
    Reversed(rows)
  }

  /** The series holds the summary rows, each once, in the opposite order: reversing it
      again gives the rows back. */
  lemma ChartSeriesReversesRows(rows: seq<MonthSummary>)
    ensures multiset(ChartSeries(rows)) == multiset(rows)
    ensures ChartSeries(ChartSeries(rows)) == rows
    ensures rows != [] ==> ChartSeries(rows)[0] == rows[|rows| - 1]
  {
    ReversedKeepsElements(rows);
  }
}
