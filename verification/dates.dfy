/** Dates as the tag feed compares them: `datetime.strptime(s, "%Y-%m-%d")`
    and the ordering of the resulting midnight timestamps.

    Python compiles that format to the pattern
      (\d\d\d\d)-(1[0-2]|0[1-9]|[1-9])-(3[01]|[12]\d|0[1-9]|[1-9]| [1-9])
    matched at the start of the string; the match must then cover the whole
    string, and the numbers must name a real calendar day in years 1..9999. */
module Dates {

  import opened Wrappers
  import opened Text

  datatype Date = Date(year: int, month: int, day: int)

  predicate IsLeapYear(y: int) {
    y % 4 == 0 && (y % 100 != 0 || y % 400 == 0)
  }

  function DaysInMonth(y: int, m: int): int
    requires 1 <= m <= 12
  {
    if m == 2 then (if IsLeapYear(y) then 29 else 28)
    else if m == 4 || m == 6 || m == 9 || m == 11 then 30
    else 31
  }

  /** A day `datetime` can represent. */
  predicate Valid(d: Date) {
    && 1 <= d.year <= 9999
    && 1 <= d.month <= 12
    && 1 <= d.day <= DaysInMonth(d.year, d.month)
  }

  /** `a < b` between the midnights of two days. */
  predicate Precedes(a: Date, b: Date) {
    || a.year < b.year
    || (a.year == b.year && a.month < b.month)
    || (a.year == b.year && a.month == b.month && a.day < b.day)
  }

  /** Precedes is a strict total order on days. */
  lemma PrecedesIsStrictTotal(a: Date, b: Date, c: Date)
    ensures !Precedes(a, a)
    ensures Precedes(a, b) && Precedes(b, c) ==> Precedes(a, c)
    ensures a != b ==> Precedes(a, b) || Precedes(b, a)
  {
  }

  /** A number read from the string and the index just past it. */
  datatype Field = Field(value: int, next: nat)

  predicate DigitIn(s: string, i: int, lo: char, hi: char) {
    0 <= i < |s| && lo <= s[i] <= hi
  }

  /** The `%m` group at `i`: `1[0-2]`, else `0[1-9]`, else `[1-9]`. */
  function MonthField(s: string, i: nat): (r: Option<Field>)
    ensures r.Some? ==> 1 <= r.value.value <= 12 && i < r.value.next <= i + 2 && r.value.next <= |s|
  {
    if DigitIn(s, i, '1', '1') && DigitIn(s, i + 1, '0', '2') then
      Some(Field(10 + DigitValue(s[i + 1]), i + 2))
    else if DigitIn(s, i, '0', '0') && DigitIn(s, i + 1, '1', '9') then
      Some(Field(DigitValue(s[i + 1]), i + 2))
    else if DigitIn(s, i, '1', '9') then
      Some(Field(DigitValue(s[i]), i + 1))
    else None
  }

  /** The `%d` group at `i`: `3[01]`, else `[12]\d`, else `0[1-9]`, else
      `[1-9]`, else a space and `[1-9]`. Nothing follows the group in the
      pattern, so the first alternative that matches is the one taken. */
  function DayField(s: string, i: nat): (r: Option<Field>)
    ensures r.Some? ==> 1 <= r.value.value <= 31 && i < r.value.next <= i + 2 && r.value.next <= |s|
  {
    if DigitIn(s, i, '3', '3') && DigitIn(s, i + 1, '0', '1') then
      Some(Field(30 + DigitValue(s[i + 1]), i + 2))
    else if DigitIn(s, i, '1', '2') && DigitIn(s, i + 1, '0', '9') then
      Some(Field(10 * DigitValue(s[i]) + DigitValue(s[i + 1]), i + 2))
    else if DigitIn(s, i, '0', '0') && DigitIn(s, i + 1, '1', '9') then
      Some(Field(DigitValue(s[i + 1]), i + 2))
    else if DigitIn(s, i, '1', '9') then
      Some(Field(DigitValue(s[i]), i + 1))
    else if i < |s| && s[i] == ' ' && DigitIn(s, i + 1, '1', '9') then
      Some(Field(DigitValue(s[i + 1]), i + 2))
    else None
  }

  /** Two digits, zero-padded. */
  function Pad2(n: int): (r: string)
    requires 0 <= n < 100
    ensures |r| == 2 && AllDigits(r)
  {
    [DigitChar(n / 10), DigitChar(n % 10)]
  }

  /** The ways `%m` writes month `m`: two digits, or one digit below 10. */
  predicate MonthText(t: string, m: int) {
    1 <= m <= 12 && (t == Pad2(m) || (m <= 9 && t == [DigitChar(m)]))
  }

  /** The ways `%d` writes day `d`: two digits, or below 10 one digit,
      alone or after a space. */
  predicate DayText(t: string, d: int) {
    1 <= d <= 31 && (t == Pad2(d) || (d <= 9 && (t == [DigitChar(d)] || t == [' ', DigitChar(d)])))
  }

  /** `s` writes day `d` as `%Y-%m-%d` reads it, with the second dash at `k`:
      four digits giving the year, a dash, the month, a dash, the day, and
      nothing after. */
  predicate WrittenAs(s: string, d: Date, k: int) {
    && 5 < k < |s|
    && AllDigits(s[..4]) && DecimalValue(s[..4]) == d.year && s[4] == '-'
    && MonthText(s[5..k], d.month)
    && s[k] == '-'
    && DayText(s[k + 1..], d.day)
  }

  /** A digit character written back from its value is the same character. */
  lemma DigitCharOfValue(c: char)
    requires IsDigit(c)
    ensures DigitChar(DigitValue(c)) == c
  {
  }

  /** What the `%m` group matched is the month written in one of its forms. */
  lemma MonthFieldReads(s: string, i: nat)
    requires MonthField(s, i).Some?
    ensures MonthText(s[i..MonthField(s, i).value.next], MonthField(s, i).value.value)
  {
    var f := MonthField(s, i).value;
    var t := s[i..f.next];
    if f.next == i + 2 {
      assert t == [s[i], s[i + 1]];
      DigitCharOfValue(s[i + 1]);
      assert t == Pad2(f.value);
    } else {
      assert t == [s[i]];
      DigitCharOfValue(s[i]);
    }
  }

  /** What the `%d` group matched is the day written in one of its forms. */
  lemma DayFieldReads(s: string, i: nat)
    requires DayField(s, i).Some?
    ensures DayText(s[i..DayField(s, i).value.next], DayField(s, i).value.value)
  {
    var f := DayField(s, i).value;
    var t := s[i..f.next];
    if f.next == i + 2 {
      assert t == [s[i], s[i + 1]];
      DigitCharOfValue(s[i + 1]);
      if s[i] == ' ' {
        assert t == [' ', DigitChar(f.value)];
      } else {
        DigitCharOfValue(s[i]);
        assert t == Pad2(f.value);
      }
    } else {
      assert t == [s[i]];
      DigitCharOfValue(s[i]);
    }
  }

  /** Fields that `%m` and `%d` matched up to the end of the string write
      the day they read. */
  lemma FieldsWriteDate(s: string, m: Field, d: Field)
    requires 5 <= |s| && AllDigits(s[..4]) && s[4] == '-'
    requires MonthField(s, 5) == Some(m) && m.next < |s| && s[m.next] == '-'
    requires DayField(s, m.next + 1) == Some(d) && d.next == |s|
    ensures WrittenAs(s, Date(DecimalValue(s[..4]), m.value, d.value), m.next)
  {
    MonthFieldReads(s, 5);
    DayFieldReads(s, m.next + 1);
  }

  /** `datetime.strptime(s, "%Y-%m-%d")`, with `None` for the `ValueError`. */
  function ParseDate(s: string): (r: Option<Date>)
    ensures r.Some? ==> Valid(r.value)
    ensures r.Some? ==> 8 <= |s| <= 10 && AllDigits(s[..4]) && s[4] == '-'
    ensures r.Some? ==> exists k :: WrittenAs(s, r.value, k)
  {
    if |s| < 5 || !AllDigits(s[..4]) || s[4] != '-' then None
    else match MonthField(s, 5)
      case None => None
      case Some(m) =>
        if m.next >= |s| || s[m.next] != '-' then None
        else match DayField(s, m.next + 1)
          case None => None
          case Some(d) =>
            if d.next != |s| then None
            else
              var date := Date(DecimalValue(s[..4]), m.value, d.value);
              FieldsWriteDate(s, m, d);
              if Valid(date) then Some(date) else None
  }

  /** Four digits, zero-padded: the hundreds, then the last two digits. */
  function Pad4(n: int): (r: string)
    requires 0 <= n < 10000
    ensures |r| == 4 && AllDigits(r)
  {
    Pad2(n / 100) + Pad2(n % 100)
  }

  /** The ISO form `YYYY-MM-DD` of a day, as `date.isoformat()` writes it. */
  function Format(d: Date): (r: string)
    requires Valid(d)
    ensures |r| == 10
  {
    Pad4(d.year) + "-" + Pad2(d.month) + "-" + Pad2(d.day)
  }

  /** The value of a four-digit numeral, digit by digit. */
  lemma DecimalValueOfFour(s: string)
    requires |s| == 4 && AllDigits(s)
    ensures DecimalValue(s) == 1000 * DigitValue(s[0]) + 100 * DigitValue(s[1])
                               + 10 * DigitValue(s[2]) + DigitValue(s[3])
  {
    var a, b, c := s[..1], s[..2], s[..3];
    assert a[..0] == [];
    assert DecimalValue(a) == DigitValue(s[0]);
    assert b[..1] == a;
    assert DecimalValue(b) == DecimalValue(a) * 10 + DigitValue(s[1]);
    assert c[..2] == b;
    assert DecimalValue(c) == DecimalValue(b) * 10 + DigitValue(s[2]);
    assert s[..3] == c;
  }

  /** A zero-padded year reads back as the year. */
  lemma Pad4RoundTrip(y: int)
    requires 0 <= y < 10000
    ensures DecimalValue(Pad4(y)) == y
  {
    var h, l := y / 100, y % 100;
    var s := Pad4(y);
    DecimalValueOfFour(s);
    assert s[0] == DigitChar(h / 10) && s[1] == DigitChar(h % 10);
    assert s[2] == DigitChar(l / 10) && s[3] == DigitChar(l % 10);
    assert 10 * (h / 10) + h % 10 == h;
    assert 10 * (l / 10) + l % 10 == l;
  }

  /** A month written in one of its forms and followed by a dash matches the
      `%m` group as that month. */
  lemma MonthFieldOfText(s: string, i: nat, k: nat, m: int)
    requires i < k < |s| && s[k] == '-' && MonthText(s[i..k], m)
    ensures MonthField(s, i) == Some(Field(m, k))
  {
    var t := s[i..k];
    assert s[i] == t[0];
    if |t| == 2 {
      assert s[i + 1] == t[1];
    } else {
      assert s[i + 1] == '-';
    }
  }

  /** A day written in one of its forms at the end of the string matches the
      `%d` group as that day. */
  lemma DayFieldOfText(s: string, i: nat, d: int)
    requires i < |s| && DayText(s[i..], d)
    ensures DayField(s, i) == Some(Field(d, |s|))
  {
    var t := s[i..];
    assert s[i] == t[0];
    if |t| == 2 {
      assert s[i + 1] == t[1];
    }
  }

  /** A string that writes a valid day in the `%Y-%m-%d` pattern parses to
      that day:
      with the soundness clause of `ParseDate`, `ParseDate(s) == Some(d)`
      exactly when `d` is valid and `s` writes it. */
  lemma ParseDateReads(s: string, d: Date, k: int)
    requires Valid(d) && WrittenAs(s, d, k)
    ensures ParseDate(s) == Some(d)
  {
    MonthFieldOfText(s, 5, k, d.month);
    DayFieldOfText(s, k + 1, d.day);
  }

  /** Every day written in ISO form parses back to itself. */
  lemma ParseFormat(d: Date)
    requires Valid(d)
    ensures ParseDate(Format(d)) == Some(d)
  {
    var s := Format(d);
    assert s[..4] == Pad4(d.year);
    Pad4RoundTrip(d.year);
    assert s[5..7] == Pad2(d.month) && s[8..] == Pad2(d.day);
    ParseDateReads(s, d, 7);
  }

  /** The date part of an ISO timestamp: `stamp.split('T')[0]`. */
  function DatePart(stamp: string): (r: string)
    ensures r <= stamp && 'T' !in r
    ensures |r| < |stamp| ==> stamp[|r|] == 'T'
  {
    PrefixBefore(stamp, 'T')
  }

  /** The pattern takes a one-digit month and a one-digit day. */
  lemma OneDigitFieldsAccepted()
    ensures ParseDate("2024-1-5") == Some(Date(2024, 1, 5))
  {
    var s := "2024-1-5";
    assert s[..4] == "2024";
    DecimalValueOfFour("2024");
    assert s[5..6] == [DigitChar(1)] && s[7..] == [DigitChar(5)];
    ParseDateReads(s, Date(2024, 1, 5), 6);
  }

  /** The 29th of February does not exist in 2023 and is refused. */
  lemma LeapDayRefusedInCommonYear()
    ensures ParseDate("2023-02-29").None?
  {
    DecimalValueOfFour("2023");
    assert "2023-02-29"[..4] == "2023";
  }

  /** The 29th of February 2024 exists and is accepted. */
  lemma LeapDayAcceptedInLeapYear()
    ensures ParseDate("2024-02-29") == Some(Date(2024, 2, 29))
  {
    ParseFormat(Date(2024, 2, 29));
    assert Format(Date(2024, 2, 29)) == "2024-02-29";
  }
}
