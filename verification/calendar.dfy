/** Gregorian dates as `datetime.datetime(year, month, day)` accepts them,
    and the DDMMYY measurement date of an ISM file with its century pivot. */
module Calendar {
  import opened Wrappers
  import opened BigEndian
  import opened Text

  datatype Date = Date(year: int, month: int, day: int)

  /** `datetime.MINYEAR` and `datetime.MAXYEAR`. */
  const MinYear := 1
  const MaxYear := 9999

  /** Two-digit years below the pivot are in the 2000s, the others in the 1900s. */
  const CenturyPivot := 70

  predicate IsLeapYear(y: int) {
    y % 4 == 0 && (y % 100 != 0 || y % 400 == 0)
  }

  function DaysInMonth(y: int, m: int): (d: int)
    requires 1 <= m <= 12
    ensures 28 <= d <= 31
    ensures m == 2 ==> (d == 29 <==> IsLeapYear(y))
  {
    if m == 2 then (if IsLeapYear(y) then 29 else 28)
    else if m == 4 || m == 6 || m == 9 || m == 11 then 30
    else 31
  }

  predicate ValidDate(d: Date) {
    && MinYear <= d.year <= MaxYear
    && 1 <= d.month <= 12
    && 1 <= d.day <= DaysInMonth(d.year, d.month)
  }

  /** `datetime.datetime(year, month, day)`: raises `ValueError` unless the
      year is in 1..9999, the month in 1..12 and the day in 1..days in that month. */
  function MakeDate(year: int, month: int, day: int): (r: Option<Date>)
    ensures r.Some? <==> ValidDate(Date(year, month, day))
    ensures r.Some? ==> r.value == Date(year, month, day)
  {
    if !(MinYear <= year <= MaxYear) then None
    else if !(1 <= month <= 12) then None
    else if !(1 <= day <= DaysInMonth(year, month)) then None
    else Some(Date(year, month, day))
  }

  /** The year a two-digit field stands for. */
  function ExpandYear(yy: int): (y: int)
    ensures -9 <= yy <= 99 ==> 1970 <= y <= 2069
    ensures 0 <= yy <= 99 ==> y % 100 == yy
  {
    if yy < CenturyPivot then yy + 2000 else yy + 1900
  }

  /** Every year from 1970 to 2069 is the expansion of its last two digits,
      so the pivot loses no year in that window. */
  lemma ExpandYearOfLastDigits(y: int)
    requires 1970 <= y <= 2069
    ensures ExpandYear(y % 100) == y
  {
  }

  /** The measurement date: the first six date bytes decoded as ASCII,
      `int()` of characters 0-1 (day), 2-3 (month) and 4-5 (two-digit year),
      the year expanded around the pivot, and the result checked by `datetime`. */
  function DecodeDate(text: seq<Byte>): (r: Option<Date>)
    ensures r.Some? ==> ValidDate(r.value) && 1970 <= r.value.year <= 2069
  {
    var date :- Ascii(Slice(text, 0, 6));
    DateOfFields(date)
  }

  /** The date the day, month and year fields of the decoded text make. */
  function DateOfFields(date: string): (r: Option<Date>)
    ensures r.Some? ==> ValidDate(r.value) && 1970 <= r.value.year <= 2069
  {
    var day, month, yy := ParseInt(Slice(date, 0, 2)), ParseInt(Slice(date, 2, 4)),
      ParseInt(Slice(date, 4, 6));
    if day.None? || month.None? || yy.None? then None
    else
      ShortIntRange(Slice(date, 4, 6));
      MakeDate(ExpandYear(yy.value), month.value, day.value)
  }

  /** The six ASCII bytes `DDMMYY` the instrument writes for a date. */
  function EncodeDate(d: Date): (text: seq<Byte>)
    requires ValidDate(d) && 1970 <= d.year <= 2069
    ensures |text| == 6
  {
    AsciiBytes(TwoDigits(d.day) + TwoDigits(d.month) + TwoDigits(d.year % 100))
  }

  /** The bytes of an all-digit string. */
  function AsciiBytes(s: string): (bytes: seq<Byte>)
    requires AllDigits(s)
    ensures |bytes| == |s| && forall i :: 0 <= i < |s| ==> bytes[i] == s[i] as int
  {
    seq(|s|, i requires 0 <= i < |s| => s[i] as int)
  }

  /** A date written as `DDMMYY` and followed by anything is read back as
      the same date: the pivot and the field positions agree. */
  lemma DecodeEncodeDate(d: Date, rest: seq<Byte>)
    requires ValidDate(d) && 1970 <= d.year <= 2069
    ensures DecodeDate(EncodeDate(d) + rest) == Some(d)
  {
    var text := EncodeDate(d) + rest;
    EncodeDateBytes(d);
    assert forall i :: 0 <= i < 6 ==> text[i] == EncodeDate(d)[i];
    DecodeDigitDate(text);
    assert DigitPair(text, 0) == d.day;
    assert DigitPair(text, 2) == d.month;
    assert DigitPair(text, 4) == d.year % 100;
    ExpandYearOfLastDigits(d.year);
  }

  /** The value of the two ASCII digit bytes `text[i]`, `text[i + 1]`. */
  function DigitPair(text: seq<Byte>, i: nat): int
    requires i + 2 <= |text|
  {
    10 * (text[i] as int - 0x30) + (text[i + 1] as int - 0x30)
  }

  predicate IsDigitByte(b: Byte) {
    0x30 <= b <= 0x39
  }

  /** A date text that starts with six ASCII digits `DDMMYY` yields the
      date `datetime` makes of them, whatever follows: the date exists
      exactly when the month is 1..12 and the day is within that month. */
  lemma DecodeDigitDate(text: seq<Byte>)
    requires |text| >= 6 && forall i :: 0 <= i < 6 ==> IsDigitByte(text[i])
    ensures DecodeDate(text)
      == MakeDate(ExpandYear(DigitPair(text, 4)), DigitPair(text, 2), DigitPair(text, 0))
  {
    var date := AsciiOfDigitBytes(text);
    DigitFields(text, date);
  }

  lemma DigitFields(text: seq<Byte>, date: string)
    requires |text| >= 6 && |date| == 6
    requires forall j :: 0 <= j < 6 ==> IsDigitByte(text[j]) && date[j] as int == text[j]
    ensures DateOfFields(date)
      == MakeDate(ExpandYear(DigitPair(text, 4)), DigitPair(text, 2), DigitPair(text, 0))
  {
    DigitField(text, date, 0);
    DigitField(text, date, 2);
    DigitField(text, date, 4);
  }

  /** The first six bytes of `text`, all ASCII digits, decode to `date`. */
  lemma AsciiOfDigitBytes(text: seq<Byte>) returns (date: string)
    requires |text| >= 6 && forall i :: 0 <= i < 6 ==> IsDigitByte(text[i])
    ensures Ascii(Slice(text, 0, 6)) == Some(date)
    ensures |date| == 6 && forall j :: 0 <= j < 6 ==> date[j] as int == text[j]
  {
    var bytes := Slice(text, 0, 6);
    var r := Ascii(bytes);
    assert r.Some?;
    date := r.value;
  }

  lemma DigitField(text: seq<Byte>, date: string, i: nat)
    requires |text| >= 6 && |date| == 6 && i + 2 <= 6
    requires forall j :: 0 <= j < 6 ==> IsDigitByte(text[j]) && date[j] as int == text[j]
    ensures ParseInt(Slice(date, i, i + 2)) == Some(DigitPair(text, i))
  {
    var field := Slice(date, i, i + 2);
    assert field == [date[i], date[i + 1]];
    ParseTwoDigits(field);
  }

  /** The bytes of `EncodeDate(d)`: ASCII digits, tens before units. */
  lemma EncodeDateBytes(d: Date)
    requires ValidDate(d) && 1970 <= d.year <= 2069
    ensures EncodeDate(d) == [0x30 + d.day / 10, 0x30 + d.day % 10, 0x30 + d.month / 10,
                              0x30 + d.month % 10, 0x30 + d.year % 100 / 10, 0x30 + d.year % 10]
  {
    var dd, mm, yy := TwoDigits(d.day), TwoDigits(d.month), TwoDigits(d.year % 100);
    var digits := dd + mm + yy;
    assert digits == [dd[0], dd[1], mm[0], mm[1], yy[0], yy[1]];
    assert d.year % 100 % 10 == d.year % 10;
  }

  /** `010170` is 1 January 1970, the first day of the century window. */
  lemma WindowStart()
    ensures DecodeDate([0x30, 0x31, 0x30, 0x31, 0x37, 0x30]) == Some(Date(1970, 1, 1))
  {
    WindowExample(Date(1970, 1, 1), [0x30, 0x31, 0x30, 0x31, 0x37, 0x30]);
  }

  /** `010169` is 1 January 2069, the last new year of the century window. */
  lemma WindowEnd()
    ensures DecodeDate([0x30, 0x31, 0x30, 0x31, 0x36, 0x39]) == Some(Date(2069, 1, 1))
  {
    WindowExample(Date(2069, 1, 1), [0x30, 0x31, 0x30, 0x31, 0x36, 0x39]);
  }

  lemma WindowExample(d: Date, text: seq<Byte>)
    requires ValidDate(d) && 1970 <= d.year <= 2069
    requires text == [0x30 + d.day / 10, 0x30 + d.day % 10, 0x30 + d.month / 10,
                      0x30 + d.month % 10, 0x30 + d.year % 100 / 10, 0x30 + d.year % 10]
    ensures DecodeDate(text) == Some(d)
  {
    EncodeDateBytes(d);
    DecodeEncodeDate(d, []);
    assert EncodeDate(d) + [] == text;
  }

  /** 29 February exists in 2000 and not in 2001. */
  lemma LeapDay()
    ensures MakeDate(2000, 2, 29) == Some(Date(2000, 2, 29))
    ensures MakeDate(2001, 2, 29) == None
  {
  }
}
