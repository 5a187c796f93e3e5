/**
  The epoch line of a RINEX 3 observation data block ('>' record, Table A3
  of RINEX 3.03): date and time of the epoch, epoch flag, number of
  satellites (or of special-event lines) and the optional receiver clock
  offset.

  Columns (0-based, half-open): year [2, 6), month [7, 9), day [10, 12),
  hour [13, 15), minute [16, 18), seconds F11.7 [18, 29), flag [31, 32),
  count I3 [32, 35), clock offset F15.12 [41, 56).
*/
module Epoch {
  import opened Wrappers
  import opened Text

  /** Fractional digits of the seconds field: seconds are counted in units of 10^-7 s. */
  const SecondScale: nat := 7

  /** Fractional digits of the clock offset: offsets are counted in units of 10^-12 s. */
  const OffsetScale: nat := 12

  /**
    The epoch time as integers; second is in units of 10^-7 s. The value is
    the calendar date and time of day plus that many seconds.
  */
  datatype Timestamp = Timestamp(year: int, month: int, day: int, hour: int, minute: int, second: int)

  /**
    A parsed epoch line. No timestamp marks a special record (an event
    epoch with blank date fields); the clock offset is in units of 10^-12 s
    and is zero when the field is blank.
  */
  datatype EpochRecord = EpochRecord(timestamp: Option<Timestamp>, flag: int, count: int, clockOffset: int)

  /** Why an epoch line cannot be read. */
  datatype EpochError =
    | BadFlag           // the flag column is not a digit
    | BadCount          // the count columns are not an integer
    | BadClockOffset    // the clock offset columns are neither blank nor a number
    | MissingTimestamp  // a normal epoch (flag 0) without a valid date

  predicate IsLeapYear(y: int) {
    y % 4 == 0 && (y % 100 != 0 || y % 400 == 0)
  }

  function DaysInMonth(y: int, m: int): (d: int)
    requires 1 <= m <= 12
    ensures 28 <= d <= 31
    ensures d == 29 <==> m == 2 && IsLeapYear(y)
  {
    if m == 2 then (if IsLeapYear(y) then 29 else 28)
    else if m == 4 || m == 6 || m == 9 || m == 11 then 30
    else 31
  }

  /** The calendar fields form a date and time of day of the proleptic Gregorian calendar. */
  predicate ValidDate(t: Timestamp) {
    1 <= t.year <= 9999 && 1 <= t.month <= 12 && 1 <= t.day <= DaysInMonth(t.year, t.month) &&
    0 <= t.hour <= 23 && 0 <= t.minute <= 59
  }

  /** The six date and time fields of the line read as the fields of t. */
  predicate DateFieldsRead(line: string, t: Timestamp) {
    ParseInt(Slice(line, 2, 6)) == Some(t.year) && ParseInt(Slice(line, 7, 9)) == Some(t.month) &&
    ParseInt(Slice(line, 10, 12)) == Some(t.day) && ParseInt(Slice(line, 13, 15)) == Some(t.hour) &&
    ParseInt(Slice(line, 16, 18)) == Some(t.minute) && ParseFixed(Slice(line, 18, 29), SecondScale) == Some(t.second)
  }

  /**
    The epoch time of a line: every date and time field must read as a
    number and the date must exist, otherwise there is no timestamp.
  */
  function ParseTimestamp(line: string): (r: Option<Timestamp>)
    ensures r.Some? ==> DateFieldsRead(line, r.value) && ValidDate(r.value)
    ensures forall t :: DateFieldsRead(line, t) && ValidDate(t) ==> r == Some(t)
    ensures IsBlank(Slice(line, 2, 6)) ==> r.None?
  {
    var year := ParseInt(Slice(line, 2, 6));
    var month := ParseInt(Slice(line, 7, 9));
    var day := ParseInt(Slice(line, 10, 12));
    var hour := ParseInt(Slice(line, 13, 15));
    var minute := ParseInt(Slice(line, 16, 18));
    var second := ParseFixed(Slice(line, 18, 29), SecondScale);
    if year.None? || month.None? || day.None? || hour.None? || minute.None? || second.None? then
      ParseIntBlankNone(Slice(line, 2, 6));
      None
    else
      var t := Timestamp(year.value, month.value, day.value, hour.value, minute.value, second.value);
      if ValidDate(t) then Some(t) else None
  }

  lemma ParseIntBlankNone(s: string)
    ensures IsBlank(s) ==> ParseInt(s) == None
  {
    if IsBlank(s) { ParseIntBlank(s); }
  }

  /**
    Reads an epoch line. A normal epoch (flag 0) must carry a valid date;
    an event epoch may leave the date blank, and then has no timestamp.
  */
  function ParseEpochRecord(line: string): (r: Result<EpochRecord, EpochError>)
    ensures r.Ok? ==> 0 <= r.value.flag <= 9
    ensures r.Ok? ==> r.value.timestamp == ParseTimestamp(line)
    ensures r.Ok? ==> ParseInt(Slice(line, 31, 32)) == Some(r.value.flag) && ParseInt(Slice(line, 32, 35)) == Some(r.value.count)
    ensures r.Ok? && !IsBlank(Slice(line, 41, 56)) ==> ParseFixed(Slice(line, 41, 56), OffsetScale) == Some(r.value.clockOffset)
    ensures r == Err(BadFlag) <==> ParseInt(Slice(line, 31, 32)).None?
    ensures r == Err(BadCount) <==> ParseInt(Slice(line, 31, 32)).Some? && ParseInt(Slice(line, 32, 35)).None?
    ensures r == Err(BadClockOffset) <==> (ParseInt(Slice(line, 31, 32)).Some? && ParseInt(Slice(line, 32, 35)).Some? &&
      !IsBlank(Slice(line, 41, 56)) && ParseFixed(Slice(line, 41, 56), OffsetScale).None?)
    ensures r.Ok? ==> (r.value.timestamp.None? <==> r.value.flag != 0 && ParseTimestamp(line).None?)
    ensures r.Ok? && IsBlank(Slice(line, 41, 56)) ==> r.value.clockOffset == 0
    ensures r == Err(MissingTimestamp) ==> ParseTimestamp(line).None? && ParseInt(Slice(line, 31, 32)) == Some(0)
    ensures ParseTimestamp(line).None? && ParseInt(Slice(line, 31, 32)) == Some(0) ==> r.Err?
  {
    var flag := ParseInt(Slice(line, 31, 32));
    var count := ParseInt(Slice(line, 32, 35));
    var offsetField := Slice(line, 41, 56);
    var offset := if IsBlank(offsetField) then Some(0) else ParseFixed(offsetField, OffsetScale);
    ParseIntOneColumn(Slice(line, 31, 32));
    if flag.None? then Err(BadFlag)
    else if count.None? then Err(BadCount)
    else if offset.None? then Err(BadClockOffset)
    else
      var timestamp := ParseTimestamp(line);
      if timestamp.None? && flag.value == 0 then Err(MissingTimestamp)
      else Ok(EpochRecord(timestamp, flag.value, count.value, offset.value))
  }

  // ---------------------------------------------------------------------------
  // Writing an epoch line
  // ---------------------------------------------------------------------------

  /** Columns [0, 29): the marker, the date, the time of day and the seconds. */
  function DateText(t: Timestamp): string
    requires ValidDate(t)
  {
    "> " + ZeroPad(t.year, 4) + " " + ZeroPad(t.month, 2) + " " + ZeroPad(t.day, 2) + " " +
    ZeroPad(t.hour, 2) + " " + ZeroPad(t.minute, 2) + FormatFixed(t.second, 11, SecondScale)
  }

  /** Columns [29, 35) and, for a non-zero offset, [35, 56). */
  function TailText(e: EpochRecord): string {
    "  " + FormatInt(e.flag, 1) + FormatInt(e.count, 3) +
    (if e.clockOffset == 0 then "" else Spaces(6) + FormatFixed(e.clockOffset, 15, OffsetScale))
  }

  /** The epoch line a RINEX 3 writer produces; an event epoch without a time leaves columns 1-28 blank. */
  function FormatEpochRecord(e: EpochRecord): string
    requires WellFormed(e)
  {
    (match e.timestamp
     case Some(t) => DateText(t)
     case None => ">" + Spaces(28)) + TailText(e)
  }

  /** The records that fit the epoch line's columns and that a reader accepts. */
  predicate WellFormed(e: EpochRecord) {
    (match e.timestamp
     case Some(t) => ValidDate(t) && Abs(t.second) < Pow10(9)
     case None => e.flag != 0) &&
    0 <= e.flag <= 9 && 0 <= e.count <= 999 && Abs(e.clockOffset) < Pow10(13)
  }

  /** Two-digit fields (month, day, hour, minute) fill their two columns. */
  lemma TwoDigitWidth(n: nat)
    requires n <= 99
    ensures |ZeroPad(n, 2)| == 2
  {
    assert Pow10(2) == 100;
    ZeroPadLength(n, 2);
  }

  lemma YearWidth(n: nat)
    requires n <= 9999
    ensures |ZeroPad(n, 4)| == 4
  {
    assert Pow10(4) == 10000;
    ZeroPadLength(n, 4);
  }

  /** A value of fewer than 10^(scale + w) units fills a field of width sign + w + 1 + scale. */
  lemma FixedWidth(v: int, width: nat, scale: nat, w: nat)
    requires w >= 1 && Abs(v) < Pow10(scale + w) && 1 + w + 1 + scale <= width
    ensures |FormatFixed(v, width, scale)| == width
  {
    FixedTextLength(v, scale, w);
  }

  /** The pieces of DateText have the widths of their columns. */
  lemma DateTextWidths(t: Timestamp)
    requires ValidDate(t) && Abs(t.second) < Pow10(9)
    ensures |ZeroPad(t.year, 4)| == 4 && |ZeroPad(t.month, 2)| == 2 && |ZeroPad(t.day, 2)| == 2
    ensures |ZeroPad(t.hour, 2)| == 2 && |ZeroPad(t.minute, 2)| == 2
    ensures |FormatFixed(t.second, 11, SecondScale)| == 11
    ensures |DateText(t)| == 29
  {
    YearWidth(t.year);
    TwoDigitWidth(t.month);
    TwoDigitWidth(t.day);
    TwoDigitWidth(t.hour);
    TwoDigitWidth(t.minute);
    FixedWidth(t.second, 11, SecondScale, 2);
  }

  lemma YearField(t: Timestamp)
    requires ValidDate(t) && Abs(t.second) < Pow10(9)
    ensures Slice(DateText(t), 2, 6) == ZeroPad(t.year, 4)
  {
    var y, mo, dd, h, mi := ZeroPad(t.year, 4), ZeroPad(t.month, 2), ZeroPad(t.day, 2), ZeroPad(t.hour, 2), ZeroPad(t.minute, 2);
    var sec := FormatFixed(t.second, 11, SecondScale);
    YearWidth(t.year);
    TwoDigitWidth(t.month);
    TwoDigitWidth(t.day);
    TwoDigitWidth(t.hour);
    TwoDigitWidth(t.minute);
    SliceOfPrefix("> " + y + " " + mo + " " + dd + " " + h + " " + mi, sec, 2, 6);
    SliceOfPrefix("> " + y + " " + mo + " " + dd + " " + h + " ", mi, 2, 6);
    SliceOfPrefix("> " + y + " " + mo + " " + dd + " " + h, " ", 2, 6);
    SliceOfPrefix("> " + y + " " + mo + " " + dd + " ", h, 2, 6);
    SliceOfPrefix("> " + y + " " + mo + " " + dd, " ", 2, 6);
    SliceOfPrefix("> " + y + " " + mo + " ", dd, 2, 6);
    SliceOfPrefix("> " + y + " " + mo, " ", 2, 6);
    SliceOfPrefix("> " + y + " ", mo, 2, 6);
    SliceOfPrefix("> " + y, " ", 2, 6);
    SliceOfLast("> ", y);
  }

  lemma MonthField(t: Timestamp)
    requires ValidDate(t) && Abs(t.second) < Pow10(9)
    ensures Slice(DateText(t), 7, 9) == ZeroPad(t.month, 2)
  {
    var y, mo, dd, h, mi := ZeroPad(t.year, 4), ZeroPad(t.month, 2), ZeroPad(t.day, 2), ZeroPad(t.hour, 2), ZeroPad(t.minute, 2);
    var sec := FormatFixed(t.second, 11, SecondScale);
    YearWidth(t.year);
    TwoDigitWidth(t.month);
    TwoDigitWidth(t.day);
    TwoDigitWidth(t.hour);
    TwoDigitWidth(t.minute);
    SliceOfPrefix("> " + y + " " + mo + " " + dd + " " + h + " " + mi, sec, 7, 9);
    SliceOfPrefix("> " + y + " " + mo + " " + dd + " " + h + " ", mi, 7, 9);
    SliceOfPrefix("> " + y + " " + mo + " " + dd + " " + h, " ", 7, 9);
    SliceOfPrefix("> " + y + " " + mo + " " + dd + " ", h, 7, 9);
    SliceOfPrefix("> " + y + " " + mo + " " + dd, " ", 7, 9);
    SliceOfPrefix("> " + y + " " + mo + " ", dd, 7, 9);
    SliceOfPrefix("> " + y + " " + mo, " ", 7, 9);
    SliceOfLast("> " + y + " ", mo);
  }

  lemma DayField(t: Timestamp)
    requires ValidDate(t) && Abs(t.second) < Pow10(9)
    ensures Slice(DateText(t), 10, 12) == ZeroPad(t.day, 2)
  {
    var y, mo, dd, h, mi := ZeroPad(t.year, 4), ZeroPad(t.month, 2), ZeroPad(t.day, 2), ZeroPad(t.hour, 2), ZeroPad(t.minute, 2);
    var sec := FormatFixed(t.second, 11, SecondScale);
    YearWidth(t.year);
    TwoDigitWidth(t.month);
    TwoDigitWidth(t.day);
    TwoDigitWidth(t.hour);
    TwoDigitWidth(t.minute);
    SliceOfPrefix("> " + y + " " + mo + " " + dd + " " + h + " " + mi, sec, 10, 12);
    SliceOfPrefix("> " + y + " " + mo + " " + dd + " " + h + " ", mi, 10, 12);
    SliceOfPrefix("> " + y + " " + mo + " " + dd + " " + h, " ", 10, 12);
    SliceOfPrefix("> " + y + " " + mo + " " + dd + " ", h, 10, 12);
    SliceOfPrefix("> " + y + " " + mo + " " + dd, " ", 10, 12);
    SliceOfLast("> " + y + " " + mo + " ", dd);
  }

  lemma HourField(t: Timestamp)
    requires ValidDate(t) && Abs(t.second) < Pow10(9)
    ensures Slice(DateText(t), 13, 15) == ZeroPad(t.hour, 2)
  {
    var y, mo, dd, h, mi := ZeroPad(t.year, 4), ZeroPad(t.month, 2), ZeroPad(t.day, 2), ZeroPad(t.hour, 2), ZeroPad(t.minute, 2);
    var sec := FormatFixed(t.second, 11, SecondScale);
    YearWidth(t.year);
    TwoDigitWidth(t.month);
    TwoDigitWidth(t.day);
    TwoDigitWidth(t.hour);
    TwoDigitWidth(t.minute);
    SliceOfPrefix("> " + y + " " + mo + " " + dd + " " + h + " " + mi, sec, 13, 15);
    SliceOfPrefix("> " + y + " " + mo + " " + dd + " " + h + " ", mi, 13, 15);
    SliceOfPrefix("> " + y + " " + mo + " " + dd + " " + h, " ", 13, 15);
    SliceOfLast("> " + y + " " + mo + " " + dd + " ", h);
  }

  lemma MinuteField(t: Timestamp)
    requires ValidDate(t) && Abs(t.second) < Pow10(9)
    ensures Slice(DateText(t), 16, 18) == ZeroPad(t.minute, 2)
  {
    var y, mo, dd, h, mi := ZeroPad(t.year, 4), ZeroPad(t.month, 2), ZeroPad(t.day, 2), ZeroPad(t.hour, 2), ZeroPad(t.minute, 2);
    var sec := FormatFixed(t.second, 11, SecondScale);
    YearWidth(t.year);
    TwoDigitWidth(t.month);
    TwoDigitWidth(t.day);
    TwoDigitWidth(t.hour);
    TwoDigitWidth(t.minute);
    SliceOfPrefix("> " + y + " " + mo + " " + dd + " " + h + " " + mi, sec, 16, 18);
    SliceOfLast("> " + y + " " + mo + " " + dd + " " + h + " ", mi);
  }

  lemma SecondField(t: Timestamp)
    requires ValidDate(t) && Abs(t.second) < Pow10(9)
    ensures Slice(DateText(t), 18, 29) == FormatFixed(t.second, 11, SecondScale)
  {
    var y, mo, dd, h, mi := ZeroPad(t.year, 4), ZeroPad(t.month, 2), ZeroPad(t.day, 2), ZeroPad(t.hour, 2), ZeroPad(t.minute, 2);
    var sec := FormatFixed(t.second, 11, SecondScale);
    YearWidth(t.year);
    TwoDigitWidth(t.month);
    TwoDigitWidth(t.day);
    TwoDigitWidth(t.hour);
    TwoDigitWidth(t.minute);
    FixedWidth(t.second, 11, SecondScale, 2);
    SliceOfLast("> " + y + " " + mo + " " + dd + " " + h + " " + mi, sec);
  }

  /** A written date and time reads back as itself, whatever follows column 29. */
  lemma ParseDateText(t: Timestamp, tail: string)
    requires ValidDate(t) && Abs(t.second) < Pow10(9)
    ensures ParseTimestamp(DateText(t) + tail) == Some(t)
  {
    var line := DateText(t) + tail;
    DateTextWidths(t);
    YearField(t);
    SliceOfPrefix(DateText(t), tail, 2, 6);
    ParseZeroPad(t.year, 4);
    MonthField(t);
    SliceOfPrefix(DateText(t), tail, 7, 9);
    ParseZeroPad(t.month, 2);
    DayField(t);
    SliceOfPrefix(DateText(t), tail, 10, 12);
    ParseZeroPad(t.day, 2);
    HourField(t);
    SliceOfPrefix(DateText(t), tail, 13, 15);
    ParseZeroPad(t.hour, 2);
    MinuteField(t);
    SliceOfPrefix(DateText(t), tail, 16, 18);
    ParseZeroPad(t.minute, 2);
    SecondField(t);
    SliceOfPrefix(DateText(t), tail, 18, 29);
    ParseFormatFixed(t.second, 11, SecondScale);
  }

  /** Where TailText puts the flag, the count and the clock offset. */
  lemma TailFields(e: EpochRecord)
    requires WellFormed(e)
    ensures |TailText(e)| == if e.clockOffset == 0 then 6 else 27
    ensures Slice(TailText(e), 2, 3) == FormatInt(e.flag, 1)
    ensures Slice(TailText(e), 3, 6) == FormatInt(e.count, 3)
    ensures e.clockOffset != 0 ==> Slice(TailText(e), 12, 27) == FormatFixed(e.clockOffset, 15, OffsetScale)
  {
    var f, c := FormatInt(e.flag, 1), FormatInt(e.count, 3);
    var x := if e.clockOffset == 0 then "" else Spaces(6) + FormatFixed(e.clockOffset, 15, OffsetScale);
    assert TailText(e) == "  " + f + c + x;
    FlagCountText(e);
    OffsetText(e);
    SliceOfPrefix("  " + f + c, x, 2, 3);
    SliceOfPrefix("  " + f + c, x, 3, 6);
  }

  /** The flag and the count fill columns 2 and 3-5 of the first six. */
  lemma FlagCountText(e: EpochRecord)
    requires WellFormed(e)
    ensures var f, c := FormatInt(e.flag, 1), FormatInt(e.count, 3);
      |f| == 1 && |c| == 3 && Slice("  " + f + c, 2, 3) == f && Slice("  " + f + c, 3, 6) == c
  {
    var f, c := FormatInt(e.flag, 1), FormatInt(e.count, 3);
    assert Pow10(1) == 10 && Pow10(3) == 1000;
    IntWidth(e.flag, 1);
    IntWidth(e.count, 3);
    SliceOfPrefix("  " + f, c, 2, 3);
    SliceOfLast("  ", f);
    SliceOfLast("  " + f, c);
  }

  /** A non-zero offset fills columns 12-26 after six blanks; a zero offset adds nothing. */
  lemma OffsetText(e: EpochRecord)
    requires WellFormed(e)
    ensures var x := if e.clockOffset == 0 then "" else Spaces(6) + FormatFixed(e.clockOffset, 15, OffsetScale);
      |x| == (if e.clockOffset == 0 then 0 else 21) &&
      forall head: string :: |head| == 6 && e.clockOffset != 0 ==> Slice(head + x, 12, 27) == FormatFixed(e.clockOffset, 15, OffsetScale)
  {
    if e.clockOffset != 0 {
      var o := FormatFixed(e.clockOffset, 15, OffsetScale);
      FixedWidth(e.clockOffset, 15, OffsetScale, 1);
      forall head: string | |head| == 6
        ensures Slice(head + (Spaces(6) + o), 12, 27) == o
      {
        assert head + (Spaces(6) + o) == (head + Spaces(6)) + o;
        SliceOfLast(head + Spaces(6), o);
      }
    }
  }

  /** The flag and the count read back from columns 31 and 32-34. */
  lemma ReadFlagCount(head: string, e: EpochRecord)
    requires |head| == 29 && WellFormed(e)
    ensures ParseInt(Slice(head + TailText(e), 31, 32)) == Some(e.flag)
    ensures ParseInt(Slice(head + TailText(e), 32, 35)) == Some(e.count)
  {
    TailFields(e);
    SliceOfSuffix(head, TailText(e), 2, 3);
    SliceOfSuffix(head, TailText(e), 3, 6);
    ParseFormatInt(e.flag, 1);
    ParseFormatInt(e.count, 3);
  }

  /** The clock offset reads back from columns 41-55, or from their absence when it is zero. */
  lemma ReadOffset(head: string, e: EpochRecord)
    requires |head| == 29 && WellFormed(e)
    ensures var o := Slice(head + TailText(e), 41, 56);
      (if IsBlank(o) then Some(0) else ParseFixed(o, OffsetScale)) == Some(e.clockOffset)
  {
    var line := head + TailText(e);
    TailFields(e);
    if e.clockOffset == 0 {
      SlicePastEnd(line, 41, 56);
    } else {
      var o := FormatFixed(e.clockOffset, 15, OffsetScale);
      SliceOfSuffix(head, TailText(e), 12, 27);
      ParseFormatFixed(e.clockOffset, 15, OffsetScale);
      if IsBlank(o) {
        ParseFixedBlank(o, OffsetScale);
      }
    }
  }

  /** An event epoch without a time has blank date columns, so no timestamp. */
  lemma BlankDateNoTimestamp(tail: string)
    ensures ParseTimestamp(">" + Spaces(28) + tail) == None
  {
    var head := ">" + Spaces(28);
    SliceOfPrefix(head, tail, 2, 6);
    assert IsBlank(Slice(head, 2, 6));
  }

  /** Every well-formed epoch record written as an epoch line reads back as itself. */
  lemma ParseFormatEpochRecord(e: EpochRecord)
    requires WellFormed(e)
    ensures ParseEpochRecord(FormatEpochRecord(e)) == Ok(e)
  {
    var tail := TailText(e);
    match e.timestamp {
      case Some(t) =>
        DateTextWidths(t);
        ReadFlagCount(DateText(t), e);
        ReadOffset(DateText(t), e);
        ParseDateText(t, tail);
      case None =>
        var head := ">" + Spaces(28);
        ReadFlagCount(head, e);
        ReadOffset(head, e);
        BlankDateNoTimestamp(tail);
    }
  }

  /** Zero seconds take eleven columns: two blanks, a zero, the point and seven zeros. */
  lemma ZeroSecondText()
    ensures FormatFixed(0, 11, SecondScale) == "  0.0000000"
  {
    ZeroSecondDigits();
    ZeroSecondPoint(ZeroPad(0, 8));
    assert FixedText(0, SecondScale) == "0.0000000";
    ZeroSecondPad("0.0000000");
  }

  lemma ZeroSecondDigits()
    ensures ZeroPad(0, 8) == "00000000"
  {
    assert DigitsOf(0) == "0";
    assert Zeros(7) == "0000000";
  }

  lemma ZeroSecondPoint(d: string)
    requires d == "00000000"
    ensures PointText(d, 7) == "0.0000000"
  {
    assert d[..1] == "0" && d[1..] == "0000000";
  }

  lemma ZeroSecondPad(p: string)
    requires p == "0.0000000"
    ensures PadLeft(p, 11) == "  0.0000000"
  {
    assert Spaces(2) == "  ";
  }

  /** The date fields of 2015-12-19 00:00. */
  lemma NormalDateFields()
    ensures ZeroPad(2015, 4) == "2015" && ZeroPad(12, 2) == "12" && ZeroPad(19, 2) == "19" && ZeroPad(0, 2) == "00"
  {
    assert DigitsOf(2) == "2" && DigitsOf(20) == "20" && DigitsOf(201) == "201" && DigitsOf(2015) == "2015";
    assert DigitsOf(1) == "1" && DigitsOf(12) == "12" && DigitsOf(19) == "19";
    assert DigitsOf(0) == "0" && Zeros(1) == "0";
  }

  lemma NormalEpochText(e: EpochRecord)
    requires e == EpochRecord(Some(Timestamp(2015, 12, 19, 0, 0, 0)), 0, 28, 0)
    ensures WellFormed(e) && FormatEpochRecord(e) == "> 2015 12 19 00 00  0.0000000  0 28"
  {
    var t := Timestamp(2015, 12, 19, 0, 0, 0);
    assert ValidDate(t);
    NormalDateFields();
    ZeroSecondText();
    NormalDateLine(ZeroPad(2015, 4), ZeroPad(12, 2), ZeroPad(19, 2), ZeroPad(0, 2), ZeroPad(0, 2),
      FormatFixed(0, 11, SecondScale));
    NormalTailText(e);
    assert "> 2015 12 19 00 00  0.0000000" + "  0 28" == "> 2015 12 19 00 00  0.0000000  0 28";
  }

  /** The date columns of the normal epoch, joined field by field. */
  lemma NormalDateLine(y: string, mo: string, dd: string, h: string, mi: string, sec: string)
    requires y == "2015" && mo == "12" && dd == "19" && h == "00" && mi == "00" && sec == "  0.0000000"
    ensures "> " + y + " " + mo + " " + dd + " " + h + " " + mi + sec == "> 2015 12 19 00 00  0.0000000"
  {
    assert "> " + y == "> 2015";
    assert "> 2015" + " " + mo == "> 2015 12";
    assert "> 2015 12" + " " + dd == "> 2015 12 19";
    assert "> 2015 12 19" + " " + h == "> 2015 12 19 00";
    assert "> 2015 12 19 00" + " " + mi == "> 2015 12 19 00 00";
    assert "> 2015 12 19 00 00" + sec == "> 2015 12 19 00 00  0.0000000";
  }

  /** Flag 0 and 28 satellites, with no offset, take six columns. */
  lemma NormalTailText(e: EpochRecord)
    requires e.flag == 0 && e.count == 28 && e.clockOffset == 0
    ensures TailText(e) == "  0 28"
  {
    assert DigitsOf(0) == "0" && DigitsOf(2) == "2" && DigitsOf(28) == "28";
    assert FormatInt(0, 1) == "0" && FormatInt(28, 3) == " 28";
  }

  /** A normal epoch: 2015-12-19 00:00:00, flag 0, 28 satellites, no clock offset. */
  lemma NormalEpochLine()
    ensures ParseEpochRecord("> 2015 12 19 00 00  0.0000000  0 28") ==
      Ok(EpochRecord(Some(Timestamp(2015, 12, 19, 0, 0, 0)), 0, 28, 0))
  {
    var e := EpochRecord(Some(Timestamp(2015, 12, 19, 0, 0, 0)), 0, 28, 0);
    NormalEpochText(e);
    ParseFormatEpochRecord(e);
  }

  /**
    An event epoch (flag 4, one special line) whose 28 date columns are
    blank has no timestamp.
  */
  lemma EventEpochLine()
    ensures ParseEpochRecord(">" + Spaces(28) + "  4  1") == Ok(EpochRecord(None, 4, 1, 0))
  {
    var e := EpochRecord(None, 4, 1, 0);
    EventEpochText(e);
    ParseFormatEpochRecord(e);
  }

  lemma EventEpochText(e: EpochRecord)
    requires e.timestamp.None? && e.flag == 4 && e.count == 1 && e.clockOffset == 0
    ensures WellFormed(e) && FormatEpochRecord(e) == ">" + Spaces(28) + "  4  1"
  {
    EventTailText(e);
  }

  /** Flag 4 and one special line, with no offset, take six columns. */
  lemma EventTailText(e: EpochRecord)
    requires e.flag == 4 && e.count == 1 && e.clockOffset == 0
    ensures TailText(e) == "  4  1"
  {
    assert DigitsOf(4) == "4" && DigitsOf(1) == "1";
    assert FormatInt(4, 1) == "4" && FormatInt(1, 3) == "  1";
  }
}
