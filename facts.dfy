/**
 * What the periods `parse_forecast` returns have in common, and how a table
 * row's values are assigned to the forecast days.
 */
module ForecastFacts {
  import opened Wrappers
  import opened Text
  import opened Calendar
  import opened Issued
  import opened Kp
  import opened Forecast

  /** A cell gives a period exactly when its value parses, reaches the threshold and the hour is real. */
  lemma CellPeriodSpec(tok: string, date: Date, hour: nat, threshold: int)
    requires ValidDate(date)
    ensures CellPeriod(tok, date, hour, threshold).Some? <==>
              KpValue(tok).Some? && KpValue(tok).value >= threshold && hour < 24
    ensures var r := CellPeriod(tok, date, hour, threshold);
            r.Some? ==> r.value.start == Instant(date, hour) && r.value.kp == KpValue(tok).value
                        && r.value.end == AddThreeHours(r.value.start)
  {
  }

  /** A period as the parser builds it from a cell dated by one of `dates`. */
  predicate Reported(p: Period, dates: seq<Date>, threshold: int)
  {
    p.kp >= threshold && ValidInstant(p.start) && p.start.date in dates && p.end == AddThreeHours(p.start)
  }

  /** The period of one cell, if any, is built from that cell's date. */
  lemma CellListReported(tok: string, date: Date, hour: nat, threshold: int)
    requires ValidDate(date)
    ensures forall p :: p in CellList(tok, date, hour, threshold) ==>
              p.kp >= threshold && ValidInstant(p.start) && p.start.date == date && p.end == AddThreeHours(p.start)
  {
  }

  /** Every cell that `RowReader` reads is reported as dated by its column. */
  lemma RowReaderReported(dates: seq<Date>, hour: nat, threshold: int)
    requires ValidDates(dates)
    ensures forall tok, k: nat, p :: p in RowReader(dates, hour, threshold)(tok, k) ==> Reported(p, dates, threshold)
  {
    forall tok, k: nat, p | p in RowReader(dates, hour, threshold)(tok, k)
      ensures Reported(p, dates, threshold)
    {
      CellListReported(tok, dates[k], hour, threshold);
      assert dates[k] in dates;
    }
  }

  /** When every cell read is reported, so is every period of the row. */
  lemma {:induction false} CellsReported(read: CellReader, values: seq<string>, n: nat, dates: seq<Date>, threshold: int)
    requires n <= |values|
    requires forall tok, k: nat, p :: p in read(tok, k) ==> Reported(p, dates, threshold)
    ensures forall p :: p in Cells(read, values, n) ==> Reported(p, dates, threshold)
  {
    if n > 0 {
      CellsReported(read, values, n - 1, dates, threshold);
      assert Cells(read, values, n) == Cells(read, values, n - 1) + read(values[n - 1], n - 1);
    }
  }

  lemma RowPeriodsReported(line: string, dates: seq<Date>, threshold: int)
    requires |dates| == DayCount && ValidDates(dates)
    ensures forall p :: p in RowPeriods(line, dates, threshold) ==> Reported(p, dates, threshold)
  {
    var l := Strip(line);
    if l != [] && IsRowLabel(l) && |Tokens(l)| >= DayCount + 1 {
      RowRead(line, dates, threshold);
      var parts := Tokens(l);
      var hour := DigitsValue(parts[0][..2]);
      RowReaderReported(dates, hour, threshold);
      CellsReported(RowReader(dates, hour, threshold), parts[1..], DayCount, dates, threshold);
    }
  }

  lemma {:induction false} RowsReported(lines: seq<string>, lo: nat, hi: nat, dates: seq<Date>, threshold: int)
    requires lo <= hi <= |lines| && |dates| == DayCount && ValidDates(dates)
    ensures forall p :: p in RowsBetween(lines, lo, hi, dates, threshold) ==> Reported(p, dates, threshold)
    decreases hi - lo
  {
    if hi > lo {
      RowsReported(lines, lo, hi - 1, dates, threshold);
      RowPeriodsReported(lines[hi - 1], dates, threshold);
      RowsStep(lines, lo, hi - 1, dates, threshold);
      assert hi - 1 + 1 == hi;
    }
  }

  /**
   * Every period `parse_forecast` returns reaches the threshold, starts at a
   * real hour of one of the three header dates, and ends three hours later.
   */
  lemma ParseReported(text: string, threshold: int, nowYear: int, nowMonth: int, h: nat, ds: seq<Date>)
    requires text != [] && FindHeader(SplitLines(text)) == Some(h)
    requires DecodeDates(Tokens(Strip(SplitLines(text)[h])), BaseYear(SplitLines(text), nowYear), nowMonth) == Some(ds)
    ensures forall p :: p in Parse(text, threshold, nowYear, nowMonth) ==> Reported(p, ds, threshold)
  {
    ParseRead(text, threshold, nowYear, nowMonth, h, ds);
    RowsReported(SplitLines(text), h + 1, |SplitLines(text)|, ds, threshold);
  }

  /** Each period ends three hours, on the absolute hour count, after it starts. */
  lemma ParseThreeHours(text: string, threshold: int, nowYear: int, nowMonth: int)
    ensures forall p :: p in Parse(text, threshold, nowYear, nowMonth) ==>
              && p.kp >= threshold && ValidInstant(p.start) && 1 <= p.end.date.month <= 12
              && HourNumber(p.end) == HourNumber(p.start) + 3
  {
    var lines := SplitLines(text);
    if text != [] && FindHeader(lines).Some? {
      var h := FindHeader(lines).value;
      var dates := DecodeDates(Tokens(Strip(lines[h])), BaseYear(lines, nowYear), nowMonth);
      if dates.Some? {
        ParseReported(text, threshold, nowYear, nowMonth, h, dates.value);
        forall p | p in Parse(text, threshold, nowYear, nowMonth)
          ensures 1 <= p.end.date.month <= 12 && HourNumber(p.end) == HourNumber(p.start) + 3
        {
          AddThreeHoursSpec(p.start);
        }
      }
    }
  }

  /** Empty text, or text in which no header is found, gives no periods. */
  lemma NoHeaderNoPeriods(text: string, threshold: int, nowYear: int, nowMonth: int)
    requires text == [] || FindHeader(SplitLines(text)).None?
    ensures Parse(text, threshold, nowYear, nowMonth) == []
  {
  }

  /** Header dates that do not decode give no periods, whatever the rows say. */
  lemma BadDatesNoPeriods(text: string, threshold: int, nowYear: int, nowMonth: int, h: nat)
    requires text != [] && FindHeader(SplitLines(text)) == Some(h)
    requires DecodeDates(Tokens(Strip(SplitLines(text)[h])), BaseYear(SplitLines(text), nowYear), nowMonth).None?
    ensures Parse(text, threshold, nowYear, nowMonth) == []
  {
  }

  /** The cells of a row are its first three columns, in order. */
  lemma CellsInColumns(read: CellReader, values: seq<string>)
    requires |values| >= DayCount
    ensures Cells(read, values, DayCount) == read(values[0], 0) + read(values[1], 1) + read(values[2], 2)
  {
    assert Cells(read, values, 1) == read(values[0], 0);
    assert Cells(read, values, 2) == Cells(read, values, 1) + read(values[1], 1);
  }

  /**
   * Value `k` of a row is dated `dates[k]`: a value that does not parse is
   * passed over without moving the later ones to another day, and values
   * after the third are never read.
   */
  lemma CellsByColumn(values: seq<string>, dates: seq<Date>, hour: nat, threshold: int)
    requires |values| >= DayCount && |dates| == DayCount && ValidDates(dates)
    ensures Cells(RowReader(dates, hour, threshold), values, DayCount)
            == CellList(values[0], dates[0], hour, threshold)
               + CellList(values[1], dates[1], hour, threshold)
               + CellList(values[2], dates[2], hour, threshold)
  {
    var read := RowReader(dates, hour, threshold);
    CellsInColumns(read, values);
    assert read(values[0], 0) == CellList(values[0], dates[0], hour, threshold);
    assert read(values[1], 1) == CellList(values[1], dates[1], hour, threshold);
    assert read(values[2], 2) == CellList(values[2], dates[2], hour, threshold);
  }

  /**
   * A storm-level annotation such as "(G1)" printed after the second value
   * takes the third value's place: the third day gets nothing from the row
   * and the value after the annotation is never read.
   */
  lemma AnnotationTakesThirdColumn(values: seq<string>, dates: seq<Date>, hour: nat, threshold: int)
    requires |values| >= DayCount + 1 && |dates| == DayCount && ValidDates(dates)
    requires values[2] != [] && values[2][0] == '('
    ensures Cells(RowReader(dates, hour, threshold), values, DayCount)
            == CellList(values[0], dates[0], hour, threshold) + CellList(values[1], dates[1], hour, threshold)
  {
    CellsByColumn(values, dates, hour, threshold);
    NotANumber(values[2]);
    assert CellList(values[2], dates[2], hour, threshold) == [];
  }

  /** A row labelled with an hour of 24 or more gives nothing: `time(hour=...)` raises for every cell. */
  lemma LateHourNothing(values: seq<string>, dates: seq<Date>, hour: nat, threshold: int)
    requires |values| >= DayCount && |dates| == DayCount && ValidDates(dates) && hour >= 24
    ensures Cells(RowReader(dates, hour, threshold), values, DayCount) == []
  {
    CellsByColumn(values, dates, hour, threshold);
    assert CellList(values[0], dates[0], hour, threshold) == [];
    assert CellList(values[1], dates[1], hour, threshold) == [];
    assert CellList(values[2], dates[2], hour, threshold) == [];
  }

  /** A value equal to the threshold is reported: the comparison is `>=`. */
  lemma ThresholdInclusive(n: nat, date: Date, hour: nat)
    requires ValidDate(date) && hour < 24
    ensures CellPeriod(ShowNat(n), date, hour, n).Some?
  {
    KpValueOfNat(n);
  }

  /** A decimal value counts by its whole part: "4.67" is 4, below a threshold of 5. */
  lemma TruncatedValue(n: nat, frac: string, date: Date, hour: nat)
    requires ValidDate(date) && hour < 24 && AllDigits(frac)
    ensures CellPeriod(ShowNat(n) + "." + frac, date, hour, n + 1).None?
    ensures CellPeriod(ShowNat(n) + "." + frac, date, hour, n).Some?
  {
    KpValueOfDecimal(n, frac);
  }
}
