/**
 * `parse_forecast`: reads the SWPC three-day forecast text and returns the
 * three-hour periods whose Kp value reaches the threshold.
 *
 * The model keeps the source's four phases: the issuance-year scan
 * (module Issued), the search for the date header under the
 * "NOAA Kp index breakdown" marker, the decoding of the three dates, and the
 * walk over the table rows. Each phase is a method with the source's loops,
 * proved equal to a function that says what it computes; `ParseForecast`
 * chains them and is proved equal to `Parse`.
 */
module Forecast {
  import opened Wrappers
  import opened Text
  import opened Calendar
  import opened Months
  import opened Issued
  import opened Kp

  const BreakdownMarker: string := "NOAA Kp index breakdown"

  /** The number of forecast days, and so of Kp columns read per row. */
  const DayCount: nat := 3

  /** A high-activity window: its UTC start, the start plus three hours, and the Kp value. */
  datatype Period = Period(start: Instant, end: Instant, kp: int)

  // ---------------------------------------------------------------------------
  // The date header

  /** A stripped line that can head the table: three or more tokens, a month name first. */
  predicate IsDateHeader(p: string)
  {
    var ts := Tokens(p);
    |ts| >= 3 && MonthNumber(ts[0]).Some?
  }

  /** What the header search sees in a line once stripped. */
  datatype LineKind = Blank | Header | Other

  function Classify(line: string): (k: LineKind)
  {
    var p := Strip(line);
    if p == [] then Blank else if IsDateHeader(p) then Header else Other
  }

  /** A line is blank when it strips to nothing, and a header when it strips to a date header. */
  lemma ClassifySpec(line: string)
    ensures Classify(line) == Blank <==> Strip(line) == []
    ensures Classify(line) == Header <==> IsDateHeader(Strip(line))
  {
    assert Tokens([]) == [];
  }

  /** The kind of every line, in order. */
  function Kinds(lines: seq<string>): (ks: seq<LineKind>)
    ensures |ks| == |lines|
  {
    if lines == [] then [] else Kinds(lines[..|lines| - 1]) + [Classify(lines[|lines| - 1])]
  }

  lemma {:induction false} KindAt(lines: seq<string>, j: nat)
    requires j < |lines|
    ensures Kinds(lines)[j] == Classify(lines[j])
  {
    if j < |lines| - 1 {
      KindAt(lines[..|lines| - 1], j);
    }
  }

  /** Which lines hold the marker text. */
  function Markers(lines: seq<string>): (ms: seq<bool>)
    ensures |ms| == |lines|
  {
    seq(|lines|, j requires 0 <= j < |lines| => Contains(lines[j], BreakdownMarker))
  }

  /**
   * The header found from marker line `i`, looking at the lines `off` to 3
   * after it: blank lines are passed over, and the first other line either
   * is the header or ends the search.
   */
  function HeaderAfter(ks: seq<LineKind>, i: nat, off: nat): (r: Option<nat>)
    requires 1 <= off <= 4
    ensures r.Some? ==> i + off <= r.value <= i + 3 && r.value < |ks| && ks[r.value] == Header
    decreases 4 - off
  {
    if off == 4 || i + off >= |ks| then None
    else if ks[i + off] == Blank then HeaderAfter(ks, i, off + 1)
    else if ks[i + off] == Header then Some(i + off)
    else None
  }

  /**
   * `HeaderAfter` finds line `h` exactly when `h` is within three lines of
   * the marker, every line between is blank, and `h` is a date header.
   */
  lemma {:induction false} HeaderAfterSpec(ks: seq<LineKind>, i: nat, off: nat, h: nat)
    requires 1 <= off <= 4
    ensures HeaderAfter(ks, i, off) == Some(h) <==>
              i + off <= h <= i + 3 && h < |ks| && ks[h] == Header
              && forall j :: i + off <= j < h ==> ks[j] == Blank
    decreases 4 - off
  {
    if off < 4 && i + off < |ks| {
      HeaderAfterSpec(ks, i, off + 1, h);
    }
  }

  /** For each line: the header it leads to, when it holds the marker and one follows. */
  function HeaderCandidates(ms: seq<bool>, ks: seq<LineKind>): (cs: seq<Option<nat>>)
    requires |ms| == |ks|
    ensures |cs| == |ks|
  {
    seq(|ks|, i requires 0 <= i < |ks| => if ms[i] then HeaderAfter(ks, i, 1) else None)
  }

  /** The index of the date header: the one reached from the first marker line that has one. */
  function FindHeader(lines: seq<string>): (r: Option<nat>)
    ensures r.Some? ==> r.value < |lines| && Kinds(lines)[r.value] == Header
  {
    var cs := HeaderCandidates(Markers(lines), Kinds(lines));
    FirstSomeIsFirst(cs, 0);
    FirstSome(cs, 0)
  }

  /**
   * The header is the one reached from a marker line such that no earlier
   * marker line reaches one; with no such marker line there is none.
   */
  lemma FindHeaderSpec(lines: seq<string>)
    ensures FindHeader(lines).None? <==>
              forall m :: 0 <= m < |lines| && Markers(lines)[m] ==> HeaderAfter(Kinds(lines), m, 1).None?
    ensures FindHeader(lines).Some? ==>
              exists m :: 0 <= m < |lines| && Markers(lines)[m]
                          && HeaderAfter(Kinds(lines), m, 1) == FindHeader(lines)
                          && forall k :: 0 <= k < m && Markers(lines)[k] ==> HeaderAfter(Kinds(lines), k, 1).None?
  {
    var ms, ks := Markers(lines), Kinds(lines);
    var cs := HeaderCandidates(ms, ks);
    FirstSomeIsFirst(cs, 0);
    if FindHeader(lines).Some? {
      var m :| 0 <= m < |cs| && cs[m] == FirstSome(cs, 0) && forall k :: 0 <= k < m ==> cs[k].None?;
      assert ms[m];
      forall k | 0 <= k < m && ms[k] ensures HeaderAfter(ks, k, 1).None? {
        assert cs[k].None?;
      }
    } else {
      forall m | 0 <= m < |lines| && ms[m] ensures HeaderAfter(ks, m, 1).None? {
        assert cs[m].None?;
      }
    }
  }

  /** Text without the marker has no header. */
  lemma NoMarkerNoHeader(lines: seq<string>)
    requires forall m :: 0 <= m < |lines| ==> !Contains(lines[m], BreakdownMarker)
    ensures FindHeader(lines) == None
  {
    FindHeaderSpec(lines);
  }

  /** A blank line within reach is passed over. */
  lemma PassBlank(ks: seq<LineKind>, i: nat, off: nat)
    requires 1 <= off <= 3 && i + off < |ks| && ks[i + off] == Blank
    ensures HeaderAfter(ks, i, off) == HeaderAfter(ks, i, off + 1)
  {
  }

  /** The first line within reach that is not blank decides the search. */
  lemma StopAt(ks: seq<LineKind>, i: nat, off: nat)
    requires 1 <= off <= 3 && i + off < |ks| && ks[i + off] != Blank
    ensures HeaderAfter(ks, i, off) == if ks[i + off] == Header then Some(i + off) else None
  {
  }

  /**
   * The header search of `parse_forecast`: for each marker line, up to three
   * following lines; -1 when no header is found.
   */
  method FindDateHeader(lines: seq<string>) returns (h: int, raw: seq<string>)
    ensures h == -1 <==> FindHeader(lines).None?
    ensures h != -1 ==> h == FindHeader(lines).value && raw == Tokens(Strip(lines[h]))
  {
    ghost var ms, ks := Markers(lines), Kinds(lines);
    ghost var cs := HeaderCandidates(ms, ks);
    h, raw := -1, [];
    for i := 0 to |lines|
      invariant h == -1
      invariant FindHeader(lines) == FirstSome(cs, i)
    {
      if Contains(lines[i], BreakdownMarker) {
        assert cs[i] == HeaderAfter(ks, i, 1);
        h, raw := HeaderBelow(lines, i);
        if h != -1 {
          return;
        }
      }
      assert cs[i].None?;
    }
  }

  /**
   * The inner loop of the header search, from marker line `i`: blank lines
   * are passed over and the first other line is the header or ends the search.
   */
  method HeaderBelow(lines: seq<string>, i: nat) returns (h: int, raw: seq<string>)
    requires i < |lines|
    ensures h == -1 <==> HeaderAfter(Kinds(lines), i, 1).None?
    ensures h != -1 ==> h == HeaderAfter(Kinds(lines), i, 1).value && raw == Tokens(Strip(lines[h]))
  {
    ghost var ks := Kinds(lines);
    h, raw := -1, [];
    for off := 1 to 4
      invariant h == -1
      invariant HeaderAfter(ks, i, 1) == HeaderAfter(ks, i, off)
    {
      var idx := i + off;
      if idx >= |lines| {
        return;
      }
      var p := Strip(lines[idx]);
      if p == [] {
        KindAt(lines, idx);
        PassBlank(ks, i, off);
        continue;
      }
      var parts := Tokens(p);
      KindAt(lines, idx);
      StopAt(ks, i, off);
      if |parts| >= 3 && MonthNumber(parts[0]).Some? {
        h, raw := idx, parts;
      }
      return;
    }
  }

  // ---------------------------------------------------------------------------
  // The forecast dates

  /**
   * The year given to a forecast month: the base year, or the next one for a
   * January date read while the current UTC month is December.
   */
  function ForecastYear(base: int, nowMonth: int, month: int): int
  {
    if nowMonth == 12 && month == 1 then base + 1 else base
  }

  /**
   * One month/day pair of the header, as `date(year, month, day)` builds it;
   * `None` for the errors the parser catches. A day of 2147483648 or more also
   * gives `None`, where `date` raises an `OverflowError` the parser does not catch.
   */
  function PairDate(monthTok: string, dayTok: string, base: int, nowMonth: int): (r: Option<Date>)
    ensures r.Some? ==> ValidDate(r.value) && MonthNumber(monthTok) == Some(r.value.month) && IsDigits(dayTok)
  {
    match MonthNumber(monthTok)
    case None => None
    case Some(m) =>
      if IsDigits(dayTok) then MakeDate(ForecastYear(base, nowMonth, m), m, DigitsValue(dayTok)) else None
  }

  /**
   * A pair decodes to a date exactly when its first token is a month name,
   * its second is all digits, and that day exists in that month of the
   * forecast year. The issuance month takes no part.
   */
  lemma PairDateSpec(monthTok: string, dayTok: string, base: int, nowMonth: int, d: Date)
    ensures PairDate(monthTok, dayTok, base, nowMonth) == Some(d) <==>
              MonthNumber(monthTok) == Some(d.month) && IsDigits(dayTok) && DigitsValue(dayTok) == d.day
              && d.year == (if nowMonth == 12 && d.month == 1 then base + 1 else base) && ValidDate(d)
  {
  }

  /** A reader of one month/day pair of header tokens. */
  type PairReader = (string, string) -> Option<Date>

  /** `PairDate` with the year and month it depends on fixed. */
  function HeaderPair(base: int, nowMonth: int): (read: PairReader)
  {
    (monthTok: string, dayTok: string) => PairDate(monthTok, dayTok, base, nowMonth)
  }

  /**
   * The first `n` month/day pairs of the header tokens, each read by `read`,
   * in order; `None` as soon as one of them fails.
   */
  function DecodedPairs(read: PairReader, raw: seq<string>, n: nat): (r: Option<seq<Date>>)
    requires 2 * n <= |raw|
    ensures r.Some? ==> |r.value| == n
  {
    if n == 0 then Some([])
    else
      match DecodedPairs(read, raw, n - 1)
      case None => None
      case Some(ds) =>
        match read(raw[2 * n - 2], raw[2 * n - 1])
        case None => None
        case Some(d) => Some(ds + [d])
  }

  /** The three forecast dates of the header tokens; `None` where `parse_forecast` gives up. */
  function DecodeDates(raw: seq<string>, base: int, nowMonth: int): (r: Option<seq<Date>>)
    ensures r.Some? ==> |r.value| == DayCount
  {
    if |raw| < 2 * DayCount then None else DecodedPairs(HeaderPair(base, nowMonth), raw, DayCount)
  }

  /** One more pair read successfully extends the dates by its date. */
  lemma PairsStep(read: PairReader, raw: seq<string>, n: nat, ds: seq<Date>, d: Date)
    requires 2 * n + 2 <= |raw| && DecodedPairs(read, raw, n) == Some(ds)
    requires read(raw[2 * n], raw[2 * n + 1]) == Some(d)
    ensures DecodedPairs(read, raw, n + 1) == Some(ds + [d])
  {
    assert n + 1 - 1 == n && 2 * (n + 1) - 2 == 2 * n && 2 * (n + 1) - 1 == 2 * n + 1;
  }

  /**
   * The pairs decode to `ds` exactly when there are `n` of them and date `k`
   * is what pair `k` (tokens `2k` and `2k + 1`) reads as.
   */
  lemma {:induction false} DecodedPairsSpec(read: PairReader, raw: seq<string>, n: nat, ds: seq<Date>)
    requires 2 * n <= |raw|
    ensures DecodedPairs(read, raw, n) == Some(ds) <==>
              |ds| == n && forall k :: 0 <= k < n ==> read(raw[2 * k], raw[2 * k + 1]) == Some(ds[k])
  {
    if n > 0 {
      var m := n - 1;
      assert 2 * n - 2 == 2 * m && 2 * n - 1 == 2 * m + 1;
      if |ds| == n {
        DecodedPairsSpec(read, raw, m, ds[..m]);
        assert ds == ds[..m] + [ds[m]];
        if DecodedPairs(read, raw, n) == Some(ds) {
          assert DecodedPairs(read, raw, m) == Some(ds[..m]);
        }
      } else if DecodedPairs(read, raw, n).Some? {
        assert |DecodedPairs(read, raw, n).value| == n;
      }
    }
  }

  /** A failed pair stays failed however many further pairs are read. */
  lemma {:induction false} FailureStays(read: PairReader, raw: seq<string>, n: nat, m: nat)
    requires n <= m && 2 * m <= |raw| && DecodedPairs(read, raw, n).None?
    ensures DecodedPairs(read, raw, m).None?
    decreases m - n
  {
    if n < m {
      FailureStays(read, raw, n, m - 1);
    }
  }

  /** Pairs decoded from a prefix of the tokens do not see the rest. */
  lemma {:induction false} DecodedPairsPrefix(read: PairReader, raw: seq<string>, extra: seq<string>, n: nat)
    requires 2 * n <= |raw|
    ensures DecodedPairs(read, raw + extra, n) == DecodedPairs(read, raw, n)
  {
    if n > 0 {
      DecodedPairsPrefix(read, raw, extra, n - 1);
      assert (raw + extra)[2 * n - 2] == raw[2 * n - 2] && (raw + extra)[2 * n - 1] == raw[2 * n - 1];
    }
  }

  /**
   * The header yields dates exactly when it has six tokens or more and date
   * `k` is what the `k`-th month/day pair decodes to; nothing requires the
   * dates to be consecutive or even in order.
   */
  lemma DecodeDatesSpec(raw: seq<string>, base: int, nowMonth: int, ds: seq<Date>)
    ensures DecodeDates(raw, base, nowMonth) == Some(ds) <==>
              |raw| >= 2 * DayCount && |ds| == DayCount
              && forall k :: 0 <= k < DayCount ==> PairDate(raw[2 * k], raw[2 * k + 1], base, nowMonth) == Some(ds[k])
  {
    if |raw| >= 2 * DayCount {
      DecodedPairsSpec(HeaderPair(base, nowMonth), raw, DayCount, ds);
    }
  }

  /** Every decoded date is one `datetime.date` accepts. */
  lemma DecodedDatesValid(raw: seq<string>, base: int, nowMonth: int)
    ensures DecodeDates(raw, base, nowMonth).Some? ==> ValidDates(DecodeDates(raw, base, nowMonth).value)
  {
    var r := DecodeDates(raw, base, nowMonth);
    if r.Some? {
      DecodeDatesSpec(raw, base, nowMonth, r.value);
      forall k | 0 <= k < |r.value|
        ensures ValidDate(r.value[k])
      {
        PairDateSpec(raw[2 * k], raw[2 * k + 1], base, nowMonth, r.value[k]);
      }
    }
  }

  /** Tokens after the third pair make no difference. */
  lemma DecodeDatesIgnoresTail(raw: seq<string>, extra: seq<string>, base: int, nowMonth: int)
    requires |raw| >= 2 * DayCount
    ensures DecodeDates(raw + extra, base, nowMonth) == DecodeDates(raw, base, nowMonth)
  {
    DecodedPairsPrefix(HeaderPair(base, nowMonth), raw, extra, DayCount);
  }

  /**
   * One turn of the date loop: the month at `idx`, then the day after it,
   * then `date(year, month, day)`.
   */
  method ReadPair(raw: seq<string>, idx: nat, base: int, nowMonth: int) returns (d: Option<Date>)
    requires idx < |raw|
    ensures d == if idx + 1 < |raw| then PairDate(raw[idx], raw[idx + 1], base, nowMonth) else None
  {
    var month := MonthNumber(raw[idx]);
    if month.None? {
      return None;
    }
    if !(idx + 1 < |raw| && IsDigits(raw[idx + 1])) {
      return None;
    }
    var day := DigitsValue(raw[idx + 1]);
    var year := base;
    if nowMonth == 12 && month.value == 1 {
      year := base + 1;
    }
    d := MakeDate(year, month.value, day);
  }

  /**
   * The date loop of `parse_forecast`: month/day pairs until three dates are
   * built or the tokens run out; any failure abandons the parse.
   */
  method DecodeDateHeader(raw: seq<string>, base: int, nowMonth: int) returns (dates: Option<seq<Date>>)
    ensures dates == DecodeDates(raw, base, nowMonth)
  {
    ghost var read := HeaderPair(base, nowMonth);
    var parsed: seq<Date> := [];
    var idx := 0;
    while idx < |raw| && |parsed| < DayCount
      invariant idx == 2 * |parsed| <= |raw|
      invariant |parsed| <= DayCount
      invariant DecodedPairs(read, raw, |parsed|) == Some(parsed)
      decreases |raw| - idx
    {
      ghost var n := |parsed|;
      assert idx == 2 * n;
      var d := ReadPair(raw, idx, base, nowMonth);
      if d.None? {
        PairFails(read, raw, n);
        return None;
      }
      PairsStep(read, raw, n, parsed, d.value);
      idx := idx + 2;
      parsed := parsed + [d.value];
      assert |parsed| == n + 1;
    }
    if |parsed| != DayCount {
      assert |raw| < 2 * DayCount;
      return None;
    }
    return Some(parsed);
  }

  /** Pair `n` (one of the first three) failing, or being cut short, leaves no dates. */
  lemma PairFails(read: PairReader, raw: seq<string>, n: nat)
    requires n < DayCount && 2 * n < |raw|
    requires DecodedPairs(read, raw, n).Some?
    requires 2 * n + 1 >= |raw| || read(raw[2 * n], raw[2 * n + 1]).None?
    ensures 2 * DayCount <= |raw| ==> DecodedPairs(read, raw, DayCount).None?
  {
    if |raw| >= 2 * DayCount {
      assert 2 * (n + 1) - 2 == 2 * n && 2 * (n + 1) - 1 == 2 * n + 1;
      FailureStays(read, raw, n + 1, DayCount);
    }
  }

  // ---------------------------------------------------------------------------
  // The table rows

  /** `re.match(r"\d{2}-\d{2}UT", line)`: the line starts with a period label such as "00-03UT". */
  predicate IsRowLabel(line: string)
  {
    && |line| >= 7
    && IsDigit(line[0]) && IsDigit(line[1]) && line[2] == '-'
    && IsDigit(line[3]) && IsDigit(line[4]) && line[5] == 'U' && line[6] == 'T'
  }

  /** The first token of a labelled line starts with the label's two hour digits. */
  lemma RowLabelToken(l: string)
    requires IsRowLabel(l)
    ensures |Tokens(l)| >= 1 && |Tokens(l)[0]| >= 2 && Tokens(l)[0][..2] == l[..2] && AllDigits(l[..2])
  {
    assert forall i :: 0 <= i < 7 ==> !IsSpace(l[..7][i]);
    FirstTokenStarts(l, 7);
    assert Tokens(l)[0][..7][..2] == Tokens(l)[0][..2];
    assert l[..7][..2] == l[..2];
  }

  /**
   * One Kp cell: a period when the value parses, reaches the threshold and
   * the label's hour is a real hour (`time(hour=...)` raises otherwise, and
   * the cell is skipped).
   */
  function CellPeriod(tok: string, date: Date, hour: nat, threshold: int): (r: Option<Period>)
    requires ValidDate(date)
    ensures r.Some? ==> KpValue(tok) == Some(r.value.kp) && r.value.kp >= threshold
                        && ValidInstant(r.value.start) && r.value.start.date == date
  {
    match KpValue(tok)
    case None => None
    case Some(kp) =>
      if kp >= threshold && hour < 24 then
        var start := Instant(date, hour);
        Some(Period(start, AddThreeHours(start), kp))
      else None
  }

  predicate ValidDates(dates: seq<Date>)
  {
    forall k :: 0 <= k < |dates| ==> ValidDate(dates[k])
  }

  /** The period of one cell as a list of zero or one. */
  function CellList(tok: string, date: Date, hour: nat, threshold: int): seq<Period>
    requires ValidDate(date)
  {
    match CellPeriod(tok, date, hour, threshold)
    case None => []
    case Some(p) => [p]
  }

  /** A reader of the cell in a given column of a row. */
  type CellReader = (string, nat) -> seq<Period>

  /** The cells of a row whose label gives `hour`: column `k` is dated `dates[k]`. */
  function RowReader(dates: seq<Date>, hour: nat, threshold: int): CellReader
    requires ValidDates(dates)
  {
    (tok: string, k: nat) => if k < |dates| then CellList(tok, dates[k], hour, threshold) else []
  }

  /** The periods of the first `n` cells of a row, in column order, each read by `read`. */
  function Cells(read: CellReader, values: seq<string>, n: nat): seq<Period>
    requires n <= |values|
  {
    if n == 0 then [] else Cells(read, values, n - 1) + read(values[n - 1], n - 1)
  }

  /**
   * The periods of one line below the header: nothing unless it is a
   * labelled row with a value for every day; then one period per value that
   * reaches the threshold, taken from the first three values in order.
   */
  function RowPeriods(line: string, dates: seq<Date>, threshold: int): seq<Period>
    requires |dates| == DayCount && ValidDates(dates)
  {
    var l := Strip(line);
    if l == [] || !IsRowLabel(l) then []
    else
      var parts := Tokens(l);
      if |parts| < DayCount + 1 then []
      else
        RowLabelToken(l);
        Cells(RowReader(dates, DigitsValue(parts[0][..2]), threshold), parts[1..], DayCount)
  }

  /** The periods of the lines `lo` up to `hi`, in line order. */
  function RowsBetween(lines: seq<string>, lo: nat, hi: nat, dates: seq<Date>, threshold: int): seq<Period>
    requires lo <= hi <= |lines| && |dates| == DayCount && ValidDates(dates)
    decreases hi - lo
  {
    if hi == lo then [] else RowsBetween(lines, lo, hi - 1, dates, threshold) + RowPeriods(lines[hi - 1], dates, threshold)
  }

  /** What `parse_forecast` returns, with the current UTC year and month as inputs. */
  function Parse(text: string, threshold: int, nowYear: int, nowMonth: int): seq<Period>
  {
    if text == [] then []
    else
      var lines := SplitLines(text);
      match FindHeader(lines)
      case None => []
      case Some(h) =>
        var raw := Tokens(Strip(lines[h]));
        var base := BaseYear(lines, nowYear);
        match DecodeDates(raw, base, nowMonth)
        case None => []
        case Some(ds) =>
          DecodedDatesValid(raw, base, nowMonth);
          RowsBetween(lines, h + 1, |lines|, ds, threshold)
  }

  /** A line that is not a labelled row with a value for every day gives nothing. */
  lemma RowSkipped(line: string, dates: seq<Date>, threshold: int)
    requires |dates| == DayCount && ValidDates(dates)
    requires var l := Strip(line); l == [] || !IsRowLabel(l) || |Tokens(l)| < DayCount + 1
    ensures RowPeriods(line, dates, threshold) == []
  {
  }

  /** A labelled row with a value for every day gives the periods of its first three cells. */
  lemma RowRead(line: string, dates: seq<Date>, threshold: int)
    requires |dates| == DayCount && ValidDates(dates)
    requires var l := Strip(line); l != [] && IsRowLabel(l) && |Tokens(l)| >= DayCount + 1
    ensures var parts := Tokens(Strip(line));
            |parts[0]| >= 2 && AllDigits(parts[0][..2])
            && RowPeriods(line, dates, threshold) == Cells(RowReader(dates, DigitsValue(parts[0][..2]), threshold), parts[1..], DayCount)
  {
    RowLabelToken(Strip(line));
  }

  /**
   * The cell loop of `parse_forecast` for one row: the values in order, one
   * per forecast day, each kept as a period when it parses, reaches the
   * threshold and the hour is a real one.
   */
  method RowCells(values: seq<string>, dates: seq<Date>, hour: nat, threshold: int) returns (cells: seq<Period>)
    requires |values| >= |dates| && |dates| == DayCount && ValidDates(dates)
    ensures cells == Cells(RowReader(dates, hour, threshold), values, DayCount)
  {
    ghost var read := RowReader(dates, hour, threshold);
    cells := [];
    var i := 0;
    while i < |values|
      invariant i <= |dates|
      invariant cells == Cells(read, values, i)
    {
      if i >= |dates| {
        break;
      }
      CellsStep(read, values, i);
      assert read(values[i], i) == CellList(values[i], dates[i], hour, threshold);
      var cell := CellPeriod(values[i], dates[i], hour, threshold);
      if cell.Some? {
        cells := cells + [cell.value];
      }
      i := i + 1;
    }
    assert i == DayCount;
  }

  lemma CellsStep(read: CellReader, values: seq<string>, n: nat)
    requires n < |values|
    ensures Cells(read, values, n + 1) == Cells(read, values, n) + read(values[n], n)
  {
    assert n + 1 - 1 == n;
  }

  /**
   * The row loop of `parse_forecast`: every line after the header, and in
   * each labelled row the first three Kp values.
   */
  method CollectRows(lines: seq<string>, h: nat, dates: seq<Date>, threshold: int) returns (periods: seq<Period>)
    requires h < |lines| && |dates| == DayCount && ValidDates(dates)
    ensures periods == RowsBetween(lines, h + 1, |lines|, dates, threshold)
  {
    periods := [];
    for n := h + 1 to |lines|
      invariant periods == RowsBetween(lines, h + 1, n, dates, threshold)
    {
      RowsStep(lines, h + 1, n, dates, threshold);
      var cells := LineCells(lines[n], dates, threshold);
      periods := periods + cells;
    }
  }

  /**
   * The body of the row loop for one line: skipped unless it is a labelled
   * row with a value for every day, otherwise its cells in order.
   */
  method LineCells(text: string, dates: seq<Date>, threshold: int) returns (cells: seq<Period>)
    requires |dates| == DayCount && ValidDates(dates)
    ensures cells == RowPeriods(text, dates, threshold)
  {
    var line := Strip(text);
    if line == [] || !IsRowLabel(line) {
      RowSkipped(text, dates, threshold);
      return [];
    }
    var parts := Tokens(line);
    RowLabelToken(line);
    var values := parts[1..];
    if |values| < |dates| {
      RowSkipped(text, dates, threshold);
      return [];
    }
    RowRead(text, dates, threshold);
    var timeLabel := parts[0];
    var hour := DigitsValue(timeLabel[..2]);
    cells := RowCells(values, dates, hour, threshold);
  }

  lemma RowsStep(lines: seq<string>, lo: nat, hi: nat, dates: seq<Date>, threshold: int)
    requires lo <= hi < |lines| && |dates| == DayCount && ValidDates(dates)
    ensures RowsBetween(lines, lo, hi + 1, dates, threshold) == RowsBetween(lines, lo, hi, dates, threshold) + RowPeriods(lines[hi], dates, threshold)
  {
  }

  /** When the header and its dates are found, the result is the periods of the rows below it. */
  lemma ParseRead(text: string, threshold: int, nowYear: int, nowMonth: int, h: nat, ds: seq<Date>)
    requires text != [] && FindHeader(SplitLines(text)) == Some(h)
    requires DecodeDates(Tokens(Strip(SplitLines(text)[h])), BaseYear(SplitLines(text), nowYear), nowMonth) == Some(ds)
    ensures ValidDates(ds)
    ensures Parse(text, threshold, nowYear, nowMonth) == RowsBetween(SplitLines(text), h + 1, |SplitLines(text)|, ds, threshold)
  {
    var lines := SplitLines(text);
    var raw := Tokens(Strip(lines[h]));
    var base := BaseYear(lines, nowYear);
    DecodedDatesValid(raw, base, nowMonth);
    var rows := RowsBetween(lines, h + 1, |lines|, ds, threshold);
    assert Parse(text, threshold, nowYear, nowMonth) == rows;
  }

  /** `parse_forecast`, phase by phase. */
  method ParseForecast(text: string, threshold: int, nowYear: int, nowMonth: int) returns (periods: seq<Period>)
    ensures periods == Parse(text, threshold, nowYear, nowMonth)
  {
    periods := [];
    if text == [] {
      return;
    }
    var lines := SplitLines(text);
    var year, found := ScanIssuedYear(lines, nowYear);
    var h, raw := FindDateHeader(lines);
    if h == -1 {
      return;
    }
    var dates := DecodeDateHeader(raw, year, nowMonth);
    if dates.None? {
      return;
    }
    DecodedDatesValid(raw, year, nowMonth);
    periods := CollectRows(lines, h, dates.value, threshold);
    ParseRead(text, threshold, nowYear, nowMonth, h, dates.value);
  }
}
