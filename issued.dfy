/**
 * The issuance-year scan at the top of `parse_forecast`: the first line that
 * starts with ":Issued:" and whose timestamp `strptime` accepts in one of the
 * two layouts gives the year; otherwise the current UTC year is used.
 */
module Issued {
  import opened Wrappers
  import opened Text
  import opened Calendar
  import opened Months

  const IssuedPrefix: string := ":Issued:"

  /** `%Y`: exactly four ASCII digits. */
  predicate IsYearField(t: string)
  {
    |t| == 4 && AllDigits(t)
  }

  /** `%d`: one or two digits naming a day 1..31 ("0" and "00" do not match). */
  predicate IsDayField(t: string)
  {
    1 <= |t| <= 2 && AllDigits(t) && 1 <= DigitsValue(t) <= 31
  }

  /** `%H`: `2[0-3]|[0-1]\d|\d`. */
  predicate IsHourField(t: string)
  {
    || (|t| == 1 && IsDigit(t[0]))
    || (|t| == 2 && '0' <= t[0] <= '1' && IsDigit(t[1]))
    || (|t| == 2 && t[0] == '2' && '0' <= t[1] <= '3')
  }

  /** `%M`: `[0-5]\d|\d`. */
  predicate IsMinuteField(t: string)
  {
    || (|t| == 1 && IsDigit(t[0]))
    || (|t| == 2 && '0' <= t[0] <= '5' && IsDigit(t[1]))
  }

  /** `%H%M` run together: some split of `t` is an hour followed by a minute. */
  predicate IsHourMinuteField(t: string)
  {
    || (|t| >= 2 && IsHourField(t[..1]) && IsMinuteField(t[1..]))
    || (|t| >= 3 && IsHourField(t[..2]) && IsMinuteField(t[2..]))
  }

  /**
   * The year of a timestamp given field by field, when every field has the
   * shape its directive accepts and the date exists (`strptime` raises
   * `ValueError` for 30 February or year 0).
   */
  function FieldsYear(year: string, month: string, day: string, hm: string): (r: Option<int>)
    ensures r.Some? ==> MinYear <= r.value <= MaxYear && IsYearField(year) && r.value == DigitsValue(year)
    ensures r.Some? ==> MonthNumber(month).Some? && IsDayField(day) && IsHourMinuteField(hm)
  {
    if IsYearField(year) && IsDayField(day) && IsHourMinuteField(hm) then
      match MonthNumber(month)
      case None => None
      case Some(m) =>
        if ValidDate(Date(DigitsValue(year), m, DigitsValue(day))) then Some(DigitsValue(year)) else None
    else None
  }

  /**
   * `strptime(s, "%Y %b %d %H%M")`, or when that raises,
   * `strptime(s, "%b %d %H%M %Y")`; the year of the layout that matches.
   * Whitespace between fields may be any run; around them it is left-over data.
   */
  function StampYear(s: string): (r: Option<int>)
    ensures r.Some? ==> MinYear <= r.value <= MaxYear
  {
    var ts := Tokens(s);
    if Strip(s) != s || |ts| != 4 then None
    else match FieldsYear(ts[0], ts[1], ts[2], ts[3])
      case Some(y) => Some(y)
      case None => FieldsYear(ts[3], ts[0], ts[1], ts[2])
  }

  /**
   * The year of one line, when it is an issuance line whose third
   * colon-separated field, stripped and cut at " UTC", is a timestamp.
   */
  function IssuedLineYear(line: string): (r: Option<int>)
    ensures r.Some? ==> IssuedPrefix <= line && MinYear <= r.value <= MaxYear
  {
    if !(IssuedPrefix <= line) then None
    else
      var parts := SplitOn(line, ':');
      if |parts| <= 2 then None
      else StampYear(BeforeFirst(Strip(parts[2]), " UTC"))
  }

  /** What `IssuedLineYear` makes of each line. */
  function LineYears(lines: seq<string>): (ys: seq<Option<int>>)
    ensures |ys| == |lines|
  {
    seq(|lines|, j requires 0 <= j < |lines| => IssuedLineYear(lines[j]))
  }

  /** The year of the first issuance line that parses. */
  function FirstIssuedYear(lines: seq<string>): Option<int>
  {
    FirstSome(LineYears(lines), 0)
  }

  /** The year the forecast dates start from: the issuance year, or `nowYear`. */
  function BaseYear(lines: seq<string>, nowYear: int): int
  {
    match FirstIssuedYear(lines)
    case Some(y) => y
    case None => nowYear
  }

  /**
   * The base year is the year of an issuance line that parses with every
   * earlier line failing to; it is `nowYear` exactly when no line parses.
   */
  lemma BaseYearIsFirstIssued(lines: seq<string>, nowYear: int)
    ensures FirstIssuedYear(lines).None? <==> forall j :: 0 <= j < |lines| ==> IssuedLineYear(lines[j]).None?
    ensures FirstIssuedYear(lines).None? ==> BaseYear(lines, nowYear) == nowYear
    ensures FirstIssuedYear(lines).Some? ==>
              exists j :: 0 <= j < |lines| && IssuedLineYear(lines[j]) == Some(BaseYear(lines, nowYear))
                          && forall k :: 0 <= k < j ==> IssuedLineYear(lines[k]).None?
  {
    var ys := LineYears(lines);
    FirstSomeIsFirst(ys, 0);
    assert forall j :: 0 <= j < |lines| ==> ys[j] == IssuedLineYear(lines[j]);
  }

  /**
   * The first layout, "<year> <mon> <day> <hhmm>" with any whitespace between
   * the fields, gives the year written in it.
   */
  lemma YearFirstLayout(s: string, y: string, mon: string, day: string, hm: string)
    requires Strip(s) == s && Tokens(s) == [y, mon, day, hm]
    requires IsYearField(y) && IsDayField(day) && IsHourMinuteField(hm) && MonthNumber(mon).Some?
    requires ValidDate(Date(DigitsValue(y), MonthNumber(mon).value, DigitsValue(day)))
    ensures StampYear(s) == Some(DigitsValue(y))
  {
  }

  /**
   * The second layout, "<mon> <day> <hhmm> <year>", is tried when the first
   * fails, and gives the year written last.
   */
  lemma YearLastLayout(s: string, mon: string, day: string, hm: string, y: string)
    requires Strip(s) == s && Tokens(s) == [mon, day, hm, y]
    requires IsYearField(y) && IsDayField(day) && IsHourMinuteField(hm) && MonthNumber(mon).Some?
    requires ValidDate(Date(DigitsValue(y), MonthNumber(mon).value, DigitsValue(day)))
    ensures StampYear(s) == Some(DigitsValue(y))
  {
    TokensAreWords(s);
    assert NoSpace(Tokens(s)[0]);
    MonthNameLength(mon);
  }

  /** A timestamp whose fields are joined by single spaces is stripped and splits back into them. */
  lemma JoinedStamp(ws: seq<string>)
    requires |ws| == 4
    requires forall k :: 0 <= k < 4 ==> ws[k] != [] && (AllDigits(ws[k]) || NoSpace(ws[k]))
    ensures Strip(JoinWords(ws)) == JoinWords(ws) && Tokens(JoinWords(ws)) == ws
  {
    FieldsAreWords(ws);
    TokensJoinWords(ws);
    JoinWordsStripped(ws);
  }

  /** The hour and minute fields are made of digits only. */
  lemma HourMinuteDigits(t: string)
    requires IsHourMinuteField(t)
    ensures AllDigits(t)
  {
    var k := if |t| >= 2 && IsHourField(t[..1]) && IsMinuteField(t[1..]) then 1 else 2;
    assert AllDigits(t[..k]) && AllDigits(t[k..]);
    assert t == t[..k] + t[k..];
  }

  /**
   * A timestamp written in the first layout with single spaces, such as
   * "2025 Oct 18 0030", gives the year written in it.
   */
  lemma WrittenStampYear(y: string, mon: string, day: string, hm: string)
    requires IsYearField(y) && IsDayField(day) && IsHourMinuteField(hm)
    requires mon != [] && NoSpace(mon) && MonthNumber(mon).Some?
    requires ValidDate(Date(DigitsValue(y), MonthNumber(mon).value, DigitsValue(day)))
    ensures StampYear(JoinWords([y, mon, day, hm])) == Some(DigitsValue(y))
  {
    HourMinuteDigits(hm);
    var ws := [y, mon, day, hm];
    JoinedStamp(ws);
    YearFirstLayout(JoinWords(ws), y, mon, day, hm);
  }

  /** Month names are three letters long, so never a four-digit year. */
  lemma MonthNameLength(mon: string)
    requires NoSpace(mon) && MonthNumber(mon).Some?
    ensures |mon| == 3
  {
    StripSpec(mon);
    MonthNumberSpec(mon, MonthNumber(mon).value);
    AbbreviationLength(MonthNumber(mon).value - 1);
    assert |AsciiLower(mon)| == |mon|;
  }

  lemma FieldsAreWords(ws: seq<string>)
    requires |ws| == 4
    requires forall k :: 0 <= k < 4 ==> ws[k] != [] && (AllDigits(ws[k]) || NoSpace(ws[k]))
    ensures Words(ws)
  {
    forall k | 0 <= k < 4 ensures ws[k] != [] && NoSpace(ws[k]) {
      if AllDigits(ws[k]) {
        assert forall i :: 0 <= i < |ws[k]| ==> IsDigit(ws[k][i]);
      }
    }
  }

  /**
   * The loop at the top of `parse_forecast`: stops at the first issuance line
   * that yields a year, and otherwise keeps the current year.
   */
  method ScanIssuedYear(lines: seq<string>, nowYear: int) returns (year: int, found: bool)
    ensures found == FirstIssuedYear(lines).Some?
    ensures year == BaseYear(lines, nowYear)
  {
    year, found := nowYear, false;
    for i := 0 to |lines|
      invariant !found && year == nowYear
      invariant FirstIssuedYear(lines) == FirstSome(LineYears(lines), i)
    {
      var line := lines[i];
      if IssuedPrefix <= line {
        var parts := SplitOn(line, ':');
        if |parts| > 2 {
          var stamp := BeforeFirst(Strip(parts[2]), " UTC");
          var y := StampYear(stamp);
          assert y == LineYears(lines)[i];
          if y.Some? {
            year, found := y.value, true;
            break;
          }
        }
      }
    }
  }
}
