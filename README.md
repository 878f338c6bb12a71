# aurora-alert: the forecast parser and the alert decisions, in Dafny

aurora-alert fetches the three-day geomagnetic forecast that NOAA's Space
Weather Prediction Center publishes as plain text. It picks out the
three-hour windows whose Kp index reaches a threshold, and it mails a list of
them. This project models the parts of that program that compute and decide:

- **`parse_forecast`** (modules `Issued`, `Forecast`, `Kp`, `Calendar`, `Months`, `Text`).
  - The bulletin text is split into lines.
  - The year of the first parseable `:Issued:` line is taken as the base year.
  - The date header is searched for in the first non-blank line within three
    lines below a "NOAA Kp index breakdown" marker.
  - Three (month, day) pairs are decoded. A January date gets the next year
    when the current UTC month is December.
  - Every row labelled `NN-NNUT` below the header gives one period per value
    among its first three values that reaches the threshold. A value counts as
    `int(float(value))`, which truncates toward zero. Each period runs from the
    label's hour on that column's date to three hours later.
  - Each phase is a method with the source's loops. Each is proved equal to a
    function that says what it computes. The properties are lemmas about
    those functions.
- **`month_str_to_int`** (module `Months`): the twelve English month
  abbreviations, matched case-insensitively after stripping.
- **`get_clean_env`** (module `Env`): an environment lookup with a default. A
  string value is cut at the first `#`, then whitespace is stripped, then
  quotes are stripped.
- **`send_email_alert`**, up to the message text (module `Alert`):
  - nothing is sent for an empty list;
  - the SMTP envelope is `sorted(set([sender] + bcc))`, where the Bcc list is
    the non-empty stripped comma-separated entries;
  - the subject carries the largest Kp;
  - the periods are sorted in place, stably, by start;
  - the body lists the periods in that order.
  The sort is an in-place insertion sort on an `array`. It is proved equal to
  a functional stable sort, and that sort is proved sorted, a permutation and
  order-preserving among equal starts.

The current UTC year and month and the Kp threshold are parameters. All
instants are kept in UTC.

`script.py` carries the same `parse_forecast`, `month_str_to_int` and
`send_email_alert` as `aurora.py`, forty lines earlier. The only differences
are `print` calls in place of `logging`. For example, aurora.py:117-227 is
script.py:77-187, and aurora.py:229-260 is script.py:189-220. The table cites
`aurora.py` except in a few rows, and every such row holds for both files.

The model follows the code as written; note that:

- The year rollover looks at the current UTC month (aurora.py:190), not at the
  month of issuance.
- The three header dates are not checked to be in chronological order.
- `parse_forecast` returns the periods in row-then-column order. Only
  `send_email_alert` sorts them.
- Values are assigned to days by token position. A storm-level annotation such
  as "(G1)" written among the values therefore takes a day's column (lemma
  `ForecastFacts.AnnotationTakesThirdColumn`).

## Model

| member | source | states |
|---|---|---|
| `Forecast.Parse` | aurora.py:117-227 | the reference definition of `parse_forecast`: empty text, a missing header or undecodable dates give nothing, otherwise the periods of the rows after the header; its properties are the `ForecastFacts` lemmas |
| `Forecast.RowsBetween` | aurora.py:200-226 | the periods of a range of lines, line by line in order |
| `Forecast.RowPeriods` | aurora.py:201-215 | a line gives nothing unless it is an `NN-NNUT` row with a value for every day; then the periods of its first three values, read with the label's hour |
| `Forecast.Cells` | aurora.py:213-215 | the periods of the first n values of a row, in column order, value k read as column k |
| `Forecast.CellPeriod` | aurora.py:216-224 | a cell's period, when there is one, reaches the threshold, starts at a valid hour of the cell's own date, and carries the value `int(float(tok))` of the cell |
| `Kp.KpValue` | aurora.py:217 | `int(float(tok))`: a value only for a non-empty token, and a negative one only for a token with a minus sign; its values on decimals are the `Kp.KpValueOf*` lemmas |
| `Issued.StampYear` | aurora.py:131-135 | `strptime` in the first layout, else the second: a year read lies in 1..9999; which stamps give which year is `Issued.YearFirstLayout` and `Issued.YearLastLayout` |
| `Issued.BaseYear` | aurora.py:124-142 | the issuance year, or the current year; characterised by `Issued.BaseYearIsFirstIssued` |
| `Forecast.HeaderAfter` | aurora.py:149-167 | the header found below a marker lies within three lines below it and is a header line |
| `Forecast.PairDate` | aurora.py:180-192 | a decoded pair is a real date whose month the month token names and whose day token is all digits |
| `Calendar.AddThreeHours` | aurora.py:221 | three hours later: the hour of day advances by three modulo 24, in a real month |
| `Calendar.NextDay` | aurora.py:221 | the day after a date has a month in 1..12 and a day in 1..31 |
| `Alert.EnvelopeRecipients` | aurora.py:240-242 | the envelope is strictly sorted and contains the sender |
| `Alert.SortByStart` | aurora.py:254 | the stable sort by start keeps the number of periods; sorted, permutation and stability are `Alert.SortByStartSpec` |
| `Alert.SortStep` | aurora.py:254 | sorting one more period inserts it into the sorted prefix |
| `Forecast.ParseForecast` | aurora.py:117-227 | the parser, phase by phase, returns exactly `Parse`: empty text, a missing header or undecodable dates give nothing, otherwise the periods of the rows below the header |
| `ForecastFacts.ParseReported` | script.py:160-184 | every period returned reaches the threshold, starts at a real hour of one of the three decoded header dates, and ends at the start plus three hours |
| `ForecastFacts.ParseThreeHours` | aurora.py:216-224 | for any text, every period returned reaches the threshold, has a valid start, and ends exactly three hours later on the absolute hour count |
| `ForecastFacts.NoHeaderNoPeriods` | aurora.py:119-173 | empty text, or text in which no date header is found, gives no periods |
| `ForecastFacts.BadDatesNoPeriods` | aurora.py:175-198 | when the header's dates do not decode, the result is empty whatever the rows hold |
| `Forecast.ParseRead` | aurora.py:200-227 | once the header and its dates are found, the result is exactly the periods of the lines after the header, in line order |
| `Issued.ScanIssuedYear` | aurora.py:124-142 | the scan loop reports whether an issued line parsed, and its year is that of the first parseable `:Issued:` line, or the current year if none parses |
| `Issued.BaseYearIsFirstIssued` | script.py:84-102 | the base year is the current year exactly when no issued line parses; otherwise it is the year of the first one that does, with all earlier ones unparseable |
| `Issued.IssuedLineYear` | aurora.py:127-136 | a line yields a year only if it starts with `:Issued:`, and the year lies in 1..9999 |
| `Issued.FieldsYear` | aurora.py:133-135 | a stamp yields a year only when its fields are a 4-digit year, a month name, a day and a time of H or HH followed by MM; the year is the year field's value |
| `Issued.YearFirstLayout` | aurora.py:133 | a stamp laid out as year, month, day, time (H or HH followed by MM) with a real date yields its year |
| `Issued.YearLastLayout` | aurora.py:135 | a stamp laid out as month, day, time, year with a real date yields its year (the fallback layout) |
| `Issued.WrittenStampYear` | aurora.py:131-133 | the stamp written out from valid fields, single-spaced, reads back with its year |
| `Issued.MonthNameLength` | aurora.py:133 | a space-free token that names a month has exactly three characters |
| `Forecast.FindDateHeader` | aurora.py:144-173 | the search loop returns -1 exactly when no header is found, and otherwise the index of the header and its tokens |
| `Forecast.HeaderBelow` | aurora.py:149-167 | the look-ahead below one marker line returns -1 exactly when no header follows within three lines, and otherwise that header's index and tokens |
| `Forecast.FindHeaderSpec` | script.py:107-133 | no header iff no marker line has a header below it; otherwise the header is the one below the first marker line that has one |
| `Forecast.HeaderAfterSpec` | aurora.py:149-167 | the header below a marker is line `h` iff `h` is within three lines, is a header, and every line between is blank |
| `Forecast.PassBlank` | aurora.py:153-154 | a blank line in the look-ahead is passed over |
| `Forecast.StopAt` | aurora.py:155-167 | the first non-blank line decides: it is the header if it qualifies, and the search below this marker stops otherwise |
| `Forecast.NoMarkerNoHeader` | aurora.py:147-148 | without a line containing the marker there is no header |
| `Forecast.ClassifySpec` | aurora.py:152-158 | a line is blank iff it strips to nothing, and a header iff its stripped form has three or more tokens and a month name first |
| `Forecast.FindHeader` | aurora.py:159-160 | a header found is a line of the text that qualifies as a header |
| `Forecast.DecodeDateHeader` | aurora.py:175-198 | the pair loop returns exactly `DecodeDates` of the header tokens |
| `Forecast.ReadPair` | aurora.py:180-192 | one (month, day) step: the date of the pair, or failure when the day token is missing |
| `Forecast.DecodeDatesSpec` | aurora.py:178-195 | decoding gives dates `ds` iff there are at least six tokens, three dates, and each date is the decoding of pair k (tokens 2k and 2k+1) |
| `Forecast.PairDateSpec` | aurora.py:180-192 | a pair gives date d iff the month token names d's month, the day token is all digits with d's day as its value, d's year is the base year plus one exactly for a January date in a December run, and d is a real date |
| `Forecast.DecodedPairsSpec` | aurora.py:179-192 | the first n pairs decode to `ds` iff `ds` has n dates and each pair decodes to its date |
| `Forecast.FailureStays` | aurora.py:196-198 | once a pair fails, the decoding fails, however many pairs follow |
| `Forecast.PairFails` | aurora.py:186-187 | a missing day token or a bad pair among the first three makes the decoding fail |
| `Forecast.DecodeDatesIgnoresTail` | aurora.py:179 | tokens after the sixth never change the decoded dates |
| `Forecast.DecodedDatesValid` | aurora.py:192 | decoded dates are real calendar dates |
| `Forecast.DecodeDates` | aurora.py:193-195 | decoding succeeds only with exactly three dates |
| `Forecast.CollectRows` | aurora.py:200-226 | the row loop returns the periods of every line after the header, in line order |
| `Forecast.LineCells` | aurora.py:201-212 | the body of the row loop gives nothing for a line that is not a labelled row with a value for each day, and otherwise the periods of the row's cells |
| `Forecast.RowCells` | aurora.py:213-226 | the cell loop keeps, in column order, a period for each of the first three values that parses and reaches the threshold |
| `Forecast.RowSkipped` | aurora.py:201-208 | a blank line, a line without an `NN-NNUT` label, or a row with fewer than three values gives nothing |
| `Forecast.RowRead` | aurora.py:204-213 | a labelled row with enough values is read with the hour of its label's first two digits, over the values after the label |
| `Forecast.RowLabelToken` | aurora.py:205-210 | the first token of a labelled line begins with the label's two digits, so `int(time_period_str[:2])` cannot fail |
| `ForecastFacts.CellPeriodSpec` | aurora.py:216-224 | a cell gives a period iff its value parses, reaches the threshold (inclusive) and the hour is below 24; the period starts at that hour of the column's date, ends three hours later and carries the value |
| `ForecastFacts.CellListReported` | aurora.py:219-224 | a cell's period is dated by that cell's column date |
| `ForecastFacts.RowReaderReported` | aurora.py:219 | every cell read from a row is dated by one of the header dates |
| `ForecastFacts.CellsReported` | aurora.py:213-224 | if every cell read is reported properly, so is every period of the row |
| `ForecastFacts.RowPeriodsReported` | aurora.py:201-224 | every period of one row reaches the threshold, is dated by a header date and lasts three hours |
| `ForecastFacts.RowsReported` | aurora.py:200-226 | the same for all rows between two line indexes |
| `ForecastFacts.CellsInColumns` | aurora.py:213-215 | a row's periods are those of its first, second and third values, in that order |
| `ForecastFacts.CellsByColumn` | script.py:173-175 | value k is always dated `dates[k]`: a value that does not parse does not shift the later ones, and values after the third are not read |
| `ForecastFacts.AnnotationTakesThirdColumn` | aurora.py:213-217 | a token starting with `(` in the third value position leaves the third day without a period, and the value after it is never read |
| `ForecastFacts.LateHourNothing` | aurora.py:220 | a row labelled with an hour of 24 or more yields no period, because building the start time raises and every cell is skipped |
| `ForecastFacts.ThresholdInclusive` | aurora.py:218 | a value equal to the threshold is reported |
| `ForecastFacts.TruncatedValue` | aurora.py:217-218 | a decimal value counts by its whole part: n.fff is reported at threshold n and not at n+1 |
| `Kp.KpValueOfNat` | aurora.py:217 | a plain digit string reads as its value |
| `Kp.KpValueOfDecimal` | aurora.py:217 | `n.fff` reads as n |
| `Kp.KpValueOfNegativeDecimal` | aurora.py:217 | `-n.fff` reads as -n (truncation toward zero, not floor) |
| `Kp.NotANumber` | aurora.py:225-226 | a token that does not start with a digit, a sign or a point has no value, so the cell is skipped |
| `Kp.UnsignedValue` | aurora.py:217 | an unsigned literal reads as its magnitude |
| `Kp.MinusSigned` | aurora.py:217 | a minus sign negates the magnitude |
| `Kp.DecimalMagnitude` | aurora.py:217 | the magnitude of `whole.frac` is the value of `whole` |
| `Kp.ScaledFraction` | aurora.py:217 | without an exponent, the fraction digits are dropped |
| `Months.MonthNumberSpec` | aurora.py:104-105 | `month_str_to_int(s)` is m iff the stripped s, lower-cased, is the m-th abbreviation |
| `Months.MonthNumberFails` | script.py:64-65 | `month_str_to_int(s)` raises iff the stripped s, lower-cased, matches none of the twelve abbreviations |
| `Months.MonthNumberOfName` | aurora.py:105 | each month's capitalised, lower-case and upper-case abbreviations read back as that month |
| `Months.MonthNumber` | aurora.py:105 | a month number lies in 1..12 |
| `Months.MonthFrom` | aurora.py:105 | the search returns the month whose abbreviation the word spells, and fails only when it spells none of the remaining ones |
| `Months.SpelledOnce` | aurora.py:105 | a word spells at most one month abbreviation, so the month is unique |
| `Months.AbbreviationsDistinct` | aurora.py:105 | the twelve abbreviations are distinct |
| `Months.SpelledAsLower` | aurora.py:105 | matching ignores case: a word spells an abbreviation iff its lower-case form equals it |
| `Months.ReadsBackAs` | aurora.py:105 | a space-free word whose lower-case form is the m-th abbreviation reads as m |
| `Months.NameSpelling` | aurora.py:105 | the capitalised, lower-case and upper-case forms of each abbreviation are space-free and lower-case to it |
| `Calendar.AddThreeHoursSpec` | aurora.py:221 | start plus three hours is exactly three hours later on the absolute hour count, crossing into the next day, month or year, and stays a valid instant below the year 9999's last day |
| `Calendar.NextDaySpec` | aurora.py:221 | the day after a date is the next day on the day count, and is a valid date except after 9999-12-31 |
| `Calendar.MakeDate` | aurora.py:192 | `date(y, m, d)` succeeds exactly for real calendar dates |
| `Calendar.DaysInMonth` | aurora.py:192 | a month has 28 to 31 days |
| `Calendar.OrdinalFollowsCalendar` | aurora.py:254 | a date earlier in the calendar has a smaller day count |
| `Calendar.OrdinalInjective` | aurora.py:254 | distinct real dates have distinct day counts |
| `Alert.SendEmailAlert` | aurora.py:229-260 | sorts the caller's list in place by start, and returns no mail for an empty list; otherwise it returns the sender, the envelope, the largest Kp and the periods listed in sorted order |
| `Alert.AlertFor` | script.py:191-193 | no mail exactly when there are no periods |
| `Alert.AlertForSpec` | script.py:195-214 | the mail's envelope is the sorted sender-plus-Bcc set, its Kp is attained by some period and bounds all of them, and it lists the periods sorted, as a permutation, keeping the order of equal starts |
| `Alert.SortPeriods` | aurora.py:254 | the in-place sort leaves the array equal to the stable sort by start of its old contents |
| `Alert.InsertPeriod` | aurora.py:254 | one insertion step places element i among the sorted first i elements, leaving the rest of the array untouched |
| `Alert.SortByStartSpec` | aurora.py:254 | the sort by start is sorted, is a permutation, and keeps the relative order of periods with the same start (stability) |
| `Alert.InsertByStartPermutes` | aurora.py:254 | inserting a period adds exactly that period |
| `Alert.InsertByStartSorted` | aurora.py:254 | inserting into a sorted list keeps it sorted |
| `Alert.InsertByStartStable` | aurora.py:254 | an inserted period goes after the periods with the same start |
| `Alert.AppendLatest` | aurora.py:254 | appending a period no earlier than all others keeps a list sorted |
| `Alert.InstantBeforeIsEarlier` | aurora.py:254 | comparing UTC (date, hour) lexicographically is comparing the absolute hour count; the key the source sorts by is the local wall-clock start, which orders these three-hour-aligned starts the same way |
| `Alert.EnvelopeSpec` | aurora.py:237-246 | the envelope is strictly sorted and contains exactly the sender and the Bcc entries; it is the only sorted list of them, and it is never empty, so the "no valid recipients" branch is unreachable |
| `Alert.EnvelopeMembers` | aurora.py:237-242 | an address is in the envelope iff it is the sender or a non-empty stripped comma-separated entry |
| `Alert.AddressesSpec` | aurora.py:237 | the Bcc list holds exactly the non-empty stripped entries |
| `Alert.Addresses` | script.py:197 | the Bcc list has no more entries than the recipient string has fields |
| `Alert.SortedSet` | aurora.py:242 | `sorted(set(xs))` is strictly sorted and has exactly the members of xs |
| `Alert.InsertUnique` | aurora.py:242 | adding an element to a strictly sorted list keeps it strictly sorted and adds exactly that element |
| `Alert.SortedSetsEqual` | aurora.py:242 | two strictly sorted lists with the same members are equal |
| `Alert.LexIrreflexive` | aurora.py:242 | string order is irreflexive |
| `Alert.LexTransitive` | aurora.py:242 | string order is transitive |
| `Alert.LexTotal` | aurora.py:242 | distinct strings are ordered one way or the other |
| `Alert.MaxKp` | aurora.py:248 | the subject's Kp is 0 for no periods, and otherwise it is attained by some period and bounds all of them |
| `Env.GetCleanEnv` | aurora.py:42-52 | the result is missing iff the variable is unset and there is no default; a set variable's cleaned value wins over the default |
| `Env.GetCleanEnvSpec` | aurora.py:46-52 | a returned string holds no `#`, and neither starts nor ends with a quote |
| `Env.CleanValueSpec` | aurora.py:51 | a cleaned value holds no `#` and has no quote at either end |
| `Env.CleanValue` | aurora.py:48-51 | cleaning never lengthens a value |
| `Env.CommentDropped` | aurora.py:48 | everything from the first `#` on is ignored |
| `Env.CleanValueUnchanged` | aurora.py:49-51 | a value without `#`, without whitespace or quotes at either end, is returned unchanged |
| `Env.QuotedValue` | aurora.py:50-51 | the quotes around such a value are removed |
| `Text.StripSpec` | aurora.py:152 | `strip()` leaves no whitespace at either end and leaves a space-free string alone |
| `Text.StripUnchanged` | aurora.py:201 | a string without whitespace at its ends is its own `strip()` |
| `Text.StripCharsEnds` | aurora.py:51 | `strip(chars)` leaves none of those characters at either end |
| `Text.StripCharsInfix` | aurora.py:51 | `strip(chars)` removes only those characters, and only from the ends |
| `Text.TokensJoinWords` | aurora.py:155 | `split()` of space-free words joined by single spaces gives the words back |
| `Text.TokensAreWords` | aurora.py:155 | `split()` gives non-empty, space-free words |
| `Text.FirstTokenStarts` | aurora.py:204-205 | a line starting with k non-space characters has a first token beginning with them |
| `Text.JoinSplitOn` | aurora.py:237 | joining the `split(sep)` fields with `sep` gives the string back |
| `Text.SplitOn` | aurora.py:237 | `split(sep)` has at least one field and no field holds `sep` |
| `Text.SplitOnWithout` | aurora.py:48 | a string without the separator splits into itself |
| `Text.SplitOnFirst` | aurora.py:48 | the first field is the text before the first separator |
| `Text.BeforeFirst` | aurora.py:131 | `split(" UTC")[0]` is the longest prefix without `" UTC"`, and is the whole string or is followed by `" UTC"` |
| `Text.Contains` | aurora.py:148 | `pat in s` iff `pat` occurs at some position of `s` |
| `Text.SplitLines` | aurora.py:122 | `splitlines()` of empty text is empty, and no line holds a line break |
| `Text.SplitLinesUnlines` | aurora.py:122 | `splitlines()` of lines joined by newlines gives them back |
| `Text.DigitsValueShowNat` | aurora.py:184 | `int()` of a number's decimal digits is that number |

## Left out

- Fetching the bulletin over HTTP (`get_aurora_forecast`) is network I/O. The bulletin text is an input.
- Loading settings from the environment at start-up is left out, and so is configuring the log file and all `logging`/`print` output. These are process-level side effects. `get_clean_env` takes the environment as a map.
- Time zones are left out. Resolving a zone from coordinates and `astimezone` use foreign libraries. Periods are kept in UTC. The source sorts the converted starts, which share one `tzinfo` and so compare by local wall-clock time. The model sorts by the UTC instant instead. The two orders agree because the starts lie on the three-hour UTC grid and the zone's offset changes are smaller than three hours. `astimezone` at aurora.py:222-223 can also raise an uncaught `OverflowError` for a start or end so close to 0001-01-01 or 9999-12-31 that the local time falls outside the `datetime` range; the model has no such failure.
- The wall clock is left out: "now" is the year and month passed in.
- The text of the mail is left out: the `strftime` rendering of times, the subject and body strings, MIME construction and the SMTP session. The mail is modelled as its sender, envelope, largest Kp and the ordered list of periods it enumerates.
- The locale behind `%b` is left out: month names are the twelve English abbreviations, matched case-insensitively over ASCII letters.
- `strptime` for the issued line is modelled field by field (`Issued.StampYear`). Whitespace in each format matches any run of whitespace. `%Y` is four digits. `%b` is a month abbreviation in any case. `%d` is 1–31 in one or two digits. `%H%M` is an hour `2[0-3]`, `[0-1]\d` or one digit, followed by a minute `[0-5]\d` or one digit. The date must exist, and nothing may be left over. On ASCII input this is what `strptime` accepts. Case-insensitive matching of non-ASCII letters that fold to ASCII (such as `ſ`) is not modelled.
- Kp.KpValue does not model `float`'s binary rounding: a literal is read exactly, so a value like `4.99999999999999999` reads as 4 where Python reads 5. Underscores in digits and the spellings `inf` and `infinity` are not recognised, and are treated like `nan`, as no value. In Python, `int(float('inf'))` and a literal beyond the float range raise `OverflowError`, which the parser does not catch.
- ForecastFacts.ParseThreeHours does not model the `OverflowError` of adding three hours to 9999-12-31 21:00 or later. The model's end instant falls in the year 10000 (`Calendar.AddThreeHoursSpec` states validity only below that day).
- Digits are ASCII only. In the source, other Unicode decimal digits are also accepted by `\d` in the row-label pattern (aurora.py:202), by `str.isdigit` and `int` for the day (aurora.py:183-184), by `float()` for the Kp values (aurora.py:217; `float('٥')` is 5.0, where `Kp.KpValue` gives no value) and by `\d` inside `strptime`'s patterns (aurora.py:133-135).
- Months.MonthNumber's own contract only bounds the number. Its meaning is stated by `Months.MonthNumberSpec` and `Months.MonthNumberFails`.
- The `not all_to_addrs` branch of `send_email_alert` has no counterpart, because `Alert.EnvelopeSpec` proves the envelope always holds the sender.
- Calendar.MakeDate / Forecast.ReadPair / Forecast.PairDate: a header day token of 2147483648 or more gives no date, and so no periods. The source agrees when the token has more digits than `int()`'s string-conversion limit (4300 by default since Python 3.11): `int()` at aurora.py:184 then raises `ValueError`, which aurora.py:196 catches. A shorter token is converted, and `date()` at aurora.py:192 raises `OverflowError` for it. The `except (ValueError, IndexError)` at aurora.py:196 does not catch that, and `parse_forecast` stops with the exception.
