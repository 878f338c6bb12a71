/**
 * `month_str_to_int`: `datetime.strptime(s.strip(), "%b").month` in the C/English
 * locale, which accepts exactly the twelve three-letter abbreviations in any case.
 */
module Months {
  import opened Wrappers
  import opened Text

  /** The `%b` name of month `k + 1`, in the lower case the comparison is made in. */
  function Abbreviation(k: int): string
  {
    if k == 0 then "jan" else if k == 1 then "feb" else if k == 2 then "mar" else if k == 3 then "apr"
    else if k == 4 then "may" else if k == 5 then "jun" else if k == 6 then "jul" else if k == 7 then "aug"
    else if k == 8 then "sep" else if k == 9 then "oct" else if k == 10 then "nov" else "dec"
  }

  /** The names as the bulletin prints them. */
  const MonthNames: seq<string> :=
    ["Jan", "Feb", "Mar", "Apr", "May", "Jun", "Jul", "Aug", "Sep", "Oct", "Nov", "Dec"]

  function LowerChar(c: char): char
  {
    if 'A' <= c <= 'Z' then (c as int + 32) as char else c
  }

  function UpperChar(c: char): char
  {
    if 'a' <= c <= 'z' then (c as int - 32) as char else c
  }

  /** ASCII lower case; the comparison `%b` makes is case-insensitive. */
  function AsciiLower(s: string): (r: string)
    ensures |r| == |s|
  {
    seq(|s|, i requires 0 <= i < |s| => LowerChar(s[i]))
  }

  function AsciiUpper(s: string): (r: string)
    ensures |r| == |s|
  {
    seq(|s|, i requires 0 <= i < |s| => UpperChar(s[i]))
  }

  /** `w` spells the three-letter name `a` when its case is ignored. */
  predicate SpelledAs(w: string, a: string)
  {
    |w| == 3 && |a| == 3 && LowerChar(w[0]) == a[0] && LowerChar(w[1]) == a[1] && LowerChar(w[2]) == a[2]
  }

  /** The first month, from month `k + 1` on, whose abbreviation `w` spells. */
  function MonthFrom(w: string, k: nat): (r: Option<int>)
    requires k <= 12
    ensures r.Some? ==> k < r.value <= 12 && SpelledAs(w, Abbreviation(r.value - 1))
    ensures r.None? ==> forall j :: k <= j < 12 ==> !SpelledAs(w, Abbreviation(j))
    decreases 12 - k
  {
    if k == 12 then None
    else if SpelledAs(w, Abbreviation(k)) then Some(k + 1)
    else MonthFrom(w, k + 1)
  }

  /**
   * `month_str_to_int(s)`: the month number 1..12 whose abbreviation equals
   * `s` stripped of surrounding whitespace, ignoring case; `None` where
   * `strptime` raises `ValueError`.
   */
  function MonthNumber(s: string): (r: Option<int>)
    ensures r.Some? ==> 1 <= r.value <= 12
  {
    MonthFrom(Strip(s), 0)
  }

  /** Spelling a name ignoring case is lower-casing to it. */
  lemma SpelledAsLower(w: string, a: string)
    requires |a| == 3
    ensures SpelledAs(w, a) <==> AsciiLower(w) == a
  {
    if AsciiLower(w) == a {
      assert AsciiLower(w)[0] == a[0] && AsciiLower(w)[1] == a[1] && AsciiLower(w)[2] == a[2];
    }
    if SpelledAs(w, a) {
      assert AsciiLower(w) == [a[0], a[1], a[2]];
    }
  }

  /** No two months share an abbreviation. */
  lemma AbbreviationsDistinct(j: int, k: int)
    requires 0 <= j < 12 && 0 <= k < 12 && j != k
    ensures Abbreviation(j) != Abbreviation(k)
  {
    var a, b := Abbreviation(j), Abbreviation(k);
    assert a[0] != b[0] || a[1] != b[1] || a[2] != b[2];
  }

  lemma AbbreviationLength(k: int)
    ensures |Abbreviation(k)| == 3
  {
  }

  /** A word spells at most one month's abbreviation. */
  lemma SpelledOnce(w: string, j: int, k: int)
    requires 0 <= j < 12 && 0 <= k < 12
    requires SpelledAs(w, Abbreviation(j)) && SpelledAs(w, Abbreviation(k))
    ensures j == k
  {
    AbbreviationLength(j);
    AbbreviationLength(k);
    SpelledAsLower(w, Abbreviation(j));
    SpelledAsLower(w, Abbreviation(k));
    if j != k {
      AbbreviationsDistinct(j, k);
    }
  }

  /**
   * `month_str_to_int(s)` is month `m` exactly when `s`, stripped and
   * lower-cased, is the abbreviation of `m`.
   */
  lemma MonthNumberSpec(s: string, m: int)
    ensures MonthNumber(s) == Some(m) <==> 1 <= m <= 12 && AsciiLower(Strip(s)) == Abbreviation(m - 1)
  {
    var w := Strip(s);
    var r := MonthNumber(s);
    if r == Some(m) {
      AbbreviationLength(m - 1);
      SpelledAsLower(w, Abbreviation(m - 1));
    }
    if 1 <= m <= 12 && AsciiLower(w) == Abbreviation(m - 1) {
      AbbreviationLength(m - 1);
      SpelledAsLower(w, Abbreviation(m - 1));
      assert r.Some?;
      SpelledOnce(w, r.value - 1, m - 1);
    }
  }

  /** `month_str_to_int(s)` raises exactly when `s`, stripped and lower-cased, is no abbreviation. */
  lemma MonthNumberFails(s: string)
    ensures MonthNumber(s).None? <==> forall k :: 0 <= k < 12 ==> AsciiLower(Strip(s)) != Abbreviation(k)
  {
    var w := Strip(s);
    var r := MonthNumber(s);
    if r.Some? {
      MonthNumberSpec(s, r.value);
    } else {
      forall k | 0 <= k < 12
        ensures AsciiLower(w) != Abbreviation(k)
      {
        AbbreviationLength(k);
        SpelledAsLower(w, Abbreviation(k));
      }
    }
  }

  /** Every month's name is read back as that month, in title, lower or upper case. */
  lemma MonthNumberOfName(m: int)
    requires 1 <= m <= 12
    ensures MonthNumber(MonthNames[m - 1]) == Some(m)
    ensures MonthNumber(Abbreviation(m - 1)) == Some(m)
    ensures MonthNumber(AsciiUpper(MonthNames[m - 1])) == Some(m)
  {
    var name := MonthNames[m - 1];
    NameSpelling(m);
    ReadsBackAs(name, m);
    ReadsBackAs(Abbreviation(m - 1), m);
    ReadsBackAs(AsciiUpper(name), m);
  }

  lemma NameSpelling(m: int)
    requires 1 <= m <= 12
    ensures var name := MonthNames[m - 1];
            && NoSpace(name) && NoSpace(Abbreviation(m - 1)) && NoSpace(AsciiUpper(name))
            && AsciiLower(name) == Abbreviation(m - 1)
            && AsciiLower(Abbreviation(m - 1)) == Abbreviation(m - 1)
            && AsciiLower(AsciiUpper(name)) == Abbreviation(m - 1)
  {
    var name := MonthNames[m - 1];
    var abbr := Abbreviation(m - 1);
    NameLetters(m);
    Letters(name);
    Letters(abbr);
    UpperLetters(name);
    assert AsciiLower(name) == abbr;
    assert AsciiLower(abbr) == abbr;
  }

  lemma NameLetters(m: int)
    requires 1 <= m <= 12
    ensures var name, abbr := MonthNames[m - 1], Abbreviation(m - 1);
            && |name| == 3 && |abbr| == 3
            && (forall i :: 0 <= i < 3 ==> 'A' <= name[i] <= 'z' && 'a' <= abbr[i] <= 'z')
            && (forall i :: 0 <= i < 3 ==> LowerChar(name[i]) == abbr[i])
  {
  }

  lemma Letters(s: string)
    requires forall i :: 0 <= i < |s| ==> 'A' <= s[i] <= 'z'
    ensures NoSpace(s)
  {
  }

  lemma UpperLetters(s: string)
    requires forall i :: 0 <= i < |s| ==> 'A' <= s[i] <= 'z'
    ensures NoSpace(AsciiUpper(s)) && AsciiLower(AsciiUpper(s)) == AsciiLower(s)
  {
    var u := AsciiUpper(s);
    assert forall i :: 0 <= i < |s| ==> 'A' <= u[i] <= 'z';
  }

  lemma ReadsBackAs(v: string, m: int)
    requires 1 <= m <= 12
    requires NoSpace(v) && AsciiLower(v) == Abbreviation(m - 1)
    ensures MonthNumber(v) == Some(m)
  {
    StripSpec(v);
    MonthNumberSpec(v, m);
  }
}
