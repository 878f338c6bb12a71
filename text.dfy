/**
 * The Python `str` operations the bulletin parser relies on: `strip`, `split()`
 * on whitespace, `split(sep)`, `splitlines()`, substring search and ASCII digits.
 * Strings are sequences of Unicode scalar values, as Python's `str` is.
 */
module Text {

  /**
   * Python's `str.isspace()`: the characters of Unicode category Zs and the
   * bidirectional classes WS, B and S.
   */
  predicate IsSpace(c: char)
  {
    || '\t' <= c <= '\r'
    || '\U{1C}' <= c <= ' '
    || c == '\U{85}' || c == '\U{A0}' || c == '\U{1680}'
    || '\U{2000}' <= c <= '\U{200A}'
    || c == '\U{2028}' || c == '\U{2029}' || c == '\U{202F}' || c == '\U{205F}' || c == '\U{3000}'
  }

  /** The same characters as a set, for `strip()` with no argument. */
  const Whitespace: set<char> := set c: char | '\t' <= c <= '\U{3000}' && IsSpace(c)

  /** Line boundaries recognised by Python's `str.splitlines()`. */
  predicate IsLineBreak(c: char)
  {
    || '\n' <= c <= '\r'
    || '\U{1C}' <= c <= '\U{1E}'
    || c == '\U{85}' || c == '\U{2028}' || c == '\U{2029}'
  }

  predicate NoSpace(s: string) { forall i :: 0 <= i < |s| ==> !IsSpace(s[i]) }

  predicate NoLineBreak(s: string) { forall i :: 0 <= i < |s| ==> !IsLineBreak(s[i]) }

  // ---------------------------------------------------------------------------
  // strip

  /** `s.lstrip(cs)`: drops the longest prefix made of characters in `cs`. */
  function LStrip(s: string, cs: set<char>): (r: string)
    ensures |r| <= |s|
    ensures r == [] || r[0] !in cs
  {
    if s != [] && s[0] in cs then LStrip(s[1..], cs) else s
  }

  /** What `LStrip` removed is a prefix of characters in `cs`; what it kept is the rest. */
  lemma {:induction false} LStripRemovesPrefix(s: string, cs: set<char>)
    ensures LStrip(s, cs) == s[|s| - |LStrip(s, cs)|..]
    ensures forall i :: 0 <= i < |s| - |LStrip(s, cs)| ==> s[i] in cs
  {
    if s != [] && s[0] in cs {
      LStripRemovesPrefix(s[1..], cs);
      assert forall i :: 1 <= i <= |s| ==> s[i..] == s[1..][i - 1..];
    }
  }

  /** `s.rstrip(cs)`: drops the longest suffix made of characters in `cs`. */
  function RStrip(s: string, cs: set<char>): (r: string)
    ensures |r| <= |s|
    ensures r == [] || r[|r| - 1] !in cs
  {
    if s != [] && s[|s| - 1] in cs then RStrip(s[..|s| - 1], cs) else s
  }

  /** What `RStrip` removed is a suffix of characters in `cs`; what it kept is the rest. */
  lemma {:induction false} RStripRemovesSuffix(s: string, cs: set<char>)
    ensures RStrip(s, cs) == s[..|RStrip(s, cs)|]
    ensures forall i :: |RStrip(s, cs)| <= i < |s| ==> s[i] in cs
  {
    if s != [] && s[|s| - 1] in cs {
      RStripRemovesSuffix(s[..|s| - 1], cs);
      assert forall i :: 0 <= i <= |s| - 1 ==> s[..i] == s[..|s| - 1][..i];
    }
  }

  /** `s.strip(cs)`: `lstrip` then `rstrip`. */
  function StripChars(s: string, cs: set<char>): (r: string)
    ensures |r| <= |s|
  {
    RStrip(LStrip(s, cs), cs)
  }

  /** Neither end of what `strip(cs)` keeps is a character of `cs`. */
  lemma StripCharsEnds(s: string, cs: set<char>)
    ensures var r := StripChars(s, cs); r == [] || (r[0] !in cs && r[|r| - 1] !in cs)
  {
    RStripRemovesSuffix(LStrip(s, cs), cs);
  }

  /**
   * What `StripChars` keeps is an infix of `s`, and everything it removed on
   * either side is a character of `cs`.
   */
  lemma StripCharsInfix(s: string, cs: set<char>)
    ensures var r := StripChars(s, cs);
            exists i :: 0 <= i <= |s| - |r| && r <= s[i..]
                        && (forall k :: 0 <= k < i ==> s[k] in cs)
                        && (forall k :: i + |r| <= k < |s| ==> s[k] in cs)
  {
    var l := LStrip(s, cs);
    var r := RStrip(l, cs);
    LStripRemovesPrefix(s, cs);
    RStripRemovesSuffix(l, cs);
    var i := |s| - |l|;
    assert r <= s[i..];
    assert forall k :: i + |r| <= k < |s| ==> s[k] == l[k - i];
  }

  /** `s.strip()` with no argument: removes surrounding whitespace. */
  function Strip(s: string): (r: string)
    ensures |r| <= |s|
  {
    StripChars(s, Whitespace)
  }

  /** `strip()` leaves no whitespace at either end, and leaves text without whitespace alone. */
  lemma StripSpec(s: string)
    ensures var r := Strip(s); r == [] || (!IsSpace(r[0]) && !IsSpace(r[|r| - 1]))
    ensures NoSpace(s) ==> Strip(s) == s
  {
    StripCharsEnds(s, Whitespace);
  }

  /** A string that neither starts nor ends with whitespace is its own `strip()`. */
  lemma StripUnchanged(s: string)
    requires s == [] || (!IsSpace(s[0]) && !IsSpace(s[|s| - 1]))
    ensures Strip(s) == s
  {
    assert LStrip(s, Whitespace) == s;
  }

  // ---------------------------------------------------------------------------
  // split() on runs of whitespace

  /** Length of the leading run of non-whitespace characters. */
  function WordLength(s: string): (n: nat)
    ensures n <= |s|
    ensures forall i :: 0 <= i < n ==> !IsSpace(s[i])
    ensures n == |s| || IsSpace(s[n])
  {
    if s == [] || IsSpace(s[0]) then 0 else 1 + WordLength(s[1..])
  }

  /** The leading word of a string that starts with a non-whitespace character. */
  lemma {:induction false} LeadingWord(t: string)
    requires t != [] && !IsSpace(t[0])
    ensures WordLength(t) >= 1 && NoSpace(t[..WordLength(t)])
  {
    var n := WordLength(t);
    forall i | 0 <= i < n ensures !IsSpace(t[..n][i]) { assert t[..n][i] == t[i]; }
  }

  /** Non-empty words without whitespace: what `split()` produces. */
  predicate Words(ws: seq<string>)
  {
    forall k :: 0 <= k < |ws| ==> ws[k] != [] && NoSpace(ws[k])
  }

  lemma {:induction false} ConsWords(w: string, ws: seq<string>)
    requires w != [] && NoSpace(w) && Words(ws)
    ensures Words([w] + ws)
  {
    var r := [w] + ws;
    forall k | 0 <= k < |r| ensures r[k] != [] && NoSpace(r[k]) {
      if k > 0 { assert r[k] == ws[k - 1]; }
    }
  }

  /** `s.split()`: the maximal runs of non-whitespace characters, in order. */
  function Tokens(s: string): seq<string>
    decreases |s|
  {
    var t := LStrip(s, Whitespace);
    if t == [] then []
    else
      LeadingWord(t);
      [t[..WordLength(t)]] + Tokens(t[WordLength(t)..])
  }

  /** Every token is a non-empty run without whitespace. */
  lemma {:induction false} TokensAreWords(s: string)
    ensures Words(Tokens(s))
    decreases |s|
  {
    var t := LStrip(s, Whitespace);
    if t != [] {
      LeadingWord(t);
      var n := WordLength(t);
      TokensAreWords(t[n..]);
      ConsWords(t[..n], Tokens(t[n..]));
    }
  }

  /** Words joined by single spaces, the inverse of `Tokens` on well-formed words. */
  function JoinWords(ws: seq<string>): string
  {
    if ws == [] then []
    else if |ws| == 1 then ws[0]
    else ws[0] + " " + JoinWords(ws[1..])
  }

  /** Joined words neither start nor end with whitespace, so `strip()` leaves them alone. */
  lemma {:induction false} JoinWordsStripped(ws: seq<string>)
    requires Words(ws) && ws != []
    ensures Strip(JoinWords(ws)) == JoinWords(ws)
  {
    JoinWordsEnds(ws);
    StripUnchanged(JoinWords(ws));
  }

  lemma {:induction false} JoinWordsEnds(ws: seq<string>)
    requires Words(ws) && ws != []
    ensures var s := JoinWords(ws); var w := ws[|ws| - 1];
            |s| > 0 && s[0] == ws[0][0] && s[|s| - 1] == w[|w| - 1] && !IsSpace(s[0]) && !IsSpace(s[|s| - 1])
  {
    WordsHead(ws);
    if |ws| > 1 {
      WordsTail(ws);
      JoinWordsEnds(ws[1..]);
      assert JoinWords(ws) == ws[0] + (" " + JoinWords(ws[1..]));
    }
  }

  lemma {:induction false} WordLengthOfWord(w: string, rest: string)
    requires NoSpace(w)
    requires rest == [] || IsSpace(rest[0])
    ensures WordLength(w + rest) == |w|
  {
    if w != [] {
      assert (w + rest)[1..] == w[1..] + rest;
      WordLengthOfWord(w[1..], rest);
    }
  }

  /** Splitting words that were joined by spaces gives the words back. */
  lemma {:induction false} TokensJoinWords(ws: seq<string>)
    requires Words(ws)
    ensures Tokens(JoinWords(ws)) == ws
  {
    if ws != [] {
      WordsHead(ws);
      if |ws| == 1 {
        TokensOfWordThen(ws[0], []);
        assert ws[0] + [] == ws[0];
      } else {
        WordsTail(ws);
        TokensJoinWords(ws[1..]);
        TokensJoinWordsStep(ws);
      }
    }
  }

  lemma {:induction false} TokensJoinWordsStep(ws: seq<string>)
    requires |ws| > 1 && ws[0] != [] && NoSpace(ws[0])
    requires Tokens(JoinWords(ws[1..])) == ws[1..]
    ensures Tokens(JoinWords(ws)) == ws
  {
    var tail := JoinWords(ws[1..]);
    assert JoinWords(ws) == ws[0] + (" " + tail);
    TokensOfWordThen(ws[0], " " + tail);
    TokensAfterSpace(tail);
    assert [ws[0]] + ws[1..] == ws;
  }

  lemma {:induction false} WordsHead(ws: seq<string>)
    requires Words(ws) && ws != []
    ensures ws[0] != [] && NoSpace(ws[0])
  {
  }

  lemma {:induction false} WordsTail(ws: seq<string>)
    requires Words(ws) && ws != []
    ensures Words(ws[1..])
  {
    forall k | 0 <= k < |ws[1..]| ensures ws[1..][k] != [] && NoSpace(ws[1..][k]) {
      assert ws[1..][k] == ws[k + 1];
    }
  }

  lemma {:induction false} TokensAfterSpace(s: string)
    ensures Tokens(" " + s) == Tokens(s)
  {
    assert (" " + s)[1..] == s;
    assert LStrip(" " + s, Whitespace) == LStrip(s, Whitespace);
  }

  /** The tokens of a word followed by whitespace-led text. */
  lemma {:induction false} TokensOfWordThen(w: string, rest: string)
    requires w != [] && NoSpace(w)
    requires rest == [] || IsSpace(rest[0])
    ensures Tokens(w + rest) == [w] + Tokens(rest)
  {
    WordLengthOfWord(w, rest);
    assert LStrip(w + rest, Whitespace) == w + rest;
    assert (w + rest)[..|w|] == w;
    assert (w + rest)[|w|..] == rest;
  }

  /** A string that starts with a run of `k` non-whitespace characters has those as the start of its first token. */
  lemma {:induction false} FirstTokenStarts(s: string, k: nat)
    requires 0 < k <= |s| && NoSpace(s[..k])
    ensures |Tokens(s)| > 0 && |Tokens(s)[0]| >= k && Tokens(s)[0][..k] == s[..k]
  {
    assert !IsSpace(s[0]);
    assert LStrip(s, Whitespace) == s;
    WordLengthAtLeast(s, k);
  }

  lemma {:induction false} WordLengthAtLeast(s: string, k: nat)
    requires k <= |s| && NoSpace(s[..k])
    ensures WordLength(s) >= k
  {
    if k > 0 {
      assert !IsSpace(s[..k][0]);
      assert s[1..][..k - 1] == s[..k][1..];
      WordLengthAtLeast(s[1..], k - 1);
    }
  }

  // ---------------------------------------------------------------------------
  // split(sep) on a single character

  /** `s.split(sep)`: the pieces between occurrences of `sep`, empty pieces included. */
  function SplitOn(s: string, sep: char): (r: seq<string>)
    ensures |r| >= 1
    ensures forall k :: 0 <= k < |r| ==> sep !in r[k]
  {
    if s == [] then [[]]
    else
      var rest := SplitOn(s[1..], sep);
      if s[0] == sep then [[]] + rest
      else [[s[0]] + rest[0]] + rest[1..]
  }

  /** `sep.join(parts)`. */
  function JoinOn(parts: seq<string>, sep: char): string
  {
    if parts == [] then []
    else if |parts| == 1 then parts[0]
    else parts[0] + [sep] + JoinOn(parts[1..], sep)
  }

  /** Joining the pieces with the separator restores the string. */
  lemma {:induction false} JoinSplitOn(s: string, sep: char)
    ensures JoinOn(SplitOn(s, sep), sep) == s
  {
    if s != [] {
      var rest := SplitOn(s[1..], sep);
      JoinSplitOn(s[1..], sep);
      if s[0] == sep {
        assert SplitOn(s, sep) == [[]] + rest;
        assert ([[]] + rest)[1..] == rest;
      } else {
        var r := [[s[0]] + rest[0]] + rest[1..];
        assert SplitOn(s, sep) == r;
        if |rest| == 1 {
          assert JoinOn(r, sep) == [s[0]] + rest[0];
        } else {
          assert r[1..] == rest[1..];
          assert JoinOn(rest, sep) == rest[0] + [sep] + JoinOn(rest[1..], sep);
        }
      }
    }
  }

  /** Text without the separator is a single piece. */
  lemma {:induction false} SplitOnWithout(s: string, sep: char)
    requires sep !in s
    ensures SplitOn(s, sep) == [s]
  {
    if s != [] {
      assert sep !in s[1..];
      SplitOnWithout(s[1..], sep);
      assert [s[0]] + s[1..] == s;
    }
  }

  /** The first piece is everything before the first separator. */
  lemma {:induction false} SplitOnFirst(s: string, sep: char, rest: string)
    requires sep !in s
    ensures SplitOn(s + [sep] + rest, sep)[0] == s
  {
    var t := s + [sep] + rest;
    if s != [] {
      assert sep !in s[1..];
      SplitOnFirst(s[1..], sep, rest);
      assert t[1..] == s[1..] + [sep] + rest;
      assert [s[0]] + s[1..] == s;
    } else {
      assert t[0] == sep;
    }
  }

  /** The characters `strip(cs)` keeps all come from `s`. */
  lemma StripCharsKeeps(s: string, cs: set<char>, c: char)
    requires c !in s
    ensures c !in StripChars(s, cs)
  {
    var r := StripChars(s, cs);
    StripCharsInfix(s, cs);
    var i :| 0 <= i <= |s| - |r| && r <= s[i..];
    forall k | 0 <= k < |r|
      ensures r[k] != c
    {
      assert r[k] == s[i + k];
    }
  }

  /** `strip(cs)` leaves text alone when neither end is in `cs`. */
  lemma StripCharsUnchanged(s: string, cs: set<char>)
    requires s == [] || (s[0] !in cs && s[|s| - 1] !in cs)
    ensures StripChars(s, cs) == s
  {
    assert LStrip(s, cs) == s;
  }

  // ---------------------------------------------------------------------------
  // split(sep)[0] for a multi-character separator, and substring search

  /** `s.split(sep)[0]`: everything before the first occurrence of `sep`, or all of `s`. */
  function BeforeFirst(s: string, sep: string): (r: string)
    requires sep != []
    ensures r <= s
    ensures forall i :: 0 <= i < |r| ==> !(sep <= s[i..])
    ensures r == s || sep <= s[|r|..]
  {
    if s == [] || sep <= s then []
    else
      var r := [s[0]] + BeforeFirst(s[1..], sep);
      assert forall i :: 1 <= i <= |s| ==> s[i..] == s[1..][i - 1..];
      r
  }

  /** `pat in s` for strings. */
  function Contains(s: string, pat: string): (b: bool)
    ensures b <==> exists i :: 0 <= i <= |s| && pat <= s[i..]
    decreases |s|
  {
    if pat <= s then
      assert s[0..] == s;
      true
    else if s == [] then false
    else
      var b := Contains(s[1..], pat);
      assert forall i :: 1 <= i <= |s| ==> s[i..] == s[1..][i - 1..];
      assert b ==> exists i :: 1 <= i <= |s| && pat <= s[i..];
      b
  }

  // ---------------------------------------------------------------------------
  // decimal digits (ASCII)

  predicate IsDigit(c: char) { '0' <= c <= '9' }

  predicate AllDigits(s: string) { forall i :: 0 <= i < |s| ==> IsDigit(s[i]) }

  /** `s.isdigit()`, restricted to ASCII digits. */
  predicate IsDigits(s: string) { s != [] && AllDigits(s) }

  function DigitValue(c: char): (d: nat)
    requires IsDigit(c)
    ensures d < 10
  {
    (c as int) - ('0' as int)
  }

  function DigitChar(d: nat): (c: char)
    requires d < 10
    ensures IsDigit(c) && DigitValue(c) == d
  {
    ('0' as int + d) as char
  }

  /** `int(s)` for a string of ASCII digits (leading zeros allowed). */
  function DigitsValue(s: string): (n: nat)
    requires AllDigits(s)
  {
    if s == [] then 0 else DigitsValue(s[..|s| - 1]) * 10 + DigitValue(s[|s| - 1])
  }

  /** `str(n)` for a natural number. */
  function ShowNat(n: nat): (s: string)
    ensures IsDigits(s)
    ensures |s| == 1 <==> n < 10
  {
    if n < 10 then [DigitChar(n)] else ShowNat(n / 10) + [DigitChar(n % 10)]
  }

  /** Reading back a rendered number gives the number. */
  lemma {:induction false} DigitsValueShowNat(n: nat)
    ensures DigitsValue(ShowNat(n)) == n
  {
    if n >= 10 {
      var s := ShowNat(n);
      assert s[..|s| - 1] == ShowNat(n / 10);
      DigitsValueShowNat(n / 10);
    }
  }

  // ---------------------------------------------------------------------------
  // splitlines()

  /** Length of the leading run of characters that are not line boundaries. */
  function LineLength(s: string): (n: nat)
    ensures n <= |s|
    ensures NoLineBreak(s[..n])
    ensures n == |s| || IsLineBreak(s[n])
  {
    if s == [] || IsLineBreak(s[0]) then 0
    else
      var n := 1 + LineLength(s[1..]);
      assert s[..n] == [s[0]] + s[1..][..n - 1];
      n
  }

  /**
   * `s.splitlines()`: the lines of `s` without their terminators; "\r\n" ends a
   * single line and a final terminator does not start an extra empty line.
   */
  function SplitLines(s: string): (r: seq<string>)
    ensures s == [] <==> r == []
    ensures forall k :: 0 <= k < |r| ==> NoLineBreak(r[k])
    decreases |s|
  {
    if s == [] then []
    else
      var n := LineLength(s);
      if n == |s| then [s]
      else
        var width := if s[n] == '\r' && n + 1 < |s| && s[n + 1] == '\n' then 2 else 1;
        [s[..n]] + SplitLines(s[n + width..])
  }

  /** Lines each followed by "\n", as a text file holds them. */
  function Unlines(ls: seq<string>): string
  {
    if ls == [] then [] else ls[0] + "\n" + Unlines(ls[1..])
  }

  lemma {:induction false} LineLengthOfLine(l: string, rest: string)
    requires NoLineBreak(l)
    ensures LineLength(l + "\n" + rest) == |l|
  {
    if l != [] {
      assert (l + "\n" + rest)[1..] == l[1..] + "\n" + rest;
      LineLengthOfLine(l[1..], rest);
    }
  }

  /** Splitting newline-terminated lines gives the lines back. */
  lemma {:induction false} SplitLinesUnlines(ls: seq<string>)
    requires forall k :: 0 <= k < |ls| ==> NoLineBreak(ls[k])
    ensures SplitLines(Unlines(ls)) == ls
  {
    if ls != [] {
      var l := ls[0];
      var rest := Unlines(ls[1..]);
      assert Unlines(ls) == l + "\n" + rest;
      LineLengthOfLine(l, rest);
      var s := l + "\n" + rest;
      assert s[|l|] == '\n';
      assert s[..|l|] == l;
      assert s[|l| + 1..] == rest;
      SplitLinesUnlines(ls[1..]);
    }
  }
}
