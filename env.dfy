/**
 * `get_clean_env`: an environment variable as the configuration reads it,
 * with an inline `#` comment cut off, surrounding whitespace removed and then
 * surrounding quote characters removed.
 */
module Env {
  import opened Wrappers
  import opened Text

  /** The characters `strip("'\"")` removes. */
  const Quotes: set<char> := {'\'', '"'}

  /** `value.split('#')[0].strip().strip("'\"")`. */
  function CleanValue(v: string): (r: string)
    ensures |r| <= |v|
  {
    var piece := SplitOn(v, '#')[0];
    assert |piece| <= |v| by {
      JoinSplitOn(v, '#');
      JoinedHeadLength(SplitOn(v, '#'), '#');
    }
    StripChars(Strip(piece), Quotes)
  }

  lemma JoinedHeadLength(parts: seq<string>, sep: char)
    requires parts != []
    ensures |parts[0]| <= |JoinOn(parts, sep)|
  {
  }

  /**
   * `get_clean_env(name, default)` over the environment `env`: the variable's
   * value, else the default, cleaned; `None` stays `None`.
   */
  function GetCleanEnv(env: map<string, string>, name: string, default: Option<string>): (r: Option<string>)
    ensures r.None? <==> name !in env && default.None?
    ensures name in env ==> r == Some(CleanValue(env[name]))
    ensures name !in env && default.Some? ==> r == Some(CleanValue(default.value))
  {
    var value := if name in env then Some(env[name]) else default;
    match value
    case None => None
    case Some(v) => Some(CleanValue(v))
  }

  /** A cleaned value holds no `#` and neither starts nor ends with a quote. */
  lemma CleanValueSpec(v: string)
    ensures '#' !in CleanValue(v)
    ensures var r := CleanValue(v); r == [] || (r[0] !in Quotes && r[|r| - 1] !in Quotes)
  {
    var piece := SplitOn(v, '#')[0];
    StripCharsKeeps(piece, Whitespace, '#');
    StripCharsKeeps(Strip(piece), Quotes, '#');
    StripCharsEnds(Strip(piece), Quotes);
  }

  /** Whatever is set, or the default, comes back cleaned. */
  lemma GetCleanEnvSpec(env: map<string, string>, name: string, default: Option<string>)
    ensures var r := GetCleanEnv(env, name, default);
            r.Some? ==> '#' !in r.value && (r.value == [] || (r.value[0] !in Quotes && r.value[|r.value| - 1] !in Quotes))
  {
    if name in env {
      CleanValueSpec(env[name]);
    } else if default.Some? {
      CleanValueSpec(default.value);
    }
  }

  /** An inline comment is dropped: what follows the first `#` does not matter. */
  lemma CommentDropped(v: string, comment: string)
    requires '#' !in v
    ensures CleanValue(v + "#" + comment) == CleanValue(v)
  {
    SplitOnFirst(v, '#', comment);
    SplitOnWithout(v, '#');
  }

  /** A value with no comment and nothing to strip at its ends is read as written. */
  lemma CleanValueUnchanged(v: string)
    requires '#' !in v
    requires v == [] || (!IsSpace(v[0]) && !IsSpace(v[|v| - 1]) && v[0] !in Quotes && v[|v| - 1] !in Quotes)
    ensures CleanValue(v) == v
  {
    SplitOnWithout(v, '#');
    StripUnchanged(v);
    StripCharsUnchanged(v, Quotes);
  }

  /** Quotes around a value, and whitespace outside them, are removed. */
  lemma QuotedValue(v: string, q: char)
    requires q in Quotes && '#' !in v
    requires v == [] || (!IsSpace(v[0]) && !IsSpace(v[|v| - 1]) && v[0] !in Quotes && v[|v| - 1] !in Quotes)
    ensures CleanValue([q] + v + [q]) == v
  {
    var w := [q] + v + [q];
    assert '#' !in w;
    SplitOnWithout(w, '#');
    assert IsSpace(q) == false;
    StripUnchanged(w);
    assert LStrip(w, Quotes) == LStrip(v + [q], Quotes) by {
      assert w[1..] == v + [q];
    }
    if v == [] {
      assert LStrip(w, Quotes) == LStrip([], Quotes);
    } else {
      assert (v + [q])[0] == v[0];
      assert LStrip(v + [q], Quotes) == v + [q];
      assert (v + [q])[..|v|] == v;
      assert RStrip(v + [q], Quotes) == RStrip(v, Quotes);
      StripCharsUnchanged(v, Quotes);
    }
  }
}
