/**
 * `int(float(token))` for the Kp values of the breakdown table: a decimal
 * literal with optional sign, fraction and exponent, truncated toward zero.
 */
module Kp {
  import opened Wrappers
  import opened Text

  function Pow10(k: nat): (p: nat)
    ensures p >= 1
  {
    if k == 0 then 1 else 10 * Pow10(k - 1)
  }

  /** `m * 10^k`. */
  function Shifted(m: nat, k: nat): (r: nat)
  {
    if k == 0 then m else 10 * Shifted(m, k - 1)
  }

  /** `m // 10^k`: the last `k` digits dropped. */
  function Unshifted(m: nat, k: nat): (r: nat)
  {
    if k == 0 then m else Unshifted(m / 10, k - 1)
  }

  /** `int(float("<whole>.<frac>e<e>"))` for digit strings, truncated toward zero. */
  function Scaled(whole: string, frac: string, e: int): (r: nat)
    requires AllDigits(whole) && AllDigits(frac)
  {
    var m := Shifted(DigitsValue(whole), |frac|) + DigitsValue(frac);
    if e >= |frac| then Shifted(m, e - |frac|) else Unshifted(m, |frac| - e)
  }

  /** Without an exponent the fraction digits are dropped. */
  lemma ScaledFraction(whole: string, frac: string)
    requires AllDigits(whole) && AllDigits(frac)
    ensures Scaled(whole, frac, 0) == DigitsValue(whole)
  {
    var m := Shifted(DigitsValue(whole), |frac|) + DigitsValue(frac);
    if frac == [] {
      assert m == DigitsValue(whole);
    } else {
      DigitsValueBound(frac);
      UnshiftShifted(DigitsValue(whole), DigitsValue(frac), |frac|);
    }
  }

  /** The number of ASCII digits at the start of `s`. */
  function DigitRun(s: string): (n: nat)
    ensures n <= |s|
    ensures n == |s| || !IsDigit(s[n])
  {
    if s != [] && IsDigit(s[0]) then 1 + DigitRun(s[1..]) else 0
  }

  lemma {:induction false} DigitRunDigits(s: string)
    ensures AllDigits(s[..DigitRun(s)])
  {
    if s != [] && IsDigit(s[0]) {
      DigitRunDigits(s[1..]);
      assert s[..DigitRun(s)] == [s[0]] + s[1..][..DigitRun(s[1..])];
    }
  }

  /** A run of digits followed by a non-digit (or nothing) is exactly the leading run. */
  lemma {:induction false} DigitRunOf(d: string, rest: string)
    requires AllDigits(d)
    requires rest == [] || !IsDigit(rest[0])
    ensures DigitRun(d + rest) == |d|
  {
    if d != [] {
      assert (d + rest)[1..] == d[1..] + rest;
      DigitRunOf(d[1..], rest);
    }
  }

  predicate IsSign(c: char) { c == '+' || c == '-' }

  /** `s` without a leading sign. */
  function Unsigned(s: string): (u: string)
    ensures |u| <= |s|
  {
    if s != [] && IsSign(s[0]) then s[1..] else s
  }

  predicate Negative(s: string) { s != [] && s[0] == '-' }

  /** An optional exponent part `[eE][+-]?digits` making up all of `s`, and its value. */
  function ExponentValue(s: string): (r: Option<int>)
    ensures s == [] ==> r == Some(0)
  {
    if s == [] then Some(0)
    else if s[0] != 'e' && s[0] != 'E' then None
    else
      var u := Unsigned(s[1..]);
      if IsDigits(u) then
        var v: int := DigitsValue(u);
        Some(if Negative(s[1..]) then -v else v)
      else None
  }

  /**
   * The value of an unsigned decimal literal `digits[.digits][exponent]`
   * (at least one digit before or after the point), truncated toward zero;
   * `None` when `u` is not one.
   */
  function Magnitude(u: string): (r: Option<nat>)
  {
    var i := DigitRun(u);
    var afterWhole := u[i..];
    var hasPoint := afterWhole != [] && afterWhole[0] == '.';
    var afterPoint := if hasPoint then afterWhole[1..] else afterWhole;
    var f := DigitRun(afterPoint);
    if i + f == 0 then None
    else match ExponentValue(afterPoint[f..])
      case None => None
      case Some(e) =>
        DigitRunDigits(u);
        DigitRunDigits(afterPoint);
        Some(Scaled(u[..i], afterPoint[..f], e))
  }

  /**
   * `int(float(tok))` on a token without whitespace: `None` where `float`
   * raises `ValueError` (no digits, stray characters, "nan"), otherwise the
   * literal's value with the fraction cut off toward zero.
   */
  function KpValue(tok: string): (r: Option<int>)
    ensures r.Some? ==> tok != [] && (r.value < 0 ==> Negative(tok))
  {
    match Magnitude(Unsigned(tok))
    case None => None
    case Some(m) =>
      var v: int := m;
      Some(if Negative(tok) then -v else v)
  }

  /** A token that does not start like a number (an annotation such as "(G2)") has no value. */
  lemma NotANumber(tok: string)
    requires tok != [] && !IsDigit(tok[0]) && !IsSign(tok[0]) && tok[0] != '.'
    ensures KpValue(tok) == None
  {
  }

  /** A whole number reads back as itself. */
  lemma KpValueOfNat(n: nat)
    ensures KpValue(ShowNat(n)) == Some(n)
  {
    var s := ShowNat(n);
    DigitRunOf(s, []);
    assert s + [] == s;
    assert s[..|s|] == s;
    DigitsValueShowNat(n);
  }

  /** "n.ddd" reads as `n`: the fraction is dropped, whatever its digits. */
  lemma KpValueOfDecimal(n: nat, frac: string)
    requires AllDigits(frac)
    ensures KpValue(ShowNat(n) + "." + frac) == Some(n)
  {
    DigitsValueShowNat(n);
    DecimalMagnitude(ShowNat(n), frac);
    UnsignedValue(ShowNat(n) + "." + frac, n);
  }

  /** "-n.ddd" reads as `-n`: truncation is toward zero, not down. */
  lemma KpValueOfNegativeDecimal(n: nat, frac: string)
    requires AllDigits(frac)
    ensures KpValue("-" + ShowNat(n) + "." + frac) == Some(-(n as int))
  {
    var u := ShowNat(n) + "." + frac;
    assert "-" + ShowNat(n) + "." + frac == "-" + u;
    DigitsValueShowNat(n);
    DecimalMagnitude(ShowNat(n), frac);
    MinusSigned(u, n);
  }

  lemma UnsignedValue(u: string, m: nat)
    requires u != [] && IsDigit(u[0]) && Magnitude(u) == Some(m)
    ensures KpValue(u) == Some(m)
  {
  }

  lemma MinusSigned(u: string, m: nat)
    requires Magnitude(u) == Some(m)
    ensures KpValue("-" + u) == Some(-(m as int))
  {
    var tok := "-" + u;
    assert tok[1..] == u;
    assert Negative(tok) && Unsigned(tok) == u;
  }

  /** "ddd.fff" has magnitude "ddd": the fraction is cut off. */
  lemma DecimalMagnitude(whole: string, frac: string)
    requires IsDigits(whole) && AllDigits(frac)
    ensures (whole + "." + frac)[0] == whole[0]
    ensures Magnitude(whole + "." + frac) == Some(DigitsValue(whole))
  {
    var u := whole + "." + frac;
    var i := DigitRun(u);
    assert u == whole + ("." + frac) && u[..|whole|] == whole;
    assert i == |whole| by { DigitRunOf(whole, "." + frac); }
    var afterWhole := u[i..];
    assert afterWhole == "." + frac;
    var afterPoint := afterWhole[1..];
    assert afterPoint == frac;
    var f := DigitRun(afterPoint);
    assert f == |frac| by {
      DigitRunOf(frac, []);
      assert frac + [] == frac;
    }
    assert afterPoint[..f] == frac && afterPoint[f..] == [];
    assert ExponentValue(afterPoint[f..]) == Some(0);
    ScaledFraction(whole, frac);
  }

  lemma {:induction false} DigitsValueBound(s: string)
    requires AllDigits(s)
    ensures DigitsValue(s) < Pow10(|s|)
  {
    if s != [] {
      DigitsValueBound(s[..|s| - 1]);
    }
  }

  /** Dropping `k` digits from `n` followed by `k` more digits gives `n` back. */
  lemma {:induction false} UnshiftShifted(n: nat, r: nat, k: nat)
    requires r < Pow10(k)
    ensures Unshifted(Shifted(n, k) + r, k) == n
  {
    if k > 0 {
      assert (Shifted(n, k) + r) / 10 == Shifted(n, k - 1) + r / 10;
      UnshiftShifted(n, r / 10, k - 1);
    }
  }
}
