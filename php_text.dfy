/**
 * The string semantics of the PHP built-ins the core relies on: `empty()` on a
 * string, `is_numeric`, the `(float)` cast, `strtolower`, `implode` and the
 * character filter `preg_replace('/[^0-9.\-]/', '', …)`.
 *
 * Numeric strings are modelled with the grammar `[+-]? (D+ ('.' D*)? | '.' D+)`;
 * PHP additionally admits surrounding whitespace and an exponent, which this
 * model leaves out.
 */
module PhpText {

  predicate IsDigit(c: char) { '0' <= c <= '9' }

  predicate AllDigits(s: string) { forall i :: 0 <= i < |s| ==> IsDigit(s[i]) }

  /** The natural number a string of decimal digits denotes. */
  function DigitsValue(s: string): nat
    requires AllDigits(s)
  {
    if |s| == 0 then 0
    else DigitsValue(s[..|s| - 1]) * 10 + (s[|s| - 1] as int - '0' as int)
  }

  function Pow10(n: nat): (p: nat)
    ensures p >= 1
  {
    if n == 0 then 1 else 10 * Pow10(n - 1)
  }

  /** PHP's `empty()` on a string: only "" and "0" are empty. */
  predicate IsEmptyString(s: string) { s == "" || s == "0" }

  /** Index of the first occurrence of `c`, or |s| when there is none. */
  function IndexOf(s: string, c: char): (k: nat)
    ensures k <= |s|
    ensures k < |s| ==> s[k] == c
    ensures forall i :: 0 <= i < k ==> s[i] != c
  {
    if |s| == 0 then 0
    else if s[0] == c then 0
    else 1 + IndexOf(s[1..], c)
  }

  function SignLength(s: string): (n: nat)
    ensures n <= |s|
  {
    if |s| > 0 && (s[0] == '+' || s[0] == '-') then 1 else 0
  }

  /** Digits with at most one decimal point, and at least one digit. */
  predicate IsUnsignedDecimal(b: string)
  {
    var p := IndexOf(b, '.');
    if p == |b| then |b| > 0 && AllDigits(b)
    else AllDigits(b[..p]) && AllDigits(b[p + 1..]) && |b| > 1
  }

  function UnsignedDecimalValue(b: string): (v: real)
    requires IsUnsignedDecimal(b)
    ensures v >= 0.0
  {
    var p := IndexOf(b, '.');
    if p == |b| then DigitsValue(b) as real
    else DigitsValue(b[..p]) as real + DigitsValue(b[p + 1..]) as real / Pow10(|b| - p - 1) as real
  }

  /** PHP's `is_numeric` on a string (without whitespace or exponent forms). */
  predicate IsNumeric(s: string)
  {
    IsUnsignedDecimal(s[SignLength(s)..])
  }

  function NumericValue(s: string): real
    requires IsNumeric(s)
  {
    var v := UnsignedDecimalValue(s[SignLength(s)..]);
    if SignLength(s) == 1 && s[0] == '-' then -v else v
  }

  /** A character that is neither a digit nor a point, and not a leading sign, rules out a number. */
  lemma NonNumericCharRulesOutNumeric(s: string, i: nat)
    requires i < |s| && !IsDigit(s[i]) && s[i] != '.'
    requires i == 0 ==> s[i] != '+' && s[i] != '-'
    ensures !IsNumeric(s)
  {
    var b := s[SignLength(s)..];
    var j := i - SignLength(s);
    assert b[j] == s[i];
    var p := IndexOf(b, '.');
    if p < |b| {
      if j < p {
        assert b[..p][j] == b[j];
      } else {
        assert b[p + 1..][j - p - 1] == b[j];
      }
    }
  }

  /** Length of the longest prefix of `s[..n]` that is a numeric string, 0 if none. */
  function NumericPrefixLength(s: string, n: nat): (k: nat)
    requires n <= |s|
    ensures k <= n
    ensures k > 0 ==> IsNumeric(s[..k])
    ensures forall m :: k < m <= n ==> !IsNumeric(s[..m])
  {
    if n == 0 then 0
    else if IsNumeric(s[..n]) then n
    else NumericPrefixLength(s, n - 1)
  }

  /**
   * PHP's `(float)` cast of a string: the value of its longest numeric prefix,
   * and 0 when it has none.
   */
  function FloatCast(s: string): (r: real)
    ensures IsNumeric(s) ==> r == NumericValue(s)
  {
    var k := NumericPrefixLength(s, |s|);
    assert s[..|s|] == s;
    if k == 0 then 0.0 else NumericValue(s[..k])
  }

  predicate IsUpperAscii(c: char) { 'A' <= c <= 'Z' }

  function LowerChar(c: char): char
  {
    if IsUpperAscii(c) then (c as int + 32) as char else c
  }

  /** `strtolower`: ASCII letters only. */
  function ToLower(s: string): (r: string)
    ensures |r| == |s|
    ensures forall i :: 0 <= i < |s| ==> r[i] == LowerChar(s[i])
  {
    if |s| == 0 then "" else [LowerChar(s[0])] + ToLower(s[1..])
  }

  /** `implode(sep, parts)`. */
  function Join(parts: seq<string>, sep: string): string
  {
    if |parts| == 0 then ""
    else if |parts| == 1 then parts[0]
    else parts[0] + sep + Join(parts[1..], sep)
  }

  /** `explode(c, s)`: the pieces of `s` between occurrences of `c`, at least one. */
  function Explode(s: string, c: char): (parts: seq<string>)
    ensures |parts| >= 1
    decreases |s|
  {
    var k := IndexOf(s, c);
    if k == |s| then [s] else [s[..k]] + Explode(s[k + 1..], c)
  }

  /** `explode` undoes `implode` when no piece holds the separator. */
  lemma {:induction false} ExplodeJoin(parts: seq<string>, c: char)
    requires |parts| >= 1
    requires forall i :: 0 <= i < |parts| ==> c !in parts[i]
    ensures Explode(Join(parts, [c]), c) == parts
  {
    if |parts| == 1 {
      assert c !in parts[0];
    } else {
      var rest := Join(parts[1..], [c]);
      var s := parts[0] + [c] + rest;
      assert c !in parts[0];
      IndexOfAfterPrefix(parts[0], c, rest);
      assert s[..|parts[0]|] == parts[0];
      assert s[|parts[0]| + 1..] == rest;
      ExplodeJoin(parts[1..], c);
    }
  }

  lemma IndexOfAfterPrefix(u: string, c: char, rest: string)
    requires c !in u
    ensures IndexOf(u + [c] + rest, c) == |u|
  {
    var s := u + [c] + rest;
    assert forall i :: 0 <= i < |u| ==> s[i] == u[i];
    assert s[|u|] == c;
  }

  predicate IsNumericChar(c: char) { IsDigit(c) || c == '.' || c == '-' }

  /** `preg_replace('/[^0-9.\-]/', '', s)`: keeps digits, '.' and '-', in order. */
  function KeepNumericChars(s: string): (r: string)
    ensures |r| <= |s|
    ensures forall i :: 0 <= i < |r| ==> IsNumericChar(r[i])
  {
    if |s| == 0 then ""
    else if IsNumericChar(s[0]) then [s[0]] + KeepNumericChars(s[1..])
    else KeepNumericChars(s[1..])
  }

  lemma {:induction false} KeepNumericCharsAppend(s: string, u: string)
    ensures KeepNumericChars(s + u) == KeepNumericChars(s) + KeepNumericChars(u)
  {
    if |s| == 0 {
      assert s + u == u;
    } else {
      assert (s + u)[1..] == s[1..] + u;
      KeepNumericCharsAppend(s[1..], u);
    }
  }

  lemma {:induction false} KeepNumericCharsOfNumericChars(s: string)
    requires forall i :: 0 <= i < |s| ==> IsNumericChar(s[i])
    ensures KeepNumericChars(s) == s
  {
    if |s| > 0 {
      KeepNumericCharsOfNumericChars(s[1..]);
    }
  }

  lemma {:induction false} KeepNumericCharsOfNoise(u: string)
    requires forall i :: 0 <= i < |u| ==> !IsNumericChar(u[i])
    ensures KeepNumericChars(u) == ""
  {
    if |u| > 0 {
      KeepNumericCharsOfNoise(u[1..]);
    }
  }
}
