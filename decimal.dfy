/** Decimal numerals as JavaScript reads and writes them: `parseInt(s, 10)`
    and `String(n)` for an integer `n`. */
module Decimal {
  import opened Wrappers

  predicate IsDigit(c: char) { '0' <= c <= '9' }

  predicate AllDigits(s: string) { forall i :: 0 <= i < |s| ==> IsDigit(s[i]) }

  function DigitValue(c: char): (d: nat)
    requires IsDigit(c)
    ensures d < 10
  {
    c as int - '0' as int
  }

  function DigitChar(d: nat): (c: char)
    requires d < 10
    ensures IsDigit(c) && DigitValue(c) == d
  {
    ('0' as int + d) as char
  }

  /** The characters ECMAScript's StrWhiteSpaceChar admits: WhiteSpace
      (tab, vertical tab, form feed, the Zs space separators, NBSP and the
      byte-order mark) and LineTerminator (LF, CR, LS, PS). */
  predicate IsJsSpace(c: char) {
    var n := c as int;
    n == 0x09 || n == 0x0A || n == 0x0B || n == 0x0C || n == 0x0D || n == 0x20
    || n == 0xA0 || n == 0x1680 || (0x2000 <= n <= 0x200A) || n == 0x2028
    || n == 0x2029 || n == 0x202F || n == 0x205F || n == 0x3000 || n == 0xFEFF
  }

  predicate AllSpace(s: string) { forall i :: 0 <= i < |s| ==> IsJsSpace(s[i]) }

  /** The string without its leading white space. */
  function TrimStart(s: string): (t: string)
    ensures |t| <= |s| && t == s[|s| - |t|..]
    ensures AllSpace(s[..|s| - |t|])
    ensures t == [] || !IsJsSpace(t[0])
  {
    if s != [] && IsJsSpace(s[0]) then TrimStart(s[1..]) else s
  }

  /** The longest prefix of `s` made of decimal digits. */
  function DigitPrefix(s: string): (p: string)
    ensures p <= s && AllDigits(p)
    ensures |p| == |s| || !IsDigit(s[|p|])
  {
    if s != [] && IsDigit(s[0]) then [s[0]] + DigitPrefix(s[1..]) else []
  }

  /** The number a string of decimal digits denotes (most significant first). */
  function DigitsValue(ds: string): nat
    requires AllDigits(ds)
  {
    if ds == [] then 0 else 10 * DigitsValue(ds[..|ds| - 1]) + DigitValue(ds[|ds| - 1])
  }

  /** The string after one leading sign character, if there is one. */
  function Unsigned(t: string): string {
    if t != [] && (t[0] == '-' || t[0] == '+') then t[1..] else t
  }

  /** `parseInt(s, 10)`: skip leading white space, read an optional sign and
      then the longest run of decimal digits; anything after them is ignored.
      No digit at all gives NaN, here `None`. */
  function ParseInt(s: string): (r: Option<int>)
    ensures var u := Unsigned(TrimStart(s));
      r.None? <==> u == [] || !IsDigit(u[0])
  {
    var t := TrimStart(s);
    var ds := DigitPrefix(Unsigned(t));
    var v: int := DigitsValue(ds);
    if ds == [] then None
    else if t[0] == '-' then Some(-v)
    else Some(v)
  }

  /** The decimal digits of a natural number, without leading zeros. */
  function NatString(n: nat): (s: string)
    ensures |s| >= 1 && AllDigits(s)
    ensures s[0] == '0' <==> n == 0
    ensures |s| > 1 ==> n >= 10
  {
    if n < 10 then [DigitChar(n)] else NatString(n / 10) + [DigitChar(n % 10)]
  }

  /** `String(n)` for an integer `n`: a minus sign for a negative number, then
      its digits. */
  function DecimalString(n: int): (s: string)
    ensures s != [] && (s[0] == '-' || IsDigit(s[0]))
    ensures s[0] == '-' <==> n < 0
    ensures |s| > 1 && s[0] != '-' ==> s[0] != '0'
    ensures n < 0 ==> |s| > 1 && s[1] != '0'
  {
    if n < 0 then "-" + NatString(-n) else NatString(n)
  }

  lemma {:induction false} NatStringValue(n: nat)
    ensures DigitsValue(NatString(n)) == n
  {
    if n >= 10 {
      var s := NatString(n);
      assert s[..|s| - 1] == NatString(n / 10);
      NatStringValue(n / 10);
    }
  }

  lemma {:induction false} DigitPrefixStops(ds: string, rest: string)
    requires AllDigits(ds)
    requires rest == [] || !IsDigit(rest[0])
    ensures DigitPrefix(ds + rest) == ds
  {
    if ds != [] {
      assert (ds + rest)[1..] == ds[1..] + rest;
      DigitPrefixStops(ds[1..], rest);
    }
  }

  lemma {:induction false} TrimStartSkips(ws: string, t: string)
    requires AllSpace(ws)
    requires t == [] || !IsJsSpace(t[0])
    ensures TrimStart(ws + t) == t
  {
    if ws != [] {
      assert (ws + t)[1..] == ws[1..] + t;
      TrimStartSkips(ws[1..], t);
    }
  }

  /** Reading back what `String(n)` writes, behind any white space and in
      front of anything that is not a digit, gives `n` again. */
  lemma ParseIntDecimal(ws: string, n: int, rest: string)
    requires AllSpace(ws)
    requires rest == [] || !IsDigit(rest[0])
    ensures ParseInt(ws + DecimalString(n) + rest) == Some(n)
  {
    var t := DecimalString(n) + rest;
    var m: nat := if n < 0 then -n else n;
    SignedDigits(n, rest);
    assert ws + DecimalString(n) + rest == ws + t;
    TrimStartSkips(ws, t);
    DigitPrefixStops(NatString(m), rest);
    NatStringValue(m);
    ParseIntOf(ws + t, t, NatString(m), m);
  }

  /** `String(n)` is a sign for a negative `n`, then the digits of its magnitude. */
  lemma SignedDigits(n: int, rest: string)
    ensures var t := DecimalString(n) + rest;
      t != [] && !IsJsSpace(t[0]) && (t[0] == '-' <==> n < 0)
      && Unsigned(t) == NatString(if n < 0 then -n else n) + rest
  {
    var t := DecimalString(n) + rest;
    var digits := NatString(if n < 0 then -n else n);
    assert IsDigit(digits[0]);
    if n < 0 {
      assert t == "-" + (digits + rest);
    } else {
      assert t == digits + rest;
    }
  }

  lemma ParseIntOf(s: string, t: string, digits: string, m: nat)
    requires TrimStart(s) == t && t != []
    requires digits != [] && DigitPrefix(Unsigned(t)) == digits && DigitsValue(digits) == m
    ensures ParseInt(s) == Some(if t[0] == '-' then -(m as int) else m)
  {
  }

  lemma ParseDecimalString(n: int)
    ensures ParseInt(DecimalString(n)) == Some(n)
  {
    var s := DecimalString(n);
    assert AllSpace([]);
    assert [] + s + [] == s;
    ParseIntDecimal([], n, []);
  }

  /** Distinct integers have distinct decimal strings. */
  lemma DecimalStringInjective(a: int, b: int)
    ensures DecimalString(a) == DecimalString(b) ==> a == b
  {
    if DecimalString(a) == DecimalString(b) {
      ParseDecimalString(a);
      ParseDecimalString(b);
    }
  }

  lemma AllDecimalStringsDistinct()
    ensures forall a, b :: DecimalString(a) == DecimalString(b) ==> a == b
  {
    forall a, b ensures DecimalString(a) == DecimalString(b) ==> a == b {
      DecimalStringInjective(a, b);
    }
  }
}
