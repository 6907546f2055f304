/**
 * JavaScript numbers as far as the server code observes them: the result
 * of `Number(string)` and `parseInt(string)`, and the tests
 * `Number.isInteger(x) && x > 0` applied to ids.  Values are exact
 * rationals; IEEE-754 rounding is not modelled.  Strings are read by
 * index, the way the ECMAScript grammar scans them.
 */
module JsNumber {
  import opened Wrappers
  import opened JsText

  /** A JavaScript number: finite, NaN, or an infinity. */
  datatype Num = Finite(v: real) | NaN | Infinite(negative: bool)

  predicate IsInteger(n: Num) {
    n.Finite? && n.v == n.v.Floor as real
  }

  /** `Number.isInteger(n) && n > 0`, the filter every id passes through. */
  predicate IsPositiveInteger(n: Num) {
    IsInteger(n) && n.v > 0.0
  }

  /** The value of a digit character in the given radix, if it is one. */
  function DigitValue(c: char, radix: nat): (d: Option<nat>)
    requires 2 <= radix <= 36
    ensures d.Some? ==> d.value < radix
    ensures radix == 10 ==> (d.Some? <==> '0' <= c <= '9')
  {
    var v :=
      if '0' <= c <= '9' then c as int - '0' as int
      else if 'a' <= c <= 'z' then c as int - 'a' as int + 10
      else if 'A' <= c <= 'Z' then c as int - 'A' as int + 10
      else 36;
    if v < radix then Some(v) else None
  }

  /** How many digits of `radix` follow one another from index `i`. */
  function DigitRun(s: string, i: nat, radix: nat): (n: nat)
    requires i <= |s| && 2 <= radix <= 36
    ensures i + n <= |s|
    ensures i + n == |s| || DigitValue(s[i + n], radix).None?
    decreases |s| - i
  {
    if i < |s| && DigitValue(s[i], radix).Some? then 1 + DigitRun(s, i + 1, radix) else 0
  }

  /**
   * The value of the digits of `radix` in `s[a..b]`, read left to right;
   * any other character there (a decimal point) is skipped.
   */
  function DigitsIn(s: string, a: nat, b: nat, radix: nat): nat
    requires a <= b <= |s| && 2 <= radix <= 36
    decreases b - a
  {
    if a == b then 0
    else
      match DigitValue(s[b - 1], radix)
      case Some(d) => DigitsIn(s, a, b - 1, radix) * radix + d
      case None => DigitsIn(s, a, b - 1, radix)
  }

  /** `m * 10^e` as an exact rational. */
  function Scaled(m: nat, e: int): real
    decreases if e < 0 then -e else e
  {
    if e == 0 then m as real
    else if e > 0 then Scaled(m, e - 1) * 10.0
    else Scaled(m, e + 1) / 10.0
  }

  /**
   * The exponent part `[eE][+-]?digits` of a string numeric literal, which
   * must run to the end of the string; no exponent at all is exponent 0.
   */
  function TrailingExponent(s: string, i: nat): Option<int>
    requires i <= |s|
  {
    if i == |s| then Some(0)
    else if s[i] != 'e' && s[i] != 'E' then None
    else
      var neg := i + 1 < |s| && s[i + 1] == '-';
      var d := if i + 1 < |s| && (s[i + 1] == '-' || s[i + 1] == '+') then i + 2 else i + 1;
      var n := DigitRun(s, d, 10);
      if n == 0 || d + n != |s| then None
      else
        var v: int := DigitsIn(s, d, |s|, 10);
        Some(if neg then -v else v)
  }

  /**
   * StrUnsignedDecimalLiteral other than `Infinity`, from index `b` to the
   * end: `digits [. digits?]` or `. digits`, then an optional exponent.
   */
  function UnsignedDecimalAt(s: string, b: nat): Option<real>
    requires b <= |s|
  {
    var n1 := DigitRun(s, b, 10);
    var hasPoint := b + n1 < |s| && s[b + n1] == '.';
    var f := if hasPoint then b + n1 + 1 else b + n1;
    var n2 := if hasPoint then DigitRun(s, f, 10) else 0;
    if n1 == 0 && n2 == 0 then None
    else
      match TrailingExponent(s, f + n2)
      case None => None
      case Some(e) => Some(Scaled(DigitsIn(s, b, f + n2, 10), e - n2))
  }

  /** The rest of `s` from `b` is exactly `Infinity`. */
  predicate InfinityAt(s: string, b: nat) {
    |s| == b + 8 && s[b] == 'I' && s[b + 1] == 'n' && s[b + 2] == 'f' && s[b + 3] == 'i'
    && s[b + 4] == 'n' && s[b + 5] == 'i' && s[b + 6] == 't' && s[b + 7] == 'y'
  }

  /** StrDecimalLiteral: an optional sign, then `Infinity` or an unsigned decimal. */
  function DecimalLiteral(t: string): Num {
    var neg := t != [] && t[0] == '-';
    var b := if t != [] && (t[0] == '-' || t[0] == '+') then 1 else 0;
    if InfinityAt(t, b) then Infinite(neg)
    else
      match UnsignedDecimalAt(t, b)
      case None => NaN
      case Some(r) => Finite(if neg then -r else r)
  }

  /** A `0x`/`0o`/`0b` literal: after the prefix, one or more digits of the radix and nothing else. */
  function RadixLiteral(t: string, radix: nat): Num
    requires |t| >= 2 && 2 <= radix <= 36
  {
    if |t| > 2 && DigitRun(t, 2, radix) == |t| - 2 then Finite(DigitsIn(t, 2, |t|, radix) as real) else NaN
  }

  function RadixOfPrefix(c: char): nat {
    if c == 'x' || c == 'X' then 16
    else if c == 'o' || c == 'O' then 8
    else if c == 'b' || c == 'B' then 2
    else 0
  }

  /**
   * `Number(s)` for a string (ECMAScript StringToNumber): surrounding
   * whitespace is ignored, the empty string is 0, a `0x`/`0o`/`0b` prefix
   * selects a radix (no sign allowed), and anything else must be a whole
   * decimal literal or the result is NaN.
   */
  function StringToNumber(s: string): Num {
    var t := Trim(s);
    if t == [] then Finite(0.0)
    else if |t| >= 2 && t[0] == '0' && RadixOfPrefix(t[1]) != 0 then RadixLiteral(t, RadixOfPrefix(t[1]))
    else DecimalLiteral(t)
  }

  /**
   * Global `parseInt(s)` with no radix: leading whitespace is skipped, an
   * optional sign, a `0x` prefix selects hexadecimal, then the longest run
   * of digits is read and everything after it ignored; no digit gives NaN.
   */
  function ParseInt(s: string): (n: Num)
    ensures n.NaN? || IsInteger(n)
  {
    var t := TrimStart(s);
    var neg := t != [] && t[0] == '-';
    var p := if t != [] && (t[0] == '-' || t[0] == '+') then 1 else 0;
    var hex := p + 1 < |t| && t[p] == '0' && (t[p + 1] == 'x' || t[p + 1] == 'X');
    var start := if hex then p + 2 else p;
    var radix := if hex then 16 else 10;
    var k := DigitRun(t, start, radix);
    if k == 0 then NaN
    else
      var v: int := DigitsIn(t, start, start + k, radix);
      Finite((if neg then -v else v) as real)
  }

  // Reading back what `String(n)` writes.

  /** `n` decimal digits at `a`, then the end or a non-digit: the run has length `n`. */
  lemma {:induction false} DigitRunAt(s: string, a: nat, n: nat)
    requires a + n <= |s|
    requires forall k :: a <= k < a + n ==> '0' <= s[k] <= '9'
    requires a + n == |s| || !('0' <= s[a + n] <= '9')
    ensures DigitRun(s, a, 10) == n
    decreases n
  {
    if n > 0 {
      DigitRunAt(s, a + 1, n - 1);
    }
  }

  /** The digits of `m` written at `a` run exactly up to the next non-digit. */
  lemma NatDigitsRunAt(s: string, a: nat, m: nat)
    requires At(s, a, NatDigits(m))
    requires a + |NatDigits(m)| == |s| || !('0' <= s[a + |NatDigits(m)|] <= '9')
    ensures DigitRun(s, a, 10) == |NatDigits(m)|
  {
    var ds := NatDigits(m);
    NatDigitsAreDigits(m);
    forall k | a <= k < a + |ds| ensures '0' <= s[k] <= '9' {
      AtChar(s, a, ds, k - a);
    }
    DigitRunAt(s, a, |ds|);
  }

  /** The digits of `m` written at `a` denote `m`. */
  lemma {:induction false} NatDigitsValueAt(s: string, a: nat, m: nat)
    requires At(s, a, NatDigits(m))
    ensures a + |NatDigits(m)| <= |s| && DigitsIn(s, a, a + |NatDigits(m)|, 10) == m
  {
    var ds := NatDigits(m);
    AtChar(s, a, ds, |ds| - 1);
    if m >= 10 {
      AtConcat(s, a, NatDigits(m / 10), [DigitChar(m % 10)]);
      NatDigitsValueAt(s, a, m / 10);
    }
  }

  /** What the digits of `m` written at `a` look like to a reader. */
  lemma NatDigitsAt(s: string, a: nat, m: nat)
    requires At(s, a, NatDigits(m))
    ensures a + |NatDigits(m)| <= |s|
    ensures forall k :: a <= k < a + |NatDigits(m)| ==> '0' <= s[k] <= '9'
    ensures s[a] == '0' ==> |NatDigits(m)| == 1
    ensures DigitsIn(s, a, a + |NatDigits(m)|, 10) == m
  {
    var ds := NatDigits(m);
    NatDigitsAreDigits(m);
    forall k | a <= k < a + |ds| ensures '0' <= s[k] <= '9' {
      AtChar(s, a, ds, k - a);
    }
    AtChar(s, a, ds, 0);
    NatDigitsValueAt(s, a, m);
  }

  /** Where the sign and the digits of `String(n)`, written at `i`, lie. */
  lemma SignedDigitsAt(s: string, i: nat, n: int)
    requires At(s, i, DecimalString(n))
    ensures i < |s| && (s[i] == '-' || '0' <= s[i] <= '9')
    ensures s[i] == '-' <==> n < 0
    ensures At(s, if n < 0 then i + 1 else i, NatDigits(if n < 0 then -n else n))
    ensures (if n < 0 then i + 1 else i) + |NatDigits(if n < 0 then -n else n)| == i + |DecimalString(n)|
  {
    var d := DecimalString(n);
    AtChar(s, i, d, 0);
    if n < 0 {
      AtConcat(s, i, "-", NatDigits(-n));
    }
  }

  /** Where the sign and the digits of `String(n)` lie. */
  lemma DecimalStringParts(n: int)
    ensures var s := DecimalString(n); var b := if n < 0 then 1 else 0;
      && At(s, b, NatDigits(if n < 0 then -n else n))
      && b + |NatDigits(if n < 0 then -n else n)| == |s|
  {
    var s := DecimalString(n);
    AtWhole(s);
    if n < 0 {
      AtConcat(s, 0, "-", NatDigits(-n));
    }
  }

  /** The digits of `m` that end the string read, as an unsigned decimal, as `m`. */
  lemma UnsignedDecimalOfDigits(s: string, b: nat, m: nat)
    requires At(s, b, NatDigits(m)) && b + |NatDigits(m)| == |s|
    ensures UnsignedDecimalAt(s, b) == Some(m as real)
  {
    NatDigitsRunAt(s, b, m);
    NatDigitsValueAt(s, b, m);
  }

  /** `String(n)` is a decimal literal denoting `n`. */
  lemma DecimalLiteralOfDecimal(n: int)
    ensures DecimalLiteral(DecimalString(n)) == Finite(n as real)
  {
    var s := DecimalString(n);
    var m: nat := if n < 0 then -n else n;
    var b := if n < 0 then 1 else 0;
    DecimalStringParts(n);
    UnsignedDecimalOfDigits(s, b, m);
    AtChar(s, b, NatDigits(m), 0);
  }

  lemma TrimOfDecimal(n: int)
    ensures Trim(DecimalString(n)) == DecimalString(n)
  {
    var s := DecimalString(n);
    var m: nat := if n < 0 then -n else n;
    DecimalStringParts(n);
    AtChar(s, |s| - |NatDigits(m)|, NatDigits(m), |NatDigits(m)| - 1);
    TrimStartOfClean(s);
    TrimEndOfClean(s);
  }

  /** A trimmed string with no radix prefix is read as a decimal literal. */
  lemma StringToNumberDecimal(t: string)
    requires Trim(t) == t && t != []
    requires |t| >= 2 ==> t[0] != '0'
    ensures StringToNumber(t) == DecimalLiteral(t)
  {
  }

  /** `Number(String(n))` gives the integer `n` back. */
  lemma StringToNumberOfDecimal(n: int)
    ensures StringToNumber(DecimalString(n)) == Finite(n as real)
  {
    var s := DecimalString(n);
    TrimOfDecimal(n);
    DecimalLiteralOfDecimal(n);
    StringToNumberDecimal(s);
  }

  /** `parseInt(String(n))` gives the integer `n` back. */
  lemma ParseIntOfDecimal(n: int)
    ensures ParseInt(DecimalString(n)) == Finite(n as real)
  {
    var s := DecimalString(n);
    var m: nat := if n < 0 then -n else n;
    var b := if n < 0 then 1 else 0;
    TrimStartOfClean(s);
    DecimalStringParts(n);
    NatDigitsRunAt(s, b, m);
    NatDigitsValueAt(s, b, m);
    AtChar(s, b, NatDigits(m), 0);
    if b + 1 < |s| {
      AtChar(s, b, NatDigits(m), 1);
    }
  }
}
