/** Digit strings: the integer-to-text conversion a template literal performs
    on a non-negative integer, and JavaScript's `parseInt` with no radix, which
    the topics route applies to the `page` query parameter. */
module Decimal {
  import opened Wrappers

  /** The value of `ch` as a digit in any radix up to 36, or None. */
  function DigitOf(ch: char): (r: Option<nat>)
    ensures r.Some? ==> r.value < 36
    ensures r.Some? <==> ('0' <= ch <= '9' || 'a' <= ch <= 'z' || 'A' <= ch <= 'Z')
  {
    if '0' <= ch <= '9' then Some(ch as int - '0' as int)
    else if 'a' <= ch <= 'z' then Some(ch as int - 'a' as int + 10)
    else if 'A' <= ch <= 'Z' then Some(ch as int - 'A' as int + 10)
    else None
  }

  predicate IsDigitIn(ch: char, radix: nat)
  {
    DigitOf(ch).Some? && DigitOf(ch).value < radix
  }

  predicate AllDigits(s: string, radix: nat)
  {
    forall i :: 0 <= i < |s| ==> IsDigitIn(s[i], radix)
  }

  /** The number that the digit string `s` denotes in `radix`, most significant digit first. */
  function DigitsValue(s: string, radix: nat): nat
    requires AllDigits(s, radix)
  {
    if s == [] then 0
    else DigitsValue(s[..|s| - 1], radix) * radix + DigitOf(s[|s| - 1]).value
  }

  /** The decimal digit character for `d`. */
  function DigitChar(d: nat): (ch: char)
    requires d < 10
    ensures DigitOf(ch) == Some(d) && IsDigitIn(ch, 10)
  {
    ('0' as int + d) as char
  }

  /** The decimal text of `n`, as `${n}` renders a non-negative integer. */
  function NatToString(n: nat): (s: string)
    ensures 1 <= |s| && AllDigits(s, 10)
    ensures |s| > 1 ==> s[0] != '0'
  {
    if n < 10 then [DigitChar(n)] else NatToString(n / 10) + [DigitChar(n % 10)]
  }

  /** Reading the decimal text back gives the number: NatToString loses nothing. */
  lemma {:induction false} NatToStringRoundTrip(n: nat)
    ensures DigitsValue(NatToString(n), 10) == n
  {
    var s := NatToString(n);
    if n >= 10 {
      NatToStringRoundTrip(n / 10);
      assert s[..|s| - 1] == NatToString(n / 10);
    }
  }

  /** Different numbers have different texts. */
  lemma NatToStringInjective(m: nat, n: nat)
    requires NatToString(m) == NatToString(n)
    ensures m == n
  {
    NatToStringRoundTrip(m);
    NatToStringRoundTrip(n);
  }

  /** The white space `parseInt` skips before the number: ECMAScript's
      WhiteSpace and LineTerminator characters. */
  predicate IsJsSpace(ch: char)
  {
    var c := ch as int;
    c == 0x9 || c == 0xA || c == 0xB || c == 0xC || c == 0xD || c == 0x20 || c == 0xA0
    || c == 0x1680 || (0x2000 <= c <= 0x200A) || c == 0x2028 || c == 0x2029
    || c == 0x202F || c == 0x205F || c == 0x3000 || c == 0xFEFF
  }

  /** `s` without its leading white space. */
  function TrimStart(s: string): (t: string)
    ensures |t| <= |s| && t == s[|s| - |t|..]
    ensures forall i :: 0 <= i < |s| - |t| ==> IsJsSpace(s[i])
    ensures t != [] ==> !IsJsSpace(t[0])
  {
    if s != [] && IsJsSpace(s[0]) then TrimStart(s[1..]) else s
  }

  /** The longest prefix of `s` made of digits of `radix`. */
  function DigitPrefix(s: string, radix: nat): (p: string)
    ensures |p| <= |s| && p == s[..|p|]
    ensures AllDigits(p, radix)
    ensures |p| < |s| ==> !IsDigitIn(s[|p|], radix)
  {
    if s != [] && IsDigitIn(s[0], radix) then [s[0]] + DigitPrefix(s[1..], radix) else []
  }

  /** JavaScript's `parseInt(s)` with no radix argument; None stands for NaN.
      Leading white space is skipped, one sign is read, a `0x`/`0X` prefix
      selects base 16, and the longest run of digits that follows is read.
      Blank text, and text whose first non-blank character is neither a
      decimal digit nor a sign, is NaN; only a leading minus gives a
      negative number. */
  function ParseInt(s: string): (r: Option<int>)
    ensures TrimStart(s) == [] ==> r.None?
    ensures TrimStart(s) != [] && !IsDigitIn(TrimStart(s)[0], 10) && TrimStart(s)[0] != '-' && TrimStart(s)[0] != '+'
            ==> r.None?
    ensures r.Some? && r.value < 0 ==> TrimStart(s) != [] && TrimStart(s)[0] == '-'
  {
    var t := TrimStart(s);
    var sign := if t != [] && t[0] == '-' then -1 else 1;
    var u := if t != [] && (t[0] == '-' || t[0] == '+') then t[1..] else t;
    var hex := |u| >= 2 && u[0] == '0' && (u[1] == 'x' || u[1] == 'X');
    var radix := if hex then 16 else 10;
    var digits := DigitPrefix(if hex then u[2..] else u, radix);
    if digits == [] then None else Some(sign * DigitsValue(digits, radix))
  }

  /** A maximal digit run is found again behind any text that does not continue it. */
  lemma {:induction false} DigitPrefixOfDigits(d: string, rest: string, radix: nat)
    requires AllDigits(d, radix)
    requires rest == [] || !IsDigitIn(rest[0], radix)
    ensures DigitPrefix(d + rest, radix) == d
  {
    if d != [] {
      assert (d + rest)[1..] == d[1..] + rest;
      DigitPrefixOfDigits(d[1..], rest, radix);
    } else {
      assert d + rest == rest;
    }
  }

  /** Text with no leading blank, no sign and no hex prefix is read as its
      leading decimal digits. */
  lemma ParseIntUnsignedDecimal(s: string)
    requires s != [] && !IsJsSpace(s[0]) && s[0] != '-' && s[0] != '+'
    requires !(|s| >= 2 && s[0] == '0' && (s[1] == 'x' || s[1] == 'X'))
    ensures var d := DigitPrefix(s, 10);
            ParseInt(s) == if d == [] then None else Some(DigitsValue(d, 10))
  {
    assert TrimStart(s) == s;
  }

  /** The decimal text of a number, followed by text that does not start
      with a digit, starts with a decimal digit and carries no hex prefix. */
  lemma NatToStringStart(n: nat, rest: string)
    requires rest == [] || DigitOf(rest[0]).None?
    ensures var s := NatToString(n) + rest;
            s != [] && IsDigitIn(s[0], 10) && !IsJsSpace(s[0]) && s[0] != '-' && s[0] != '+'
            && !(|s| >= 2 && s[0] == '0' && (s[1] == 'x' || s[1] == 'X'))
  {
    var d := NatToString(n);
    var s := d + rest;
    assert s[0] == d[0];
    assert IsDigitIn(d[0], 10);
    if |s| >= 2 && s[0] == '0' {
      assert |d| == 1;
      assert s[1] == rest[0];
    }
  }

  /** `parseInt` reads back what `${n}` writes, whatever non-digit text follows it. */
  lemma ParseIntOfNatToString(n: nat, rest: string)
    requires rest == [] || DigitOf(rest[0]).None?
    ensures ParseInt(NatToString(n) + rest) == Some(n)
  {
    var d := NatToString(n);
    NatToStringStart(n, rest);
    ParseIntUnsignedDecimal(d + rest);
    DigitPrefixOfDigits(d, rest, 10);
    NatToStringRoundTrip(n);
  }
}
