/**
 * Conversions between numbers and strings as JavaScript performs them on the
 * paths the store uses: `parseInt(s)` with the radix omitted, and the decimal
 * text a template literal produces for a non-negative integer.
 */
module Numbers {
  import opened Wrappers

  /**
   * ECMAScript StrWhiteSpaceChar: the white space characters (tab, vertical
   * tab, form feed, the byte order mark and the Unicode space separators) and
   * the line terminators. These are what `parseInt` skips at the start.
   */
  predicate IsStrWhiteSpace(c: char)
  {
    var n := c as int;
    n == 0x09 || n == 0x0A || n == 0x0B || n == 0x0C || n == 0x0D || n == 0x20 ||
    n == 0xA0 || n == 0x1680 || (0x2000 <= n <= 0x200A) || n == 0x2028 || n == 0x2029 ||
    n == 0x202F || n == 0x205F || n == 0x3000 || n == 0xFEFF
  }

  /** The string with its leading white space removed. */
  function TrimStart(s: string): (r: string)
    ensures r == [] || !IsStrWhiteSpace(r[0])
    ensures |r| <= |s| && r == s[|s| - |r|..]
    ensures forall i :: 0 <= i < |s| - |r| ==> IsStrWhiteSpace(s[i])
    decreases |s|
  {
    if s != [] && IsStrWhiteSpace(s[0]) then TrimStart(s[1..]) else s
  }

  /** The value of `c` as a digit in any radix up to 36 (0-9, then a-z or A-Z); 36 when `c` is no digit. */
  function DigitValue(c: char): (v: nat)
    ensures v <= 36
  {
    if '0' <= c <= '9' then c as int - '0' as int
    else if 'a' <= c <= 'z' then c as int - 'a' as int + 10
    else if 'A' <= c <= 'Z' then c as int - 'A' as int + 10
    else 36
  }

  predicate IsDecimalDigit(c: char)
  {
    '0' <= c <= '9'
  }

  /** The longest prefix of `s` made of radix-`radix` digits. */
  function DigitPrefix(s: string, radix: nat): (z: string)
    ensures z <= s
    ensures forall i :: 0 <= i < |z| ==> DigitValue(z[i]) < radix
    ensures |z| < |s| ==> DigitValue(s[|z|]) >= radix
    decreases |s|
  {
    if s == [] || DigitValue(s[0]) >= radix then [] else [s[0]] + DigitPrefix(s[1..], radix)
  }

  /** The number a string of radix-`radix` digits denotes, most significant digit first. */
  function DigitsValue(z: string, radix: nat): (v: nat)
    decreases |z|
  {
    if z == [] then 0 else DigitsValue(z[..|z| - 1], radix) * radix + DigitValue(z[|z| - 1])
  }

  /**
   * What `parseInt` reads once white space and sign are gone: radix 16 after a
   * `0x` or `0X` prefix, else radix 10, then the longest run of digits; no digits is `None`.
   */
  function ParseMagnitude(u: string): (r: Option<nat>)
  {
    var hex := |u| >= 2 && u[0] == '0' && (u[1] == 'x' || u[1] == 'X');
    var radix := if hex then 16 else 10;
    var digits := DigitPrefix(if hex then u[2..] else u, radix);
    if digits == [] then None else Some(DigitsValue(digits, radix))
  }

  /** What `parseInt` reads once leading white space is gone: an optional sign, then the magnitude. */
  function ParseSigned(t: string): (r: Option<int>)
  {
    var magnitude := if t != [] && (t[0] == '-' || t[0] == '+') then ParseMagnitude(t[1..]) else ParseMagnitude(t);
    match magnitude
    case None => None
    case Some(v) => Some(if t != [] && t[0] == '-' then -(v as int) else v)
  }

  /**
   * `parseInt(s)` with the radix omitted: skip leading white space, take an
   * optional sign, then read the magnitude and ignore whatever follows it.
   * No digits gives `NaN`, here `None`; in particular an empty or
   * all-white-space string parses to `NaN`.
   */
  function ParseInt(s: string): (r: Option<int>)
    ensures (forall i :: 0 <= i < |s| ==> IsStrWhiteSpace(s[i])) ==> r == None
  {
    ParseSigned(TrimStart(s))
  }

  function DecimalDigit(d: nat): (c: char)
    requires d < 10
    ensures IsDecimalDigit(c) && DigitValue(c) == d
  {
    ('0' as int + d) as char
  }

  /** The decimal text of a non-negative integer, without leading zeros (`${n}`). */
  function DecimalString(n: nat): (s: string)
    ensures |s| >= 1
    ensures forall i :: 0 <= i < |s| ==> IsDecimalDigit(s[i])
    ensures s[0] == '0' ==> n == 0
    decreases n
  {
    if n < 10 then [DecimalDigit(n)] else DecimalString(n / 10) + [DecimalDigit(n % 10)]
  }

  /** Reading back the decimal text of `n` gives `n`. */
  lemma {:induction false} DecimalValue(n: nat)
    ensures DigitsValue(DecimalString(n), 10) == n
    decreases n
  {
    if n >= 10 {
      DecimalValue(n / 10);
      var z := DecimalString(n);
      assert z[..|z| - 1] == DecimalString(n / 10);
    }
  }

  /** A run of digits followed by a non-digit (or by nothing) is exactly what `DigitPrefix` reads. */
  lemma {:induction false} DigitPrefixOfDigits(z: string, rest: string, radix: nat)
    requires forall i :: 0 <= i < |z| ==> DigitValue(z[i]) < radix
    requires rest == [] || DigitValue(rest[0]) >= radix
    ensures DigitPrefix(z + rest, radix) == z
    decreases |z|
  {
    if z == [] {
      assert z + rest == rest;
    } else {
      assert (z + rest)[1..] == z[1..] + rest;
      DigitPrefixOfDigits(z[1..], rest, radix);
    }
  }

  /**
   * `parseInt` reads back the decimal text of a non-negative integer, whatever
   * non-digit text follows, except that `0x` or `0X` right after a lone `0`
   * is taken as a hexadecimal prefix.
   */
  lemma ParseIntDecimal(n: nat, rest: string)
    requires rest == [] || !IsDecimalDigit(rest[0])
    requires n == 0 && rest != [] ==> rest[0] != 'x' && rest[0] != 'X'
    ensures ParseInt(DecimalString(n) + rest) == Some(n)
  {
    var s := DecimalString(n) + rest;
    assert IsDecimalDigit(s[0]) by { assert s[0] == DecimalString(n)[0]; }
    TrimStartNoSpace(s);
    MagnitudeDecimal(n, rest);
    assert ParseSigned(s) == Some(n);
  }

  lemma MagnitudeDecimal(n: nat, rest: string)
    requires rest == [] || !IsDecimalDigit(rest[0])
    requires n == 0 && rest != [] ==> rest[0] != 'x' && rest[0] != 'X'
    ensures ParseMagnitude(DecimalString(n) + rest) == Some(n)
  {
    var d := DecimalString(n);
    var s := d + rest;
    if |s| >= 2 && s[0] == '0' {
      assert n == 0 && |d| == 1 && s[1] == rest[0];
    }
    assert rest == [] || DigitValue(rest[0]) >= 10;
    DigitPrefixOfDigits(d, rest, 10);
    DecimalValue(n);
  }

  /** A string that starts with neither white space, a sign nor a decimal digit parses to `NaN`. */
  lemma ParseIntNaN(s: string)
    requires s != [] && !IsStrWhiteSpace(s[0]) && s[0] != '-' && s[0] != '+' && !IsDecimalDigit(s[0])
    ensures ParseInt(s) == None
  {
    assert TrimStart(s) == s;
  }

  /** Leading white space never changes what `parseInt` reads. */
  lemma ParseIntSkipsWhiteSpace(c: char, s: string)
    requires IsStrWhiteSpace(c)
    ensures ParseInt([c] + s) == ParseInt(s)
  {
    assert ([c] + s)[1..] == s;
    assert TrimStart([c] + s) == TrimStart(s);
    assert ParseInt([c] + s) == ParseInt(s);
  }

  /**
   * A sign in front of the decimal text of `n` gives `-n` or `n`, under the
   * same conditions on the text that follows as `ParseIntDecimal`.
   */
  lemma ParseIntSigned(n: nat, rest: string)
    requires rest == [] || !IsDecimalDigit(rest[0])
    requires n == 0 && rest != [] ==> rest[0] != 'x' && rest[0] != 'X'
    ensures ParseInt("-" + DecimalString(n) + rest) == Some(-(n as int))
    ensures ParseInt("+" + DecimalString(n) + rest) == Some(n)
  {
    var d := DecimalString(n) + rest;
    assert "-" + DecimalString(n) + rest == ['-'] + d;
    assert "+" + DecimalString(n) + rest == ['+'] + d;
    MagnitudeDecimal(n, rest);
    SignedOfMagnitude('-', d, n);
    SignedOfMagnitude('+', d, n);
    TrimStartNoSpace(['-'] + d);
    TrimStartNoSpace(['+'] + d);
  }

  /** A sign followed by text whose magnitude is `m` reads as `-m` or `m`. */
  lemma SignedOfMagnitude(c: char, u: string, m: nat)
    requires c == '-' || c == '+'
    requires ParseMagnitude(u) == Some(m)
    ensures ParseSigned([c] + u) == Some(if c == '-' then -(m as int) else m)
  {
    assert ([c] + u)[1..] == u;
  }

  /** A string that does not start with white space is left as it is by `TrimStart`. */
  lemma TrimStartNoSpace(s: string)
    requires s != [] && !IsStrWhiteSpace(s[0])
    ensures TrimStart(s) == s
  {
  }

  /** Example: `parseInt("12abc")` reads the leading digits and ignores the rest. */
  lemma ParseIntTrailingText()
    ensures ParseInt("12abc") == Some(12)
  {
    assert "12abc" == DecimalString(12) + "abc";
    ParseIntDecimal(12, "abc");
  }

  /** Example: `parseInt("0x1f")` switches to radix 16. */
  lemma ParseIntHex()
    ensures ParseInt("0x1f") == Some(31)
  {
    assert TrimStart("0x1f") == "0x1f" by { assert !IsStrWhiteSpace('0'); }
    MagnitudeHex();
  }

  /** Example: the magnitude part of `parseInt("0x1f")`. */
  lemma MagnitudeHex()
    ensures ParseMagnitude("0x1f") == Some(31)
  {
    assert "0x1f"[2..] == "1f";
    HexDigits();
  }

  /** Example: the hexadecimal digits `1f` denote 31. */
  lemma HexDigits()
    ensures DigitPrefix("1f", 16) == "1f"
    ensures DigitsValue("1f", 16) == 31
  {
    assert "1f"[1..] == "f";
    assert "f"[1..] == [];
    assert "1f"[..1] == "1";
    assert "1"[..0] == [];
  }

  /** Example: `parseInt("0x")` is `NaN`; the prefix is taken and no digit follows. */
  lemma ParseIntBareHexPrefix()
    ensures ParseInt("0x") == None
  {
    assert TrimStart("0x") == "0x";
    assert "0x"[2..] == [];
  }
}
