/** Integer <-> text conversions as JavaScript performs them: the decimal
    form `String(n)` gives a safe integer, and the global `parseInt`
    called without a radix. */
module Numbers {
  import opened Wrappers
  import Strings

  predicate IsDecimalDigit(c: char) {
    '0' <= c <= '9'
  }

  predicate AllDecimalDigits(s: string) {
    forall i :: 0 <= i < |s| ==> IsDecimalDigit(s[i])
  }

  function DigitChar(d: nat): (c: char)
    requires d < 10
    ensures IsDecimalDigit(c)
  {
    ('0' as int + d) as char
  }

  /** Value of a character as a digit in bases up to 36 (`0`-`9`, then
      `a`-`z` / `A`-`Z` for 10-35); 36 marks a non-digit. */
  function DigitValue(c: char): (v: nat)
    ensures v <= 36
    ensures IsDecimalDigit(c) ==> v < 10
  {
    if '0' <= c <= '9' then c as int - '0' as int
    else if 'a' <= c <= 'z' then c as int - 'a' as int + 10
    else if 'A' <= c <= 'Z' then c as int - 'A' as int + 10
    else 36
  }

  predicate IsRadixDigit(c: char, radix: nat) {
    DigitValue(c) < radix
  }

  /** Digits of `n` in base ten, most significant first, without leading
      zeros. */
  function NatToDecimal(n: nat): (s: string)
    ensures |s| >= 1
    ensures AllDecimalDigits(s)
    ensures |s| > 1 ==> s[0] != '0'
  {
    if n < 10 then [DigitChar(n)]
    else NatToDecimal(n / 10) + [DigitChar(n % 10)]
  }

  /** `String(n)` for an integer whose decimal form JavaScript does not
      switch to exponent notation. */
  function IntToDecimal(n: int): string {
    if n < 0 then "-" + NatToDecimal(-n) else NatToDecimal(n)
  }

  /** Length of the longest prefix of `s` made of base-`radix` digits. */
  function DigitPrefixLength(s: string, radix: nat): (n: nat)
    ensures n <= |s|
    ensures forall i :: 0 <= i < n ==> IsRadixDigit(s[i], radix)
    ensures n < |s| ==> !IsRadixDigit(s[n], radix)
  {
    if |s| > 0 && IsRadixDigit(s[0], radix) then 1 + DigitPrefixLength(s[1..], radix) else 0
  }

  predicate AllRadixDigits(z: string, radix: nat) {
    forall i :: 0 <= i < |z| ==> IsRadixDigit(z[i], radix)
  }

  /** Value of a string of base-`radix` digits, most significant first. */
  function DigitsValue(z: string, radix: nat): nat
    requires AllRadixDigits(z, radix)
  {
    if z == [] then 0
    else DigitsValue(z[..|z| - 1], radix) * radix + DigitValue(z[|z| - 1])
  }

  /** The part of `parseInt` after the sign: base 16 after a `0x`/`0X`
      prefix, base 10 otherwise, reading the longest run of digits. `None`
      means there was no digit to read. */
  function ReadDigits(u: string): (r: Option<nat>)
    ensures r.Some? ==> u != [] && IsDecimalDigit(u[0])
  {
    var hex := |u| >= 2 && u[0] == '0' && (u[1] == 'x' || u[1] == 'X');
    var radix := if hex then 16 else 10;
    var digits := if hex then u[2..] else u;
    var end := DigitPrefixLength(digits, radix);
    if end == 0 then None else Some(DigitsValue(digits[..end], radix))
  }

  /** The part of `parseInt` after the leading whitespace: an optional
      sign, then the digits as `ReadDigits` reads them. */
  function ReadSigned(s: string): (r: Option<int>)
    ensures r.Some? ==> s != [] && (s[0] == '-' || s[0] == '+' || IsDecimalDigit(s[0]))
    ensures r.Some? && r.value < 0 ==> s[0] == '-'
  {
    var negative := |s| > 0 && s[0] == '-';
    var unsigned := if |s| > 0 && (s[0] == '-' || s[0] == '+') then s[1..] else s;
    match ReadDigits(unsigned)
    case None => None
    case Some(v) => Some(if negative then -(v as int) else v)
  }

  /** The global `parseInt(string)` with no radix argument, on a string
      that is already the result of `ToString`: skip leading whitespace,
      then read as `ReadSigned` does. `None` is `NaN`. Negative zero is
      identified with zero. */
  function ParseInt(input: string): (r: Option<int>)
    ensures r.Some? ==>
              var s := Strings.TrimStart(input);
              s != [] && (s[0] == '-' || s[0] == '+' || IsDecimalDigit(s[0]))
    ensures r.Some? && r.value < 0 ==> Strings.TrimStart(input)[0] == '-'
  {
    ReadSigned(Strings.TrimStart(input))
  }

  /** Reading back the digits `NatToDecimal` wrote gives the number. */
  lemma {:induction false} DecimalValue(n: nat)
    ensures AllRadixDigits(NatToDecimal(n), 10)
    ensures DigitsValue(NatToDecimal(n), 10) == n
  {
    var s := NatToDecimal(n);
    if n >= 10 {
      DecimalValue(n / 10);
      assert s[..|s| - 1] == NatToDecimal(n / 10);
    }
  }

  /** `parseInt(String(n)) == n`: the decimal form of an integer parses
      back to the same integer. */
  lemma DecimalRoundTrip(n: int)
    ensures ParseInt(IntToDecimal(n)) == Some(n)
  {
    var m := if n < 0 then -n else n;
    var d := NatToDecimal(m);
    DecimalValue(m);
    var s := IntToDecimal(n);
    assert !Strings.IsWhiteSpace(s[0]);
    assert Strings.TrimStart(s) == s;
    var unsigned := if n < 0 then s[1..] else s;
    assert unsigned == d;
    assert !(|d| >= 2 && d[0] == '0');
    assert DigitPrefixLength(d, 10) == |d|;
    assert d[..|d|] == d;
  }

  /** A string that starts with a character that is neither whitespace, a
      sign nor a decimal digit parses to `NaN`. */
  lemma ParseIntNoDigit(s: string)
    requires |s| > 0 && !Strings.IsWhiteSpace(s[0]) && s[0] != '-' && s[0] != '+'
    requires DigitValue(s[0]) >= 10
    ensures ParseInt(s) == None
  {
    assert Strings.TrimStart(s) == s;
  }

  /** Only the leading run of digits counts: whatever follows it, and any
      whitespace before it, does not change the result. */
  lemma ParseIntPrefix(ws: string, d: string, rest: string)
    requires Strings.AllWhiteSpace(ws)
    requires 1 <= |d| && AllDecimalDigits(d)
    requires rest == [] || (!IsRadixDigit(rest[0], 10) && (d == "0" ==> rest[0] != 'x' && rest[0] != 'X'))
    ensures AllRadixDigits(d, 10)
    ensures ParseInt(ws + d + rest) == Some(DigitsValue(d, 10))
  {
    assert AllRadixDigits(d, 10) by {
      forall i | 0 <= i < |d| ensures IsRadixDigit(d[i], 10) {
        assert IsDecimalDigit(d[i]);
      }
    }
    var t := d + rest;
    TrimStartOfPrefix(ws, d, rest);
    TrimStartOfPrefix([], d, rest);
    assert [] + d + rest == t;
    ParseIntDependsOnTrimStart(ws + d + rest, t);
    assert t[0] == d[0];
    assert |t| >= 2 && t[0] == '0' ==> t[1] != 'x' && t[1] != 'X' by {
      if |t| >= 2 && t[0] == '0' {
        if |d| >= 2 {
          assert t[1] == d[1];
        } else {
          assert d == [t[0]] == "0";
          assert t[1] == rest[0];
        }
      }
    }
    DigitPrefixOfConcat(d, rest, 10);
    ParseIntUnsignedDecimal(t);
    assert t[..|d|] == d;
  }

  /** The decimal form of `k` followed by text that does not continue the
      number parses back to `k`. */
  lemma DecimalThenText(k: nat, rest: string)
    requires rest == [] || (!IsRadixDigit(rest[0], 10) && (k == 0 ==> rest[0] != 'x' && rest[0] != 'X'))
    ensures ParseInt(IntToDecimal(k) + rest) == Some(k)
  {
    var d := IntToDecimal(k);
    DecimalValue(k);
    assert d == "0" ==> k == 0 by {
      if d == "0" {
        assert d[..0] == [];
      }
    }
    ReadDecimalDigits(d, rest);
    assert (d + rest)[0] == d[0];
    ParseIntUnsignedText([], d + rest);
    assert [] + (d + rest) == d + rest;
  }

  /** `parseInt` reads nothing before the first non-whitespace character. */
  lemma ParseIntDependsOnTrimStart(a: string, b: string)
    requires Strings.TrimStart(a) == Strings.TrimStart(b)
    ensures ParseInt(a) == ParseInt(b)
  {
  }

  /** Unsigned decimal text that does not start with `0x` or `0X` reads as its leading run
      of digits. */
  lemma ParseIntUnsignedDecimal(t: string)
    requires t != [] && IsDecimalDigit(t[0]) && Strings.TrimStart(t) == t
    requires |t| >= 2 && t[0] == '0' ==> t[1] != 'x' && t[1] != 'X'
    ensures var n := DigitPrefixLength(t, 10);
            AllRadixDigits(t[..n], 10) && ParseInt(t) == Some(DigitsValue(t[..n], 10))
  {
    var n := DigitPrefixLength(t, 10);
    assert AllRadixDigits(t[..n], 10) by {
      forall i | 0 <= i < n ensures IsRadixDigit(t[..n][i], 10) {
        assert t[..n][i] == t[i];
      }
    }
    assert t[0] != '-' && t[0] != '+';
    var hex := |t| >= 2 && t[0] == '0' && (t[1] == 'x' || t[1] == 'X');
    assert !hex;
  }

  lemma TrimStartOfPrefix(ws: string, d: string, rest: string)
    requires Strings.AllWhiteSpace(ws)
    requires d != [] && !Strings.IsWhiteSpace(d[0])
    ensures Strings.TrimStart(ws + d + rest) == d + rest
  {
    var t := d + rest;
    assert t[0] == d[0];
    assert ws + d + rest == ws + t;
    Strings.LeadingWhiteSpaceOfConcat(ws, t);
    assert (ws + t)[|ws|..] == t;
  }

  lemma {:induction false} DigitPrefixOfConcat(d: string, rest: string, radix: nat)
    requires AllRadixDigits(d, radix)
    requires rest == [] || !IsRadixDigit(rest[0], radix)
    ensures DigitPrefixLength(d + rest, radix) == |d|
  {
    if d != [] {
      assert (d + rest)[1..] == d[1..] + rest;
      DigitPrefixOfConcat(d[1..], rest, radix);
    } else {
      assert d + rest == rest;
    }
  }

  /** Unsigned text after leading whitespace reads as `ReadDigits` reads it. */
  lemma ParseIntUnsignedText(ws: string, u: string)
    requires Strings.AllWhiteSpace(ws)
    requires u != [] && IsDecimalDigit(u[0])
    ensures ParseInt(ws + u).Some? <==> ReadDigits(u).Some?
    ensures ReadDigits(u).Some? ==> ParseInt(ws + u).value == ReadDigits(u).value
  {
    TrimStartOfPrefix(ws, u, []);
    assert ws + u + [] == ws + u;
    assert u + [] == u;
  }

  /** After a `+` the unsigned text reads as it does alone; after a `-` it
      reads negated. */
  lemma ParseIntSignedText(ws: string, c: char, u: string)
    requires Strings.AllWhiteSpace(ws)
    requires c == '+' || c == '-'
    requires u != [] && IsDecimalDigit(u[0])
    ensures ParseInt(ws + [c] + u).Some? <==> ReadDigits(u).Some?
    ensures ReadDigits(u).Some? ==>
              ParseInt(ws + [c] + u).value == if c == '-' then -(ReadDigits(u).value as int) else ReadDigits(u).value
  {
    var t := [c] + u;
    TrimStartOfPrefix(ws, t, []);
    assert ws + t + [] == ws + [c] + u;
    assert t + [] == t;
    assert t[0] == c && t[1..] == u;
  }

  /** The sign `parseInt` may find before the digits. */
  datatype Sign = Unsigned | Plus | Minus

  function SignText(sign: Sign): string {
    match sign
    case Unsigned => ""
    case Plus => "+"
    case Minus => "-"
  }

  function Signed(sign: Sign, v: nat): int {
    if sign == Minus then -(v as int) else v
  }

  /** Whatever the sign, the unsigned text after it reads as `ReadDigits`
      reads it, negated after a `-`. */
  lemma ParseIntWithSign(ws: string, sign: Sign, u: string)
    requires Strings.AllWhiteSpace(ws)
    requires u != [] && IsDecimalDigit(u[0])
    ensures ParseInt(ws + SignText(sign) + u).Some? <==> ReadDigits(u).Some?
    ensures ReadDigits(u).Some? ==> ParseInt(ws + SignText(sign) + u).value == Signed(sign, ReadDigits(u).value)
  {
    if sign == Unsigned {
      assert ws + SignText(sign) + u == ws + u;
      ParseIntUnsignedText(ws, u);
    } else {
      var c := if sign == Plus then '+' else '-';
      assert SignText(sign) == [c];
      ParseIntSignedText(ws, c, u);
    }
  }

  /** Decimal digits not followed by another digit (nor by an `x` after a
      lone `0`) read as their value. */
  lemma ReadDecimalDigits(d: string, rest: string)
    requires 1 <= |d| && AllDecimalDigits(d)
    requires rest == [] || (!IsRadixDigit(rest[0], 10) && (d == "0" ==> rest[0] != 'x' && rest[0] != 'X'))
    ensures AllRadixDigits(d, 10)
    ensures ReadDigits(d + rest) == Some(DigitsValue(d, 10))
  {
    assert AllRadixDigits(d, 10) by {
      forall i | 0 <= i < |d| ensures IsRadixDigit(d[i], 10) {
        assert IsDecimalDigit(d[i]);
      }
    }
    var t := d + rest;
    assert t[0] == d[0];
    assert !(|t| >= 2 && t[0] == '0' && (t[1] == 'x' || t[1] == 'X')) by {
      if |t| >= 2 && t[0] == '0' {
        if |d| >= 2 {
          assert t[1] == d[1];
        } else {
          assert d == [t[0]] == "0";
          assert t[1] == rest[0];
        }
      }
    }
    DigitPrefixOfConcat(d, rest, 10);
    assert t[..|d|] == d;
  }

  lemma Regroup(a: string, b: string, c: string, d: string)
    ensures a + b + c + d == a + b + (c + d)
  {
  }

  /** A sign must be followed directly by a digit: after `+` or `-`
      nothing is skipped, so `"+"`, `"-x"` and `"+ 3"` are all `NaN`. */
  lemma ParseIntSignWithoutDigit(ws: string, sign: Sign, u: string)
    requires Strings.AllWhiteSpace(ws)
    requires sign != Unsigned
    requires u == [] || !IsDecimalDigit(u[0])
    ensures ParseInt(ws + SignText(sign) + u).None?
  {
    var c := if sign == Plus then '+' else '-';
    assert SignText(sign) == [c];
    var t := [c] + u;
    TrimStartOfPrefix(ws, t, []);
    assert ws + t + [] == ws + SignText(sign) + u;
    assert t + [] == t;
    assert t[0] == c && t[1..] == u;
  }

  /** Signed decimal text reads as its leading run of digits, negated after
      a `-`; a `+` is accepted and ignored. */
  lemma ParseIntSigned(ws: string, sign: Sign, d: string, rest: string)
    requires Strings.AllWhiteSpace(ws)
    requires 1 <= |d| && AllDecimalDigits(d)
    requires rest == [] || (!IsRadixDigit(rest[0], 10) && (d == "0" ==> rest[0] != 'x' && rest[0] != 'X'))
    ensures AllRadixDigits(d, 10)
    ensures ParseInt(ws + SignText(sign) + d + rest) == Some(Signed(sign, DigitsValue(d, 10)))
  {
    Regroup(ws, SignText(sign), d, rest);
    ReadDecimalDigits(d, rest);
    assert (d + rest)[0] == d[0];
    ParseIntWithSign(ws, sign, d + rest);
  }

  /** After `0x` or `0X` the digits are read in base 16, up to the first
      character that is not a hexadecimal digit. */
  lemma ReadHexDigits(x: char, h: string, rest: string)
    requires x == 'x' || x == 'X'
    requires 1 <= |h| && AllRadixDigits(h, 16)
    requires rest == [] || !IsRadixDigit(rest[0], 16)
    ensures ReadDigits(['0', x] + h + rest) == Some(DigitsValue(h, 16))
  {
    var digits := h + rest;
    var t := ['0', x] + h + rest;
    assert t == ['0', x] + digits && t[2..] == digits;
    DigitPrefixOfConcat(h, rest, 16);
    assert digits[..|h|] == h;
    assert DigitPrefixLength(t[2..], 16) == |h|;
  }

  /** Hexadecimal text, signed like decimal text. */
  lemma ParseIntHex(ws: string, sign: Sign, x: char, h: string, rest: string)
    requires Strings.AllWhiteSpace(ws)
    requires x == 'x' || x == 'X'
    requires 1 <= |h| && AllRadixDigits(h, 16)
    requires rest == [] || !IsRadixDigit(rest[0], 16)
    ensures ParseInt(ws + SignText(sign) + (['0', x] + h + rest)) == Some(Signed(sign, DigitsValue(h, 16)))
  {
    ReadHexDigits(x, h, rest);
    ParseIntWithSign(ws, sign, ['0', x] + h + rest);
  }

  /** A `0x` prefix with no hexadecimal digit after it is `NaN`: the `0`
      before the `x` is not read as a decimal zero. */
  lemma ParseIntHexWithoutDigits(ws: string, sign: Sign, x: char, rest: string)
    requires Strings.AllWhiteSpace(ws)
    requires x == 'x' || x == 'X'
    requires rest == [] || !IsRadixDigit(rest[0], 16)
    ensures ParseInt(ws + SignText(sign) + (['0', x] + rest)) == None
  {
    var u := ['0', x] + rest;
    assert u[2..] == rest;
    assert ReadDigits(u) == None;
    ParseIntWithSign(ws, sign, u);
  }

  /** `parseInt("0x")` is `NaN`. */
  lemma BareHexPrefixIsNaN()
    ensures ParseInt("0x") == None
  {
    ParseIntHexWithoutDigits([], Unsigned, 'x', []);
    assert [] + SignText(Unsigned) + (['0', 'x'] + []) == "0x";
  }
}
