/**
 Integers as text: the C library's base-0 scanner behind std::stoull, std::stoll and std::stoul,
 the printers behind std::to_string and the stream manipulators, and why they are inverse.
 */
module NumberText {
  import opened Types

  predicate IsSpace(c: char) {
    c == ' ' || c == '\t' || c == '\n' || c == '\U{B}' || c == '\U{C}' || c == '\r'
  }

  /** The value of an alphanumeric character as a digit, or -1. */
  function DigitOf(c: char): (v: int)
    ensures -1 <= v < 36
  {
    if '0' <= c <= '9' then c as int - '0' as int
    else if 'a' <= c <= 'z' then c as int - 'a' as int + 10
    else if 'A' <= c <= 'Z' then c as int - 'A' as int + 10
    else -1
  }

  predicate IsDigit(c: char, base: nat) {
    0 <= DigitOf(c) < base
  }

  predicate AllDigits(s: string, base: nat) {
    forall i :: 0 <= i < |s| ==> IsDigit(s[i], base)
  }

  /** The length of the longest prefix of digits. */
  function DigitRun(s: string, base: nat): (n: nat)
    ensures n <= |s| && AllDigits(s[..n], base)
    ensures n < |s| ==> !IsDigit(s[n], base)
  {
    if s == [] || !IsDigit(s[0], base) then 0
    else 1 + DigitRun(s[1..], base)
  }

  function DigitsValue(s: string, base: nat): nat
    requires AllDigits(s, base)
  {
    if s == [] then 0
    else DigitsValue(s[..|s| - 1], base) * base + DigitOf(s[|s| - 1])
  }

  function SkipSpaces(s: string): (t: string)
    ensures |t| <= |s| && (t != [] ==> !IsSpace(t[0]))
  {
    if s != [] && IsSpace(s[0]) then SkipSpaces(s[1..]) else s
  }

  datatype Scanned = Scanned(negative: bool, magnitude: nat)

  /** The base the prefix announces and the text its digits are read from. */
  function DetectBase(s: string): (nat, string) {
    if |s| >= 3 && s[0] == '0' && (s[1] == 'x' || s[1] == 'X') && IsDigit(s[2], 16) then (16, s[2..])
    else if s != [] && s[0] == '0' then (8, s)
    else (10, s)
  }

  /** Base 0: leading spaces, a sign, a base prefix, then as many digits as there are; the rest is ignored. */
  function ScanInteger(text: string): Option<Scanned> {
    var t := SkipSpaces(text);
    var signed := t != [] && (t[0] == '-' || t[0] == '+');
    var (base, body) := DetectBase(if signed then t[1..] else t);
    var n := DigitRun(body, base);
    if n == 0 then None
    else Some(Scanned(signed && t[0] == '-', DigitsValue(body[..n], base)))
  }

  /** std::stoull: a minus sign negates modulo 2^64; None where it throws. */
  function ParseU64(text: string): Option<u64> {
    match ScanInteger(text)
    case None => None
    case Some(Scanned(negative, m)) =>
      if m >= 0x1_0000_0000_0000_0000 then None
      else Some(if negative && m > 0 then 0x1_0000_0000_0000_0000 - m else m)
  }

  /** std::stoll; None where it throws. */
  function ParseI64(text: string): Option<i64> {
    match ScanInteger(text)
    case None => None
    case Some(Scanned(negative, m)) =>
      if negative then if m <= 0x8000_0000_0000_0000 then Some(0 as int - m) else None
      else if m < 0x8000_0000_0000_0000 then Some(m) else None
  }

  // ----- Printing -----

  function DigitChar(v: nat): (c: char)
    requires v < 36
    ensures DigitOf(c) == v
    ensures v == 0 <==> c == '0'
  {
    if v < 10 then '0' + v as char else 'A' + (v - 10) as char
  }

  lemma Grows(q: nat, base: nat)
    requires base >= 2
    ensures q * base >= 2 * q
  {
  }

  lemma Quotient(n: nat, base: nat)
    requires base >= 2
    ensures n >= base ==> 0 <= n / base < n
    ensures n / base * base + n % base == n && 0 <= n % base < base
  {
    var q := n / base;
    assert q * base + n % base == n;
    Grows(q, base);
  }

  function ToBase(n: nat, base: nat): (s: string)
    requires 2 <= base <= 36
    ensures s != [] && AllDigits(s, base)
  {
    if n < base then [DigitChar(n)]
    else
      Quotient(n, base);
      var last := n % base;
      ToBase(n / base, base) + [DigitChar(last)]
  }

  function ToDecimal(n: nat): string {
    ToBase(n, 10)
  }

  function PrintI64(v: i64): string {
    var w: int := v;
    if w < 0 then "-" + ToDecimal(-w) else ToDecimal(w)
  }

  /** std::setw with a fill of zeros. */
  function PadZeros(s: string, width: nat): (padded: string)
    decreases width - |s|
  {
    if |s| >= width then s else PadZeros("0" + s, width)
  }

  // ----- Printing and scanning are inverse -----

  lemma {:induction false} ToBaseValue(n: nat, base: nat)
    requires 2 <= base <= 36
    ensures DigitsValue(ToBase(n, base), base) == n
  {
    if n >= base {
      Quotient(n, base);
      ToBaseValue(n / base, base);
      var front, last := ToBase(n / base, base), DigitChar(n % base);
      assert ToBase(n, base) == front + [last];
      assert (front + [last])[..|front|] == front;
    }
  }

  lemma {:induction false} ToBaseLeadingZero(n: nat, base: nat)
    requires 2 <= base <= 36
    ensures ToBase(n, base)[0] == '0' <==> n == 0
    ensures n == 0 ==> ToBase(n, base) == "0"
  {
    if n >= base {
      Quotient(n, base);
      ToBaseLeadingZero(n / base, base);
    }
  }

  lemma {:induction false} LeadingZeroValue(s: string, base: nat)
    requires AllDigits(s, base) && base > 0
    ensures AllDigits("0" + s, base) && DigitsValue("0" + s, base) == DigitsValue(s, base)
  {
    assert DigitOf('0') == 0;
    assert AllDigits("0" + s, base);
    if s == [] {
      assert ("0" + s)[..0] == [];
    } else {
      LeadingZeroValue(s[..|s| - 1], base);
      assert ("0" + s)[..|s|] == "0" + s[..|s| - 1];
    }
  }

  lemma {:induction false} PadZerosValue(s: string, width: nat, base: nat)
    requires AllDigits(s, base) && base > 0
    ensures AllDigits(PadZeros(s, width), base) && |PadZeros(s, width)| >= |s|
    ensures DigitsValue(PadZeros(s, width), base) == DigitsValue(s, base)
    decreases width - |s|
  {
    if |s| < width {
      LeadingZeroValue(s, base);
      PadZerosValue("0" + s, width, base);
    }
  }

  lemma {:induction false} DigitRunAll(s: string, base: nat)
    requires AllDigits(s, base)
    ensures DigitRun(s, base) == |s|
  {
    if s != [] {
      DigitRunAll(s[1..], base);
    }
  }

  /** A printed decimal is never misread as octal. */
  lemma ScanDecimal(n: nat)
    ensures ScanInteger(ToDecimal(n)) == Some(Scanned(false, n))
    ensures ScanInteger("-" + ToDecimal(n)) == Some(Scanned(true, n))
  {
    var s := ToDecimal(n);
    ToBaseValue(n, 10);
    ToBaseLeadingZero(n, 10);
    assert IsDigit(s[0], 10);
    assert ("-" + s)[1..] == s;
    assert SkipSpaces(s) == s && SkipSpaces("-" + s) == "-" + s;
    if n == 0 {
      assert s[..1] == "0" && DigitRun(s, 8) == 1;
      assert DigitsValue("0", 8) == 0 by {
        assert "0"[..0] == [];
      }
    } else {
      DigitRunAll(s, 10);
      assert s[..|s|] == s;
    }
  }

  /** Zero-padded hexadecimal behind 0x is read back whatever the padding. */
  lemma ScanPaddedHex(n: nat, width: nat)
    ensures ScanInteger("0x" + PadZeros(ToBase(n, 16), width)) == Some(Scanned(false, n))
  {
    var digits := PadZeros(ToBase(n, 16), width);
    var s := "0x" + digits;
    ToBaseValue(n, 16);
    PadZerosValue(ToBase(n, 16), width, 16);
    assert SkipSpaces(s) == s;
    assert s[2..] == digits && s[2] == digits[0];
    DigitRunAll(digits, 16);
    assert digits[..|digits|] == digits;
  }

  lemma ParsePaddedHex(v: u64, width: nat)
    ensures ParseU64("0x" + PadZeros(ToBase(v, 16), width)) == Some(v)
  {
    ScanPaddedHex(v, width);
  }

  lemma ParsePrintedU64(v: u64)
    ensures ParseU64(ToDecimal(v)) == Some(v)
  {
    ScanDecimal(v);
  }

  lemma ParsePrintedI64(v: i64)
    ensures ParseI64(PrintI64(v)) == Some(v)
  {
    var w: int := v;
    ScanDecimal(if w < 0 then -w else w);
  }

  // ----- What base 0 accepts -----

  /** Spaces by code: blank, tab, line feed, vertical tab, form feed, carriage return. */
  predicate OnlySpaces(s: string) {
    forall i :: 0 <= i < |s| ==> s[i] as int == 32 || 9 <= s[i] as int <= 13
  }

  lemma {:induction false} SkipOnlySpaces(spaces: string, rest: string)
    requires OnlySpaces(spaces) && (rest != [] ==> !IsSpace(rest[0]))
    ensures SkipSpaces(spaces + rest) == rest
  {
    if spaces == [] {
      assert spaces + rest == rest;
    } else {
      assert (spaces + rest)[1..] == spaces[1..] + rest;
      SkipOnlySpaces(spaces[1..], rest);
    }
  }

  lemma {:induction false} DigitRunStops(digits: string, rest: string, base: nat)
    requires AllDigits(digits, base) && (rest != [] ==> !IsDigit(rest[0], base))
    ensures DigitRun(digits + rest, base) == |digits|
  {
    if digits == [] {
      assert digits + rest == rest;
    } else {
      assert (digits + rest)[1..] == digits[1..] + rest;
      DigitRunStops(digits[1..], rest, base);
    }
  }

  /** The digits of a number in the base its spelling announces, and the prefix that announces it. */
  predicate Announces(prefix: string, digits: string, rest: string, base: nat) {
    && digits != [] && AllDigits(digits, base) && (rest != [] ==> !IsDigit(rest[0], base))
    && match base
       case 16 => prefix == "0x" || prefix == "0X"
       case 8 => prefix == "" && digits[0] == '0' && !HexFollows(digits, rest)
       case 10 => prefix == "" && digits[0] != '0'
       case _ => false
  }

  /** A zero that is the beginning of a hexadecimal prefix. */
  predicate HexFollows(digits: string, rest: string) {
    |digits| == 1 && |rest| >= 2 && (rest[0] == 'x' || rest[0] == 'X') && IsDigit(rest[1], 16)
  }

  lemma BaseAnnounced(prefix: string, digits: string, rest: string, base: nat)
    requires Announces(prefix, digits, rest, base)
    ensures DetectBase(prefix + digits + rest) == (base, digits + rest)
  {
    var s := prefix + digits + rest;
    if base == 16 {
      assert s[2..] == digits + rest && s[2] == digits[0];
    } else {
      assert s == digits + rest && s[0] == digits[0];
      if base == 8 && |digits| > 1 {
        assert s[1] == digits[1] && IsDigit(digits[1], 8);
      }
    }
  }

  /**
   Spaces, an optional sign, a number in decimal, in octal behind a zero or in hexadecimal behind 0x, and
   any text behind its digits: the sign and the value of the digits are read and the rest is ignored.
   */
  lemma ScanNumber(spaces: string, sign: string, prefix: string, digits: string, rest: string, base: nat)
    requires OnlySpaces(spaces) && (sign == "" || sign == "+" || sign == "-")
    requires Announces(prefix, digits, rest, base)
    ensures ScanInteger(spaces + (sign + (prefix + digits + rest)))
         == Some(Scanned(sign == "-", DigitsValue(digits, base)))
  {
    var number := prefix + digits + rest;
    var signedNumber := sign + number;
    assert IsDigit(digits[0], base);
    assert number[0] == if prefix == "" then digits[0] else '0';
    SkipOnlySpaces(spaces, signedNumber);
    assert sign == "" ==> signedNumber == number;
    assert sign != "" ==> signedNumber[1..] == number && signedNumber[0] == sign[0];
    BaseAnnounced(prefix, digits, rest, base);
    DigitRunStops(digits, rest, base);
    assert (digits + rest)[..|digits|] == digits;
  }

  /** Digits of base ten by their codes: the value is built up from left to right. */
  function DecimalByCode(s: string): int {
    if s == [] then 0 else 10 * DecimalByCode(s[..|s| - 1]) + (s[|s| - 1] as int - 48)
  }

  /** A printed number is a row of the digits 0 to 9 without a leading zero that spells the number. */
  lemma {:induction false} PrintedByCode(n: nat)
    ensures var s := ToDecimal(n);
            && s != [] && (forall i :: 0 <= i < |s| ==> 48 <= s[i] as int <= 57)
            && (|s| > 1 ==> s[0] != '0') && DecimalByCode(s) == n
  {
    ToBaseLeadingZero(n, 10);
    if n >= 10 {
      Quotient(n, 10);
      PrintedByCode(n / 10);
      ToBaseLeadingZero(n / 10, 10);
      DigitByCode(n % 10);
      var front, last := ToDecimal(n / 10), DigitChar(n % 10);
      assert ToDecimal(n) == front + [last] && (front + [last])[..|front|] == front;
    } else {
      DigitByCode(n);
      assert DecimalByCode([DigitChar(n)][..0]) == 0;
    }
  }

  /** The digits 0 to 9 and the capitals A to F. */
  predicate IsCapitalHex(c: char) {
    48 <= c as int <= 57 || 65 <= c as int <= 70
  }

  lemma {:induction false} PrintedHexByCode(n: nat)
    ensures forall i :: 0 <= i < |ToBase(n, 16)| ==> IsCapitalHex(ToBase(n, 16)[i])
  {
    if n >= 16 {
      Quotient(n, 16);
      PrintedHexByCode(n / 16);
    }
  }

  lemma {:induction false} PaddedHexByCode(s: string, width: nat)
    requires forall i :: 0 <= i < |s| ==> IsCapitalHex(s[i])
    ensures forall i :: 0 <= i < |PadZeros(s, width)| ==> IsCapitalHex(PadZeros(s, width)[i])
    decreases width - |s|
  {
    if |s| < width {
      PaddedHexByCode("0" + s, width);
    }
  }

  lemma DigitByCode(v: nat)
    requires v < 10
    ensures DigitChar(v) as int == 48 + v
  {
  }

  /** The ranges: up to 2^64 - 1 unsigned, where a minus sign counts down from 2^64, and -2^63 to 2^63 - 1 signed. */
  lemma ParseRanges(n: nat)
    ensures ParseU64(ToDecimal(n)) == if n < 0x1_0000_0000_0000_0000 then Some(n) else None
    ensures ParseU64("-" + ToDecimal(n))
         == if n == 0 then Some(0)
            else if n < 0x1_0000_0000_0000_0000 then Some(0x1_0000_0000_0000_0000 - n) else None
    ensures ParseI64(ToDecimal(n)) == if n < 0x8000_0000_0000_0000 then Some(n) else None
    ensures ParseI64("-" + ToDecimal(n)) == if n <= 0x8000_0000_0000_0000 then Some(0 as int - n) else None
  {
    ScanDecimal(n);
  }

  /** Without a digit behind spaces and sign there is no number. */
  lemma NoNumber(spaces: string, sign: string, rest: string)
    requires OnlySpaces(spaces) && (sign == "" || sign == "+" || sign == "-")
    requires rest != [] ==> !IsDigit(rest[0], 10) && !IsSpace(rest[0])
    requires sign == "" && rest != [] ==> rest[0] != '-' && rest[0] != '+'
    ensures ParseU64(spaces + (sign + rest)).None? && ParseI64(spaces + (sign + rest)).None?
  {
    var t := sign + rest;
    SkipOnlySpaces(spaces, t);
    assert sign == "" ==> t == rest;
    assert sign != "" ==> t[1..] == rest && t[0] == sign[0];
    assert rest != [] ==> rest[0] != '0' && !IsDigit(rest[0], 10);
  }
}
