/**
 * Integers as JavaScript reads and writes them in the time conversion:
 * `parseInt` (with radix 10, or with no radix) and the decimal text of an integer.
 */
module Numbers {
  import opened Wrappers

  /** Value of `c` as a digit of a radix up to 36: '0'-'9', then 'a'-'z' or 'A'-'Z'. */
  function DigitOf(c: char): Option<nat>
  {
    if '0' <= c <= '9' then Some(c as int - '0' as int)
    else if 'a' <= c <= 'z' then Some(c as int - 'a' as int + 10)
    else if 'A' <= c <= 'Z' then Some(c as int - 'A' as int + 10)
    else None
  }

  predicate IsDigitIn(c: char, radix: nat)
  {
    DigitOf(c).Some? && DigitOf(c).value < radix
  }

  predicate AllDigitsIn(s: string, radix: nat)
  {
    forall i :: 0 <= i < |s| ==> IsDigitIn(s[i], radix)
  }

  /** A non-empty run of decimal digits. */
  predicate IsDecimal(s: string)
  {
    s != "" && AllDigitsIn(s, 10)
  }

  /** The number a run of digits denotes in `radix`, most significant digit first. */
  function ValueIn(s: string, radix: nat): nat
    requires AllDigitsIn(s, radix)
    decreases |s|
  {
    if s == "" then 0
    else radix * ValueIn(s[..|s| - 1], radix) + DigitOf(s[|s| - 1]).value
  }

  function Decimal(s: string): nat
    requires AllDigitsIn(s, 10)
  {
    ValueIn(s, 10)
  }

  /** The longest prefix of `s` made of digits of `radix`. */
  function LeadingDigits(s: string, radix: nat): (z: string)
    ensures z <= s && AllDigitsIn(z, radix)
    ensures |z| < |s| ==> !IsDigitIn(s[|z|], radix)
    ensures AllDigitsIn(s, radix) ==> z == s
    decreases |s|
  {
    if s != "" && IsDigitIn(s[0], radix) then [s[0]] + LeadingDigits(s[1..], radix) else ""
  }

  function DigitChar(d: nat): (c: char)
    requires d < 10
    ensures IsDigitIn(c, 10) && DigitOf(c) == Some(d)
  {
    ('0' as int + d) as char
  }

  /** Decimal text of a natural number, as `String(n)` writes an integer: no leading zero. */
  function NatText(n: nat): (s: string)
    ensures IsDecimal(s) && Decimal(s) == n
    ensures s[0] == '0' ==> s == "0"
    decreases n
  {
    if n < 10 then
      var s := [DigitChar(n)];
      assert s[..|s| - 1] == "" && DigitOf(s[|s| - 1]) == Some(n);
      assert ValueIn(s[..|s| - 1], 10) == 0;
      s
    else
      var high := NatText(n / 10);
      var s := high + [DigitChar(n % 10)];
      assert s[..|s| - 1] == high;
      s
  }

  /** "00", the hour text midnight is written as, denotes 0. */
  lemma DoubleZero()
    ensures IsDecimal("00") && Decimal("00") == 0
  {
    assert "00"[..1] == "0" && "0"[..0] == "";
    assert ValueIn("0", 10) == 0;
  }

  /** Decimal text of an integer, with a leading '-' when it is negative. */
  function IntText(n: int): string
  {
    if n < 0 then "-" + NatText(-n) else NatText(n)
  }

  /**
   * The characters `parseInt` skips before the number: ECMAScript's WhiteSpace
   * (tab, vertical tab, form feed, byte order mark and the Unicode space separators)
   * and LineTerminator.
   */
  predicate IsJsSpace(c: char)
  {
    c == '\t' || c == '\U{B}' || c == '\U{C}' || c == ' ' || c == '\U{A0}' || c == '\U{FEFF}'
    || c == '\n' || c == '\r' || c == '\U{2028}' || c == '\U{2029}'
    || c == '\U{1680}' || ('\U{2000}' <= c <= '\U{200A}') || c == '\U{202F}' || c == '\U{205F}'
    || c == '\U{3000}'
  }

  /** `s` with its leading white space removed. */
  function TrimStart(s: string): (t: string)
    ensures t == "" || !IsJsSpace(t[0])
    ensures s == "" || !IsJsSpace(s[0]) ==> t == s
    decreases |s|
  {
    if s != "" && IsJsSpace(s[0]) then TrimStart(s[1..]) else s
  }

  /** The text after white space and an optional sign: where `parseInt` looks for digits. */
  function Unsigned(s: string): string
  {
    var t := TrimStart(s);
    if t != "" && (t[0] == '-' || t[0] == '+') then t[1..] else t
  }

  predicate IsNegative(s: string)
  {
    var t := TrimStart(s);
    t != "" && t[0] == '-'
  }

  /** The digits start with "0x" or "0X", which `parseInt` without a radix reads as hexadecimal. */
  predicate HexPrefixed(s: string)
  {
    var u := Unsigned(s);
    |u| >= 2 && u[0] == '0' && (u[1] == 'x' || u[1] == 'X')
  }

  /** A run of decimal digits has no leading space or sign and no hexadecimal prefix. */
  lemma DecimalIsUnsigned(s: string)
    ensures IsDecimal(s) ==> TrimStart(s) == s && Unsigned(s) == s
    ensures IsDecimal(s) ==> !IsNegative(s) && !HexPrefixed(s)
  {
    if IsDecimal(s) {
      assert IsDigitIn(s[0], 10);
      assert !IsJsSpace(s[0]);
      if |s| >= 2 { assert IsDigitIn(s[1], 10); }
    }
  }

  /**
   * The number `parseInt` reads from `s`, in hexadecimal after the "0x" prefix when
   * `hex` holds and in decimal otherwise; `None` is NaN.
   */
  function ParseDigits(s: string, hex: bool): (r: Option<int>)
    requires hex ==> HexPrefixed(s)
    ensures IsDecimal(s) ==> r == Some(Decimal(s))
    ensures !hex ==> (r.None? <==> Unsigned(s) == "" || !IsDigitIn(Unsigned(s)[0], 10))
    ensures r.Some? && !IsNegative(s) ==> r.value >= 0
  {
    DecimalIsUnsigned(s);
    var u := Unsigned(s);
    var z := if hex then LeadingDigits(u[2..], 16) else LeadingDigits(u, 10);
    if z == "" then None
    else
      var v: int := if hex then ValueIn(z, 16) else ValueIn(z, 10);
      if IsNegative(s) then Some(-v) else Some(v)
  }

  /**
   * `parseInt(s, 10)` when `decimalRadix` holds, `parseInt(s)` otherwise; `None` is NaN.
   * Without a radix a "0x" or "0X" prefix switches to radix 16.
   */
  function ParseInt(s: string, decimalRadix: bool): (r: Option<int>)
    ensures IsDecimal(s) ==> r == Some(Decimal(s))
    ensures decimalRadix || !HexPrefixed(s) ==>
              (r.None? <==> Unsigned(s) == "" || !IsDigitIn(Unsigned(s)[0], 10))
    ensures r.Some? && !IsNegative(s) ==> r.value >= 0
  {
    ParseDigits(s, !decimalRadix && HexPrefixed(s))
  }

  /** The two spellings of `parseInt` read every text alike except a hexadecimal one. */
  lemma ParseIntRadixIrrelevant(s: string)
    requires !HexPrefixed(s)
    ensures ParseInt(s, true) == ParseInt(s, false)
  {
  }
}
