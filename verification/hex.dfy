/** Hexadecimal digits both ways: Python's `f'{n:0<width>X}'` formatting,
    and `int(s, 16)` on the at most two bytes that follow the `*` of an
    NMEA sentence. */
module Hexadecimal {
  import opened Bytes

  /** A hexadecimal digit in either case, as a code point. */
  predicate IsHexDigit(c: int)
  {
    ('0' as int <= c <= '9' as int) || ('A' as int <= c <= 'F' as int) || ('a' as int <= c <= 'f' as int)
  }

  /** An upper-case hexadecimal digit, as `X` formatting produces. */
  predicate IsUpperHexDigit(c: char)
  {
    ('0' <= c <= '9') || ('A' <= c <= 'F')
  }

  function DigitValue(c: int): (d: nat)
    requires IsHexDigit(c)
    ensures d < 16
  {
    if c <= '9' as int then c - '0' as int
    else if c <= 'F' as int then c - 'A' as int + 10
    else c - 'a' as int + 10
  }

  /** The upper-case digit for `d`; reading it back gives `d`. */
  function HexChar(d: nat): (c: char)
    requires d < 16
    ensures IsUpperHexDigit(c) && IsHexDigit(c as int) && DigitValue(c as int) == d
  {
    if d < 10 then ('0' as int + d) as char else ('A' as int + d - 10) as char
  }

  /** `f'{n:X}'`: the digits of `n`, most significant first, without leading zeros. */
  function HexDigits(n: nat): string
    decreases n
  {
    if n < 16 then [HexChar(n)] else HexDigits(n / 16) + [HexChar(n % 16)]
  }

  /** `f'{n:0<width>X}'`: the digits of `n`, left-padded with `0` to `width`. */
  function Hex(n: nat, width: nat): string
  {
    var d := HexDigits(n);
    if |d| < width then seq(width - |d|, _ => '0') + d else d
  }

  function Pow16(k: nat): nat
  {
    if k == 0 then 1 else 16 * Pow16(k - 1)
  }

  predicate AllHexDigits(s: string)
  {
    forall i :: 0 <= i < |s| ==> IsHexDigit(s[i] as int)
  }

  /** The number a string of hexadecimal digits denotes. */
  function HexValue(s: string): nat
    requires AllHexDigits(s)
    decreases |s|
  {
    if s == [] then 0 else 16 * HexValue(s[..|s| - 1]) + DigitValue(s[|s| - 1] as int)
  }

  lemma {:induction false} HexDigitsCorrect(n: nat, k: nat)
    ensures forall i :: 0 <= i < |HexDigits(n)| ==> IsUpperHexDigit(HexDigits(n)[i])
    ensures AllHexDigits(HexDigits(n)) && HexValue(HexDigits(n)) == n
    ensures 1 <= k && n < Pow16(k) ==> |HexDigits(n)| <= k
    decreases n
  {
    var d := HexDigits(n);
    if n < 16 {
      assert d[..0] == [];
    } else {
      var k' := if k == 0 then 0 else k - 1;
      HexDigitsCorrect(n / 16, k');
      assert d[..|d| - 1] == HexDigits(n / 16);
      if 1 <= k && n < Pow16(k) {
        assert Pow16(1) == 16;
        assert n / 16 < Pow16(k');
      }
    }
  }

  lemma {:induction false} HexValueLeadingZeros(z: nat, s: string)
    requires AllHexDigits(s)
    ensures AllHexDigits(seq(z, _ => '0') + s)
    ensures HexValue(seq(z, _ => '0') + s) == HexValue(s)
    decreases |s|
  {
    var zs: string := seq(z, _ => '0');
    if s == [] {
      assert zs + s == zs;
      ZerosValue(z);
    } else {
      var init := s[..|s| - 1];
      assert (zs + s)[..|zs + s| - 1] == zs + init;
      HexValueLeadingZeros(z, init);
    }
  }

  lemma {:induction false} ZerosValue(z: nat)
    ensures AllHexDigits(seq(z, _ => '0'))
    ensures HexValue(seq(z, _ => '0')) == 0
    decreases z
  {
    if z > 0 {
      var zs: string := seq(z, _ => '0');
      assert zs[..z - 1] == seq(z - 1, _ => '0');
      ZerosValue(z - 1);
    }
  }

  /** `f'{n:0<width>X}'` consists of upper-case digits, reads back as `n`,
      and is exactly `width` characters long whenever `n` fits in `width`
      digits. */
  lemma HexFormat(n: nat, width: nat)
    ensures forall i :: 0 <= i < |Hex(n, width)| ==> IsUpperHexDigit(Hex(n, width)[i])
    ensures AllHexDigits(Hex(n, width)) && HexValue(Hex(n, width)) == n
    ensures 1 <= width && n < Pow16(width) ==> |Hex(n, width)| == width
  {
    HexDigitsCorrect(n, width);
    var d := HexDigits(n);
    if |d| < width {
      HexValueLeadingZeros(width - |d|, d);
    }
  }

  /** Two-digit formatting of a byte is its high digit then its low digit. */
  lemma HexOfByte(v: Byte)
    ensures Hex(v, 2) == [HexChar(v / 16), HexChar(v % 16)]
  {
    if v < 16 {
      assert HexDigits(v) == [HexChar(v)];
    } else {
      assert HexDigits(v / 16) == [HexChar(v / 16)];
    }
  }

  /** ASCII white space, as `int()` strips it around a `bytes` argument. */
  predicate IsSpace(c: int)
  {
    c == 32 || 9 <= c <= 13
  }

  /** `int(s, 16)` for a `bytes` argument of at most two octets: `None` where
      Python raises `ValueError`. Surrounding white space and a sign are
      accepted, and digits of either case. */
  function ParseInt16(s: seq<Byte>): Option<int>
    requires |s| <= 2
  {
    if |s| == 1 then
      if IsHexDigit(s[0]) then Some(DigitValue(s[0])) else None
    else if |s| == 2 then
      if IsHexDigit(s[0]) && IsHexDigit(s[1]) then Some(16 * DigitValue(s[0]) + DigitValue(s[1]))
      else if IsHexDigit(s[1]) && (IsSpace(s[0]) || s[0] == '+' as int) then Some(DigitValue(s[1]))
      else if IsHexDigit(s[1]) && s[0] == '-' as int then Some(0 - DigitValue(s[1]))
      else if IsHexDigit(s[0]) && IsSpace(s[1]) then Some(DigitValue(s[0]))
      else None
    else None
  }

  /** Reading back the two upper-case digits of a byte gives the byte. */
  lemma ParseInt16OfHexByte(v: Byte)
    ensures ParseInt16([HexChar(v / 16) as int, HexChar(v % 16) as int]) == Some(v)
  {
  }

  /** A value read from two bytes is always below 256 (and above -16). */
  lemma ParseInt16Range(s: seq<Byte>)
    requires |s| <= 2
    ensures ParseInt16(s).Some? ==> -16 < ParseInt16(s).value < 256
    ensures |s| == 0 ==> ParseInt16(s).None?
  {
  }
}
