/**
 * Models of the PHP built-ins dechex and hexdec, on which the object-ID codec rests.
 */
module Hex {
  import opened PhpString

  /** A PHP integer: signed 64 bits. */
  type PhpInt = n: int | -0x8000_0000_0000_0000 <= n < 0x8000_0000_0000_0000

  /** 2^64 = 16^16: dechex prints a negative integer as its unsigned 64-bit value. */
  const TWO_TO_64: nat := 0x1_0000_0000_0000_0000

  function Pow16(k: nat): (r: nat)
    ensures r >= 1
  {
    if k == 0 then 1 else 16 * Pow16(k - 1)
  }

  predicate IsHexChar(c: char) {
    '0' <= c <= '9' || 'a' <= c <= 'f' || 'A' <= c <= 'F'
  }

  predicate IsLowerHexChar(c: char) {
    '0' <= c <= '9' || 'a' <= c <= 'f'
  }

  /** The value of one hexadecimal digit, either case. */
  function HexValue(c: char): (v: nat)
    requires IsHexChar(c)
    ensures v < 16
  {
    if c <= '9' then c as int - '0' as int
    else if c <= 'F' then c as int - 'A' as int + 10
    else c as int - 'a' as int + 10
  }

  /** The lower-case digit of a value below 16. */
  function DigitChar(v: nat): (c: char)
    requires v < 16
    ensures IsLowerHexChar(c) && HexValue(c) == v
  {
    if v < 10 then ('0' as int + v) as char else ('a' as int + v - 10) as char
  }

  /** The digits of n in base 16, lower case, without leading zeros ("0" for zero). */
  function HexDigits(n: nat): (s: string)
    ensures |s| >= 1
    ensures forall i :: 0 <= i < |s| ==> IsLowerHexChar(s[i])
    ensures n > 0 ==> s[0] != '0'
    decreases n
  {
    if n < 16 then [DigitChar(n)] else HexDigits(n / 16) + [DigitChar(n % 16)]
  }

  /** PHP's dechex on a 64-bit integer. */
  function DecHex(n: PhpInt): string {
    HexDigits(if n < 0 then n + TWO_TO_64 else n)
  }

  /** PHP's hexdec: characters that are not hexadecimal digits are skipped. */
  function HexDec(s: string): nat
    decreases |s|
  {
    if s == [] then 0
    else if IsHexChar(s[|s| - 1]) then 16 * HexDec(s[..|s| - 1]) + HexValue(s[|s| - 1])
    else HexDec(s[..|s| - 1])
  }

  /** hexdec reads back what dechex prints for a non-negative value. */
  lemma {:induction false} HexDecOfHexDigits(n: nat)
    ensures HexDec(HexDigits(n)) == n
    decreases n
  {
    var s := HexDigits(n);
    if n < 16 {
      assert s[..0] == [];
    } else {
      HexDecOfHexDigits(n / 16);
      assert s[..|s| - 1] == HexDigits(n / 16);
    }
  }

  /** A value below 16^k needs at most k digits. */
  lemma {:induction false} HexDigitsLength(n: nat, k: nat)
    requires k >= 1 && n < Pow16(k)
    ensures |HexDigits(n)| <= k
    decreases n
  {
    if n >= 16 {
      HexDigitsLength(n / 16, k - 1);
    }
  }

  lemma {:induction false} HexDecOfZeros(p: string)
    requires forall i :: 0 <= i < |p| ==> p[i] == '0' || !IsHexChar(p[i])
    ensures HexDec(p) == 0
    decreases |p|
  {
    if p != [] {
      HexDecOfZeros(p[..|p| - 1]);
    }
  }

  /** Leading zeros and non-digits do not change the value hexdec reads. */
  lemma {:induction false} HexDecSkipsZeroPrefix(p: string, s: string)
    requires forall i :: 0 <= i < |p| ==> p[i] == '0' || !IsHexChar(p[i])
    ensures HexDec(p + s) == HexDec(s)
    decreases |s|
  {
    if s == [] {
      assert p + s == p;
      HexDecOfZeros(p);
    } else {
      var s' := s[..|s| - 1];
      HexDecSkipsZeroPrefix(p, s');
      assert (p + s)[..|p + s| - 1] == p + s';
    }
  }

  /** Zero padding on the left does not change the value hexdec reads. */
  lemma HexDecOfPadded(s: string, width: nat)
    ensures HexDec(PadLeft(s, width, '0')) == HexDec(s)
  {
    if |s| < width {
      var p := Repeat('0', width - |s|);
      assert PadLeft(s, width, '0') == p + s;
      HexDecSkipsZeroPrefix(p, s);
    }
  }

  /** The ltrim(' 0') before hexdec in the decoder never changes the value read. */
  lemma HexDecOfTrimmed(s: string)
    ensures HexDec(LTrim(s, {' ', '0'})) == HexDec(s)
  {
    var r := LTrim(s, {' ', '0'});
    var p := s[..|s| - |r|];
    assert s == p + r;
    HexDecSkipsZeroPrefix(p, r);
  }
}
