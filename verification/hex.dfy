/**
 * Hexadecimal renderings used by ConfigHelper.cs: the `X8` format of the
 * checksum in `ComputeCrc32`, and `BitConverter.ToString(bytes)` with its
 * dashes removed and lower-cased in `SteamEncrypt`. Each rendering is paired
 * with a reader (`HexValue`, `DecodePairs`) that recovers what was rendered.
 */
module Hex {
  import opened Bits
  import opened TextUtil

  /** The digit for `d < 16`, upper- or lower-case. */
  function Digit(d: nat, upper: bool): (c: char)
    requires d < 16
  {
    if d < 10 then ('0' as int + d) as char
    else if upper then ('A' as int + d - 10) as char
    else ('a' as int + d - 10) as char
  }

  predicate IsHexDigit(c: char) {
    '0' <= c <= '9' || 'A' <= c <= 'F' || 'a' <= c <= 'f'
  }

  predicate IsUpperHexDigit(c: char) {
    '0' <= c <= '9' || 'A' <= c <= 'F'
  }

  predicate IsLowerHexDigit(c: char) {
    '0' <= c <= '9' || 'a' <= c <= 'f'
  }

  /** The value of one hexadecimal digit, either case. */
  function DigitValue(c: char): (d: nat)
    requires IsHexDigit(c)
    ensures d < 16
  {
    if '0' <= c <= '9' then c as int - '0' as int
    else if 'A' <= c <= 'F' then c as int - 'A' as int + 10
    else c as int - 'a' as int + 10
  }

  /** A digit reads back as the value it was written for, in the case asked for. */
  lemma DigitRoundTrip(d: nat, upper: bool)
    requires d < 16
    ensures IsHexDigit(Digit(d, upper)) && DigitValue(Digit(d, upper)) == d
    ensures upper ==> IsUpperHexDigit(Digit(d, upper))
    ensures !upper ==> IsLowerHexDigit(Digit(d, upper))
  {
  }

  function Pow16(n: nat): (p: nat)
    ensures p >= 1
  {
    if n == 0 then 1 else 16 * Pow16(n - 1)
  }

  /** The low `n` hexadecimal digits of `x`, most significant first. */
  function Fixed(x: nat, n: nat, upper: bool): (s: string)
    ensures |s| == n
  {
    if n == 0 then [] else Fixed(x / 16, n - 1, upper) + [Digit(x % 16, upper)]
  }

  predicate AllHexDigits(s: string) {
    forall i | 0 <= i < |s| :: IsHexDigit(s[i])
  }

  /** The number a string of hexadecimal digits denotes. */
  function HexValue(s: string): (v: nat)
    requires AllHexDigits(s)
  {
    if s == [] then 0 else 16 * HexValue(s[..|s| - 1]) + DigitValue(s[|s| - 1])
  }

  /** `Fixed` writes only digits of the requested case, and reads back as `x`
      when `x` fits in `n` digits. */
  lemma {:induction false} FixedRoundTrip(x: nat, n: nat, upper: bool)
    requires x < Pow16(n)
    ensures AllHexDigits(Fixed(x, n, upper))
    ensures upper ==> forall i | 0 <= i < n :: IsUpperHexDigit(Fixed(x, n, upper)[i])
    ensures HexValue(Fixed(x, n, upper)) == x
  {
    if n > 0 {
      var s := Fixed(x, n, upper);
      FixedRoundTrip(x / 16, n - 1, upper);
      DigitRoundTrip(x % 16, upper);
      assert s[..n - 1] == Fixed(x / 16, n - 1, upper);
    }
  }

  /** Leading `'0'` digits do not change the value. */
  lemma {:induction false} ValueLeadingZero(s: string)
    requires AllHexDigits(s)
    ensures AllHexDigits(['0'] + s) && HexValue(['0'] + s) == HexValue(s)
  {
    if s != [] {
      var t := ['0'] + s;
      assert t[..|t| - 1] == ['0'] + s[..|s| - 1];
      ValueLeadingZero(s[..|s| - 1]);
    }
  }

  lemma {:induction false} ValueTrimZeros(s: string)
    requires AllHexDigits(s)
    ensures AllHexDigits(TrimStartChar(s, '0'))
    ensures HexValue(TrimStartChar(s, '0')) == HexValue(s)
    decreases |s|
  {
    if s != [] && s[0] == '0' {
      var t := s[1..];
      assert AllHexDigits(t);
      assert TrimStartChar(s, '0') == TrimStartChar(t, '0');
      ValueTrimZeros(t);
      ValueLeadingZero(t);
      assert s == ['0'] + t;
    }
  }

  /** `$"{x:X8}"`: eight upper-case digits. */
  function FormatX8(x: u32): (s: string)
    ensures |s| == 8
  {
    Fixed(x, 8, true)
  }

  lemma Pow16Of8()
    ensures Pow16(8) == 0x1_0000_0000
  {
    assert Pow16(4) == 0x1_0000;
  }

  /** `FormatX8` is upper-case hexadecimal and reads back as the number. */
  lemma FormatX8RoundTrip(x: u32)
    ensures AllHexDigits(FormatX8(x))
    ensures forall i | 0 <= i < 8 :: IsUpperHexDigit(FormatX8(x)[i])
    ensures HexValue(FormatX8(x)) == x
  {
    Pow16Of8();
    FixedRoundTrip(x, 8, true);
  }

  /** One byte as two digits, high nibble first. */
  function ByteDigits(b: byte, upper: bool): (s: string)
    ensures |s| == 2
  {
    [Digit(b / 16, upper), Digit(b % 16, upper)]
  }

  /** `BitConverter.ToString(bytes)`: upper-case byte pairs joined by `'-'`. */
  function BitConverterToString(bytes: seq<byte>): string {
    if bytes == [] then []
    else if |bytes| == 1 then ByteDigits(bytes[0], true)
    else ByteDigits(bytes[0], true) + "-" + BitConverterToString(bytes[1..])
  }

  /** The byte pairs with no separators. */
  function Pairs(bytes: seq<byte>, upper: bool): (s: string)
    ensures |s| == 2 * |bytes|
  {
    if bytes == [] then [] else ByteDigits(bytes[0], upper) + Pairs(bytes[1..], upper)
  }

  /** `SteamEncrypt`'s rendering of the protected blob:
      `BitConverter.ToString(encrypted).Replace("-", "").ToLower()`. It is
      the lower-case byte pairs: two characters per byte, high nibble first,
      no separators. */
  function SteamHex(bytes: seq<byte>): (s: string)
    ensures s == Pairs(bytes, false)
    ensures |s| == 2 * |bytes|
  {
    DashesRemoved(bytes);
    PairsLowered(bytes);
    LowerAscii(RemoveChar(BitConverterToString(bytes), '-'))
  }

  /** Removing the dashes leaves the upper-case pairs. */
  lemma {:induction false} DashesRemoved(bytes: seq<byte>)
    ensures RemoveChar(BitConverterToString(bytes), '-') == Pairs(bytes, true)
  {
    if bytes != [] {
      var head := ByteDigits(bytes[0], true);
      assert '-' !in head;
      RemoveAbsentChar(head, '-');
      if |bytes| == 1 {
        assert Pairs(bytes[1..], true) == [];
      } else {
        DashesRemoved(bytes[1..]);
        RemoveCharAppend(head + "-", BitConverterToString(bytes[1..]), '-');
        RemoveCharAppend(head, "-", '-');
        assert RemoveChar("-", '-') == [];
      }
    }
  }

  /** Lower-casing the upper-case pairs gives the lower-case pairs. */
  lemma {:induction false} PairsLowered(bytes: seq<byte>)
    ensures LowerAscii(Pairs(bytes, true)) == Pairs(bytes, false)
  {
    if bytes != [] {
      PairsLowered(bytes[1..]);
      var u, l := Pairs(bytes, true), Pairs(bytes, false);
      forall i | 0 <= i < |u| ensures ToLowerAscii(u[i]) == l[i] {
        if i >= 2 {
          assert u[i] == Pairs(bytes[1..], true)[i - 2];
          assert l[i] == Pairs(bytes[1..], false)[i - 2];
          assert LowerAscii(Pairs(bytes[1..], true))[i - 2] == ToLowerAscii(Pairs(bytes[1..], true)[i - 2]);
        }
      }
    }
  }

  /** The two characters rendered for `bytes[i]`. */
  lemma {:induction false} PairsAt(bytes: seq<byte>, upper: bool, i: nat)
    requires i < |bytes|
    ensures Pairs(bytes, upper)[2 * i] == Digit(bytes[i] / 16, upper)
    ensures Pairs(bytes, upper)[2 * i + 1] == Digit(bytes[i] % 16, upper)
  {
    if i > 0 {
      PairsAt(bytes[1..], upper, i - 1);
    }
  }

  predicate AllLowerHexDigits(s: string) {
    forall i | 0 <= i < |s| :: IsLowerHexDigit(s[i])
  }

  /** Reads a string of digit pairs back into bytes. */
  function DecodePairs(s: string): (bytes: seq<byte>)
    requires |s| % 2 == 0 && AllHexDigits(s)
    ensures |bytes| == |s| / 2
  {
    if s == [] then []
    else [16 * DigitValue(s[0]) + DigitValue(s[1])] + DecodePairs(s[2..])
  }

  /** The lower-case pairs consist of lower-case digits and decode to the bytes. */
  lemma {:induction false} PairsRoundTrip(bytes: seq<byte>, upper: bool)
    ensures AllHexDigits(Pairs(bytes, upper))
    ensures !upper ==> AllLowerHexDigits(Pairs(bytes, upper))
    ensures DecodePairs(Pairs(bytes, upper)) == bytes
  {
    if bytes != [] {
      PairsRoundTrip(bytes[1..], upper);
      DigitRoundTrip(bytes[0] / 16, upper);
      DigitRoundTrip(bytes[0] % 16, upper);
      var s := Pairs(bytes, upper);
      assert s[2..] == Pairs(bytes[1..], upper);
    }
  }

  /** `SteamEncrypt`'s text is lower-case hexadecimal and determines the blob. */
  lemma SteamHexRoundTrip(bytes: seq<byte>)
    ensures AllLowerHexDigits(SteamHex(bytes))
    ensures |SteamHex(bytes)| % 2 == 0
    ensures DecodePairs(SteamHex(bytes)) == bytes
  {
    PairsRoundTrip(bytes, false);
  }
}
