/**
  `hash_to_hex` of the xxHash hasher: a `uint64_t` digest rendered with
  `std::hex`, `std::setw(16)` and `std::setfill('0')`.
 */
module HexEncoding {
  import opened Bytes

  /** The digits `std::hex` uses; lower case unless `std::uppercase` is set. */
  const HexDigits: string := "0123456789abcdef"

  /** Width `std::setw(16)` pads to: enough for every 64-bit value. */
  const DigestWidth: nat := 16

  predicate IsLowerHexDigit(c: char) {
    '0' <= c <= '9' || 'a' <= c <= 'f'
  }

  predicate IsLowerHex(s: string) {
    forall i :: 0 <= i < |s| ==> IsLowerHexDigit(s[i])
  }

  function DigitChar(d: nat): (c: char)
    requires d < 16
    ensures IsLowerHexDigit(c)
    ensures DigitValue(c) == d
  {
    HexDigits[d]
  }

  /** The value of one lower-case hexadecimal digit. */
  function DigitValue(c: char): (d: nat)
    requires IsLowerHexDigit(c)
    ensures d < 16
  {
    if c <= '9' then c as int - '0' as int else c as int - 'a' as int + 10
  }

  function Pow16(n: nat): (r: nat)
    ensures r > 0
  {
    if n == 0 then 1 else 16 * Pow16(n - 1)
  }

  /** Reads `s` as a big-endian base-16 numeral. */
  function HexValue(s: string): (v: nat)
    requires IsLowerHex(s)
    ensures v < Pow16(|s|)
  {
    if |s| == 0 then 0
    else HexValue(s[..|s| - 1]) * 16 + DigitValue(s[|s| - 1])
  }

  /** The low `width` base-16 digits of `x`, most significant first. */
  function FixedHex(x: nat, width: nat): (r: string)
    ensures |r| == width
    ensures IsLowerHex(r)
    ensures x < Pow16(width) ==> HexValue(r) == x
  {
    if width == 0 then ""
    else
      var r := FixedHex(x / 16, width - 1) + [DigitChar(x % 16)];
      assert r[..width - 1] == FixedHex(x / 16, width - 1);
      r
  }

  /** `hash_to_hex`: the digest as exactly sixteen lower-case hex digits. */
  function HashToHex(h: u64): (r: string)
    ensures |r| == DigestWidth
    ensures IsLowerHex(r)
    ensures HexValue(r) == h
  {
    Pow16IsU64Bound();
    FixedHex(h, DigestWidth)
  }

  lemma {:induction false} Pow16Twice(n: nat)
    ensures Pow16(2 * n) == Pow256(n)
  {
    if n > 0 {
      Pow16Twice(n - 1);
      assert Pow16(2 * n) == 16 * 16 * Pow16(2 * (n - 1));
    }
  }

  lemma Pow16IsU64Bound()
    ensures Pow16(DigestWidth) == U64Bound
  {
    Pow16Twice(U64Size);
    U64BoundIsPow256();
  }

  /** Distinct digests give distinct strings, so the string is a faithful table key. */
  lemma HashToHexInjective(a: u64, b: u64)
    ensures HashToHex(a) == HashToHex(b) <==> a == b
  {
  }

  /** What `oss << std::hex << x` writes with no width set: no leading zeros, "0" for zero. */
  function StreamHex(x: nat): (r: string)
  {
    if x < 16 then [DigitChar(x)] else StreamHex(x / 16) + [DigitChar(x % 16)]
  }

  /** What `std::setw(width)` with fill `fill` does to a shorter field: pads it on the left. */
  function PadLeft(s: string, width: nat, fill: char): (r: string)
  {
    if |s| >= width then s else seq(width - |s|, _ => fill) + s
  }

  lemma {:induction false} StreamHexLength(x: nat, width: nat)
    requires 1 <= width
    requires x < Pow16(width)
    ensures 1 <= |StreamHex(x)| <= width
  {
    if x >= 16 {
      StreamHexLength(x / 16, width - 1);
    }
  }

  lemma {:induction false} FixedHexOfZero(width: nat)
    ensures FixedHex(0, width) == seq(width, _ => '0')
  {
    if width > 0 {
      FixedHexOfZero(width - 1);
    }
  }

  /** Padding then appending a digit is appending then padding to one more place. */
  lemma PadLeftAppend(s: string, width: nat, fill: char, c: char)
    requires |s| <= width
    ensures PadLeft(s, width, fill) + [c] == PadLeft(s + [c], width + 1, fill)
  {
    var pad := seq(width - |s|, _ => fill);
    assert PadLeft(s, width, fill) == pad + s;
    assert PadLeft(s + [c], width + 1, fill) == pad + (s + [c]);
  }

  /** A single digit: the fixed rendering is that digit behind `width - 1` zeros. */
  lemma FixedHexOfDigit(x: nat, width: nat)
    requires 1 <= width
    requires x < 16
    ensures FixedHex(x, width) == PadLeft(StreamHex(x), width, '0')
  {
    assert x / 16 == 0 && x % 16 == x;
    FixedHexOfZero(width - 1);
  }

  lemma {:induction false} FixedHexIsPaddedStreamHex(x: nat, width: nat)
    requires 1 <= width
    requires x < Pow16(width)
    ensures FixedHex(x, width) == PadLeft(StreamHex(x), width, '0')
  {
    if x < 16 {
      FixedHexOfDigit(x, width);
    } else {
      var d := DigitChar(x % 16);
      StreamHexLength(x / 16, width - 1);
      FixedHexIsPaddedStreamHex(x / 16, width - 1);
      PadLeftAppend(StreamHex(x / 16), width - 1, '0', d);
    }
  }

  /**
    The fixed-width digit string is exactly the stream rendering padded on
    the left with '0' to sixteen characters.
   */
  lemma HashToHexIsPaddedStreamHex(h: u64)
    ensures HashToHex(h) == PadLeft(StreamHex(h), DigestWidth, '0')
  {
    Pow16IsU64Bound();
    FixedHexIsPaddedStreamHex(h, DigestWidth);
  }
}
