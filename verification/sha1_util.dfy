/** sha1_util.rb: conversion between the 20-byte binary form of a hash and
    its 40-character lower-case hexadecimal form. */
module Sha1Util {

  import opened Results
  import opened Text

  /** A Ruby binary string: every character stands for one byte. */
  predicate IsByteString(s: string) {
    forall i :: 0 <= i < |s| ==> s[i] as int < 256
  }

  predicate IsLowerHexDigit(c: char) { IsHexDigit(c) && !('A' <= c <= 'F') }

  /** 40 lower-case hexadecimal digits: the textual form of a hash. */
  predicate IsHexSha1(h: string) {
    |h| == 40 && forall i :: 0 <= i < |h| ==> IsLowerHexDigit(h[i])
  }

  /** At least 40 characters, the first 40 hexadecimal digits of either case:
      what `byte_array_sha1` reads. */
  predicate HasHexSha1Prefix(h: string) {
    |h| >= 40 && forall i :: 0 <= i < 40 ==> IsHexDigit(h[i])
  }

  /** One lower-case hexadecimal digit, as `"%02x"` prints it. */
  function HexDigit(d: nat): (c: char)
    requires d < 16
    ensures IsLowerHexDigit(c)
  {
    if d < 10 then DigitChar(d) else ('a' as int + d - 10) as char
  }

  /** The value `to_i(16)` gives a hexadecimal digit (either case). */
  function HexValue(c: char): (d: nat)
    requires IsHexDigit(c)
    ensures d < 16
  {
    if IsDigit(c) then DigitValue(c)
    else if 'a' <= c <= 'f' then c as int - 'a' as int + 10
    else c as int - 'A' as int + 10
  }

  lemma HexValueOfDigit(d: nat)
    requires d < 16
    ensures HexValue(HexDigit(d)) == d
  {
  }

  lemma HexDigitOfValue(c: char)
    requires IsLowerHexDigit(c)
    ensures HexDigit(HexValue(c)) == c
  {
  }

  /** The byte a character stands for. On a byte string this is the
      character's code; no Ruby binary string holds any other character. */
  function ByteOf(c: char): (b: nat)
    ensures b < 256
    ensures c as int < 256 ==> b == c as int
  {
    c as int % 256
  }

  /** `hex_string_sha1`: every byte becomes two lower-case hexadecimal digits,
      high nibble first. */
  function HexStringSha1(b: string): (h: string)
    ensures |h| == 2 * |b|
    ensures forall i :: 0 <= i < |h| ==> IsLowerHexDigit(h[i])
    ensures forall i :: 0 <= i < |b| ==>
      IsHexDigit(h[2 * i]) && IsHexDigit(h[2 * i + 1]) && 16 * HexValue(h[2 * i]) + HexValue(h[2 * i + 1]) == ByteOf(b[i])
  {
    var h := seq(2 * |b|, j requires 0 <= j < 2 * |b| =>
      if j % 2 == 0 then HexDigit(ByteOf(b[j / 2]) / 16) else HexDigit(ByteOf(b[j / 2]) % 16));
    assert forall i :: 0 <= i < |b| ==> 16 * HexValue(h[2 * i]) + HexValue(h[2 * i + 1]) == ByteOf(b[i]) by {
      forall i | 0 <= i < |b|
        ensures 16 * HexValue(h[2 * i]) + HexValue(h[2 * i + 1]) == ByteOf(b[i])
      {
        assert (2 * i) / 2 == i && (2 * i + 1) / 2 == i;
        HexValueOfDigit(ByteOf(b[i]) / 16);
        HexValueOfDigit(ByteOf(b[i]) % 16);
      }
    }
    h
  }

  /** The byte two hexadecimal digits stand for. */
  function PairByte(hi: char, lo: char): (c: char)
    requires IsHexDigit(hi) && IsHexDigit(lo)
    ensures c as int < 256
  {
    (16 * HexValue(hi) + HexValue(lo)) as char
  }

  /** `byte_array_sha1`: the first 40 characters, read as 20 pairs of
      hexadecimal digits, become 20 bytes. */
  function ByteArraySha1(h: string): (b: string)
    requires HasHexSha1Prefix(h)
    ensures |b| == 20 && IsByteString(b)
    ensures forall i :: 0 <= i < 20 ==> b[i] as int == 16 * HexValue(h[2 * i]) + HexValue(h[2 * i + 1])
  {
    seq(20, i requires 0 <= i < 20 => PairByte(h[2 * i], h[2 * i + 1]))
  }

  /** Reading back the hexadecimal form of 20 bytes gives those bytes. */
  lemma ByteArrayOfHexString(b: string)
    requires |b| == 20 && IsByteString(b)
    ensures ByteArraySha1(HexStringSha1(b)) == b
  {
    var h := HexStringSha1(b);
    assert forall i :: 0 <= i < 40 ==> IsHexDigit(h[i]);
    var r := ByteArraySha1(h);
    assert forall i :: 0 <= i < 20 ==> r[i] as int == b[i] as int;
  }

  /** Two hexadecimal digits are determined by the byte they stand for. */
  lemma SamePairByte(a: char, b: char, c: char, d: char)
    requires IsLowerHexDigit(a) && IsLowerHexDigit(b) && IsLowerHexDigit(c) && IsLowerHexDigit(d)
    requires 16 * HexValue(a) + HexValue(b) == 16 * HexValue(c) + HexValue(d)
    ensures a == c && b == d
  {
    HexDigitOfValue(a);
    HexDigitOfValue(b);
    HexDigitOfValue(c);
    HexDigitOfValue(d);
  }

  /** Printing the bytes of a hexadecimal hash gives the hash back. */
  lemma HexStringOfByteArray(h: string)
    requires IsHexSha1(h)
    ensures HexStringSha1(ByteArraySha1(h)) == h
  {
    var b := ByteArraySha1(h);
    var r := HexStringSha1(b);
    forall i | 0 <= i < 20
      ensures r[2 * i] == h[2 * i] && r[2 * i + 1] == h[2 * i + 1]
    {
      assert b[i] as int < 256;
      assert ByteOf(b[i]) == b[i] as int == 16 * HexValue(h[2 * i]) + HexValue(h[2 * i + 1]);
      SamePairByte(r[2 * i], r[2 * i + 1], h[2 * i], h[2 * i + 1]);
    }
    forall j | 0 <= j < 40
      ensures r[j] == h[j]
    {
      if j % 2 == 0 {
        assert j == 2 * (j / 2);
      } else {
        assert j == 2 * (j / 2) + 1;
      }
    }
  }

  /** `standardized_sha1`: a 20-byte hash is printed in hexadecimal, a
      40-character one is returned as it is, any other size raises. */
  function StandardizedSha1(s: string): (r: Result<string>)
    ensures r.Success? <==> |s| == 20 || |s| == 40
    ensures r.Success? && |s| == 40 ==> r.value == s
    ensures r.Success? && |s| == 20 ==> IsHexSha1(r.value)
    ensures r.Success? && |s| == 20 && IsByteString(s) ==> ByteArraySha1(r.value) == s
    ensures r.Failure? ==> r.error == RuntimeError(">>> Invalid SHA1 size (" + Decimal(|s|) + ")")
  {
    if |s| == 20 then
      if IsByteString(s) then ByteArrayOfHexString(s); Success(HexStringSha1(s))
      else Success(HexStringSha1(s))
    else if |s| == 40 then Success(s)
    else Failure(RuntimeError(">>> Invalid SHA1 size (" + Decimal(|s|) + ")"))
  }

  /** Standardising a standardised hash changes nothing. */
  lemma StandardizedSha1Idempotent(s: string)
    requires StandardizedSha1(s).Success?
    ensures StandardizedSha1(StandardizedSha1(s).value) == StandardizedSha1(s)
  {
  }
}
