/**
 * UTF-16 encoding of strings, as used by USB string descriptors (section 9.6.7
 * of the USB 2.0 specification: the string body is UTF-16LE code units).
 * A string here is a sequence of Unicode scalar values, i.e. the text a valid
 * UTF-8 `std::string` holds.
 */
module Utf16 {
  import opened Bytes

  /** The one or two UTF-16 code units of a scalar value (a surrogate pair above U+FFFF). */
  function EncodeChar(c: char): (r: seq<u16>)
    ensures 1 <= |r| <= 2
  {
    var v := c as int;
    if v < 0x1_0000 then [v]
    else [0xD800 + (v - 0x1_0000) / 0x400, 0xDC00 + (v - 0x1_0000) % 0x400]
  }

  /** `wstring_convert<codecvt_utf8_utf16<char16_t>>::from_bytes` on valid input. */
  function Encode(s: string): (r: seq<u16>)
    ensures |r| >= |s|
  {
    if s == [] then [] else EncodeChar(s[0]) + Encode(s[1..])
  }

  /** Reference decoder: surrogate pairs are combined, a lone surrogate becomes U+FFFD. */
  function Decode(u: seq<u16>): string
    decreases |u|
  {
    if u == [] then []
    else if 0xD800 <= u[0] < 0xDC00 && |u| >= 2 && 0xDC00 <= u[1] < 0xE000 then
      [(0x1_0000 + (u[0] as int - 0xD800) * 0x400 + (u[1] as int - 0xDC00)) as char] + Decode(u[2..])
    else if 0xD800 <= u[0] < 0xE000 then ['\U{FFFD}'] + Decode(u[1..])
    else [u[0] as char] + Decode(u[1..])
  }

  lemma DecodeCharPrefix(c: char, rest: seq<u16>)
    ensures Decode(EncodeChar(c) + rest) == [c] + Decode(rest)
  {
    var u := EncodeChar(c) + rest;
    var v := c as int;
    if v < 0x1_0000 {
      assert u[1..] == rest;
    } else {
      assert u[2..] == rest;
      assert 0x1_0000 + (u[0] as int - 0xD800) * 0x400 + (u[1] as int - 0xDC00) == v;
    }
  }

  /** Encoding loses nothing: decoding the code units gives the string back. */
  lemma {:induction false} DecodeEncode(s: string)
    ensures Decode(Encode(s)) == s
  {
    if s != [] {
      DecodeCharPrefix(s[0], Encode(s[1..]));
      DecodeEncode(s[1..]);
    }
  }

  /** A string without characters above U+FFFF has one code unit per character. */
  lemma {:induction false} EncodeBmpLength(s: string)
    requires forall i :: 0 <= i < |s| ==> s[i] as int < 0x1_0000
    ensures |Encode(s)| == |s|
  {
    if s != [] {
      EncodeBmpLength(s[1..]);
    }
  }

  /** The code units laid out in memory, low byte first. */
  function LeBytes(u: seq<u16>): (r: seq<u8>)
    ensures |r| == 2 * |u|
  {
    if u == [] then [] else Le16(u[0]) + LeBytes(u[1..])
  }

  /** Bytes `2k` and `2k+1` hold code unit `k`, low byte first. */
  lemma {:induction false} LeBytesAt(u: seq<u16>, k: nat)
    requires k < |u|
    ensures LeBytes(u)[2 * k] as int + 0x100 * (LeBytes(u)[2 * k + 1] as int) == u[k]
  {
    if k > 0 {
      LeBytesAt(u[1..], k - 1);
      assert LeBytes(u)[2 * k] == LeBytes(u[1..])[2 * (k - 1)];
      assert LeBytes(u)[2 * k + 1] == LeBytes(u[1..])[2 * (k - 1) + 1];
    }
  }
}
