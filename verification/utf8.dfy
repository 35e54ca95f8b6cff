/**
 * UTF-8 as Python's `str.encode('utf-8')` and strict `bytes.decode('utf-8')` treat it
 * (RFC 3629): shortest forms only, no surrogate code points, nothing above U+10FFFF.
 */
module Utf8 {
  import opened Basics

  /** The bytes of one character. */
  function EncodeChar(c: char): (b: seq<byte>)
    ensures 1 <= |b| <= 4
    ensures c as int < 128 ==> b == [c as int]
  {
    var n := c as int;
    if n < 0x80 then [n]
    else if n < 0x800 then [0xC0 + n / 64, 0x80 + n % 64]
    else if n < 0x1_0000 then [0xE0 + n / 4096, 0x80 + (n / 64) % 64, 0x80 + n % 64]
    else [0xF0 + n / 262144, 0x80 + (n / 4096) % 64, 0x80 + (n / 64) % 64, 0x80 + n % 64]
  }

  /** `s.encode('utf-8')`. */
  function Encode(s: string): seq<byte>
  {
    if s == [] then [] else EncodeChar(s[0]) + Encode(s[1..])
  }

  predicate IsContinuation(b: byte)
  {
    0x80 <= b <= 0xBF
  }

  /** The allowed range of the second byte of a three-byte sequence, after lead byte `b0`. */
  predicate SecondOfThree(b0: byte, b1: byte)
  {
    if b0 == 0xE0 then 0xA0 <= b1 <= 0xBF
    else if b0 == 0xED then 0x80 <= b1 <= 0x9F
    else IsContinuation(b1)
  }

  /** The allowed range of the second byte of a four-byte sequence, after lead byte `b0`. */
  predicate SecondOfFour(b0: byte, b1: byte)
  {
    if b0 == 0xF0 then 0x90 <= b1 <= 0xBF
    else if b0 == 0xF4 then 0x80 <= b1 <= 0x8F
    else IsContinuation(b1)
  }

  /** The first character of `b` and the number of bytes it takes, or None for an invalid sequence. */
  function DecodeFirst(b: seq<byte>): (r: Option<(char, nat)>)
    requires b != []
    ensures r.Some? ==> 1 <= r.value.1 <= |b|
  {
    var b0: int := b[0];
    if b0 < 0x80 then Some((b0 as char, 1))
    else if 0xC2 <= b0 <= 0xDF then
      if |b| >= 2 && IsContinuation(b[1])
      then Some((((b0 - 0xC0) * 64 + (b[1] as int - 0x80)) as char, 2))
      else None
    else if 0xE0 <= b0 <= 0xEF then
      if |b| >= 3 && SecondOfThree(b0, b[1]) && IsContinuation(b[2])
      then Some((((b0 - 0xE0) * 4096 + (b[1] as int - 0x80) * 64 + (b[2] as int - 0x80)) as char, 3))
      else None
    else if 0xF0 <= b0 <= 0xF4 then
      if |b| >= 4 && SecondOfFour(b0, b[1]) && IsContinuation(b[2]) && IsContinuation(b[3])
      then Some((((b0 - 0xF0) * 262144 + (b[1] as int - 0x80) * 4096 + (b[2] as int - 0x80) * 64 + (b[3] as int - 0x80)) as char, 4))
      else None
    else None
  }

  /** `b.decode('utf-8')`; None where Python raises UnicodeDecodeError. */
  function Decode(b: seq<byte>): Option<string>
    decreases |b|
  {
    if b == [] then Some([])
    else
      match DecodeFirst(b)
      case None => None
      case Some((c, k)) =>
        match Decode(b[k..])
        case None => None
        case Some(rest) => Some([c] + rest)
  }

  /** On ASCII text (all that `json.dumps` writes by default), decoding undoes encoding. */
  lemma {:induction false} AsciiRoundTrip(s: string)
    requires IsAscii(s)
    ensures Decode(Encode(s)) == Some(s)
  {
    if s != [] {
      assert forall c | c in s[1..] :: c in s;
      AsciiRoundTrip(s[1..]);
      var b := Encode(s);
      assert s[0] in s;
      assert b == [s[0] as int] + Encode(s[1..]);
      assert DecodeFirst(b) == Some((s[0], 1));
      assert [s[0]] + s[1..] == s;
    }
  }
}
