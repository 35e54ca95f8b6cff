/**
 * Base64 as Python's `base64` module implements it (RFC 4648 section 4, and the URL- and
 * filename-safe alphabet of section 5). The vault uses the standard alphabet for the outer
 * layer of every blob (`base64.b64encode` / `b64decode`); the key derivation uses the
 * url-safe alphabet (`urlsafe_b64encode`), which is also how `Fernet(key)` reads its key.
 */
module Base64 {
  import opened Basics

  /** The character for a 6-bit value; `urlsafe` picks '-' and '_' for 62 and 63. */
  function Symbol(v: nat, urlsafe: bool): char
    requires v < 64
  {
    if v < 26 then ('A' as int + v) as char
    else if v < 52 then ('a' as int + (v - 26)) as char
    else if v < 62 then ('0' as int + (v - 52)) as char
    else if v == 62 then (if urlsafe then '-' else '+')
    else (if urlsafe then '_' else '/')
  }

  /** The 6-bit value of a character of the standard alphabet. */
  function SymbolValue(c: char): (r: Option<nat>)
    ensures r.Some? ==> r.value < 64
  {
    if 'A' <= c <= 'Z' then Some(c as int - 'A' as int)
    else if 'a' <= c <= 'z' then Some(c as int - 'a' as int + 26)
    else if '0' <= c <= '9' then Some(c as int - '0' as int + 52)
    else if c == '+' then Some(62)
    else if c == '/' then Some(63)
    else None
  }

  /** Three bytes become four symbols. */
  function EncodeGroup(b0: byte, b1: byte, b2: byte, urlsafe: bool): (s: string)
    ensures |s| == 4
  {
    [Symbol(b0 / 4, urlsafe), Symbol((b0 % 4) * 16 + b1 / 16, urlsafe),
     Symbol((b1 % 16) * 4 + b2 / 64, urlsafe), Symbol(b2 % 64, urlsafe)]
  }

  /** A last single byte becomes two symbols and "==". */
  function EncodeFinal1(b0: byte, urlsafe: bool): (s: string)
    ensures |s| == 4
  {
    [Symbol(b0 / 4, urlsafe), Symbol((b0 % 4) * 16, urlsafe), '=', '=']
  }

  /** A last pair of bytes becomes three symbols and "=". */
  function EncodeFinal2(b0: byte, b1: byte, urlsafe: bool): (s: string)
    ensures |s| == 4
  {
    [Symbol(b0 / 4, urlsafe), Symbol((b0 % 4) * 16 + b1 / 16, urlsafe), Symbol((b1 % 16) * 4, urlsafe), '=']
  }

  /** `b64encode` (urlsafe = false) and `urlsafe_b64encode` (urlsafe = true), with '=' padding. */
  function Encode(b: seq<byte>, urlsafe: bool): (s: string)
    ensures |s| % 4 == 0 && (|b| > 0 ==> |s| > 0)
    decreases |b|
  {
    if |b| == 0 then []
    else if |b| == 1 then EncodeFinal1(b[0], urlsafe)
    else if |b| == 2 then EncodeFinal2(b[0], b[1], urlsafe)
    else EncodeGroup(b[0], b[1], b[2], urlsafe) + Encode(b[3..], urlsafe)
  }

  /** One group of four symbols; `last` says whether '=' padding may appear in it. */
  function DecodeGroup(q: string, last: bool): (r: Option<seq<byte>>)
    requires |q| == 4
    ensures r.Some? ==> 1 <= |r.value| <= 3
  {
    if SymbolValue(q[0]).None? || SymbolValue(q[1]).None? then None
    else
      var v0, v1 := SymbolValue(q[0]).value, SymbolValue(q[1]).value;
      var first: byte := v0 * 4 + v1 / 16;
      if last && q[2] == '=' && q[3] == '=' then Some([first])
      else if SymbolValue(q[2]).None? then None
      else
        var v2 := SymbolValue(q[2]).value;
        var second: byte := (v1 % 16) * 16 + v2 / 4;
        if last && q[3] == '=' then Some([first, second])
        else if SymbolValue(q[3]).None? then None
        else Some([first, second, (v2 % 4) * 64 + SymbolValue(q[3]).value])
  }

  /**
   * `b64decode`: groups of four symbols of the standard alphabet, padding only in the last
   * group. As in Python, bits left over in a padded group are ignored.
   */
  function Decode(s: string): Option<seq<byte>>
    decreases |s|
  {
    if |s| == 0 then Some([])
    else if |s| < 4 then None
    else
      match DecodeGroup(s[..4], |s| == 4)
      case None => None
      case Some(head) =>
        match Decode(s[4..])
        case None => None
        case Some(tail) => Some(head + tail)
  }

  /** `urlsafe_b64decode` first maps '-' to '+' and '_' to '/', then decodes. */
  function ToStandard(s: string): (t: string)
    ensures |t| == |s|
  {
    seq(|s|, i requires 0 <= i < |s| => if s[i] == '-' then '+' else if s[i] == '_' then '/' else s[i])
  }

  function UrlsafeDecode(s: string): Option<seq<byte>>
  {
    Decode(ToStandard(s))
  }

  lemma SymbolRoundTrip(v: nat, urlsafe: bool)
    requires v < 64
    ensures SymbolValue(Symbol(v, false)) == Some(v)
    ensures Symbol(v, urlsafe) != '='
  {
  }

  lemma {:induction false} EncodeToStandard(b: seq<byte>)
    ensures ToStandard(Encode(b, true)) == Encode(b, false)
    decreases |b|
  {
    if |b| >= 3 {
      EncodeToStandard(b[3..]);
      var g, g' := EncodeGroup(b[0], b[1], b[2], true), EncodeGroup(b[0], b[1], b[2], false);
      assert ToStandard(g + Encode(b[3..], true)) == ToStandard(g) + ToStandard(Encode(b[3..], true));
    }
  }

  /** Decoding the four symbols of one group gives back its three bytes. */
  lemma GroupRoundTrip(b0: byte, b1: byte, b2: byte, last: bool)
    ensures DecodeGroup(EncodeGroup(b0, b1, b2, false), last) == Some([b0, b1, b2])
  {
    var s1 := (b0 % 4) * 16 + b1 / 16;
    var s2 := (b1 % 16) * 4 + b2 / 64;
    assert s1 / 16 == b0 % 4 && s1 % 16 == b1 / 16;
    assert s2 / 4 == b1 % 16 && s2 % 4 == b2 / 64;
    SymbolRoundTrip(b0 / 4, false);
    SymbolRoundTrip(s1, false);
    SymbolRoundTrip(s2, false);
    SymbolRoundTrip(b2 % 64, false);
  }

  /** A string of exactly four symbols is one final group. */
  lemma DecodeLastGroup(q: string)
    requires |q| == 4
    ensures Decode(q) == DecodeGroup(q, true)
  {
    assert q[..4] == q && q[4..] == [];
    if DecodeGroup(q, true).Some? {
      assert DecodeGroup(q, true).value + [] == DecodeGroup(q, true).value;
    }
  }

  lemma DecodePadded1(c0: char, c1: char, v0: nat, v1: nat)
    requires SymbolValue(c0) == Some(v0) && SymbolValue(c1) == Some(v1)
    ensures DecodeGroup([c0, c1, '=', '='], true) == Some([v0 * 4 + v1 / 16])
  {
  }

  lemma DecodePadded2(c0: char, c1: char, c2: char, v0: nat, v1: nat, v2: nat)
    requires SymbolValue(c0) == Some(v0) && SymbolValue(c1) == Some(v1) && SymbolValue(c2) == Some(v2)
    requires c2 != '='
    ensures DecodeGroup([c0, c1, c2, '='], true) == Some([v0 * 4 + v1 / 16, (v1 % 16) * 16 + v2 / 4])
  {
  }

  lemma Final1RoundTrip(b0: byte)
    ensures DecodeGroup(EncodeFinal1(b0, false), true) == Some([b0])
  {
    var v0, v1 := b0 / 4, (b0 % 4) * 16;
    SymbolRoundTrip(v0, false);
    SymbolRoundTrip(v1, false);
    DecodePadded1(Symbol(v0, false), Symbol(v1, false), v0, v1);
  }

  lemma TwoByteArithmetic(b0: byte, b1: byte)
    ensures var v1 := (b0 % 4) * 16 + b1 / 16;
      (b0 / 4) * 4 + v1 / 16 == b0 && (v1 % 16) * 16 + ((b1 % 16) * 4) / 4 == b1
  {
    var v1 := (b0 % 4) * 16 + b1 / 16;
    assert v1 / 16 == b0 % 4 && v1 % 16 == b1 / 16;
  }

  lemma Final2RoundTrip(b0: byte, b1: byte)
    ensures DecodeGroup(EncodeFinal2(b0, b1, false), true) == Some([b0, b1])
  {
    var v0, v1, v2 := b0 / 4, (b0 % 4) * 16 + b1 / 16, (b1 % 16) * 4;
    SymbolRoundTrip(v0, false);
    SymbolRoundTrip(v1, false);
    SymbolRoundTrip(v2, false);
    DecodePadded2(Symbol(v0, false), Symbol(v1, false), Symbol(v2, false), v0, v1, v2);
    TwoByteArithmetic(b0, b1);
  }

  lemma DecodeEncodeOne(b: seq<byte>)
    requires |b| == 1
    ensures Decode(Encode(b, false)) == Some(b)
  {
    Final1RoundTrip(b[0]);
    DecodeLastGroup(EncodeFinal1(b[0], false));
    assert [b[0]] == b;
  }

  lemma DecodeEncodeTwo(b: seq<byte>)
    requires |b| == 2
    ensures Decode(Encode(b, false)) == Some(b)
  {
    Final2RoundTrip(b[0], b[1]);
    DecodeLastGroup(EncodeFinal2(b[0], b[1], false));
    assert [b[0], b[1]] == b;
  }

  /** `b64decode(b64encode(b)) == b`. */
  lemma {:induction false} DecodeEncode(b: seq<byte>)
    ensures Decode(Encode(b, false)) == Some(b)
    decreases |b|
  {
    if |b| == 1 {
      DecodeEncodeOne(b);
    } else if |b| == 2 {
      DecodeEncodeTwo(b);
    } else if |b| >= 3 {
      var s := Encode(b, false);
      var g := EncodeGroup(b[0], b[1], b[2], false);
      GroupRoundTrip(b[0], b[1], b[2], |s| == 4);
      assert s[..4] == g && s[4..] == Encode(b[3..], false);
      DecodeEncode(b[3..]);
      DecodeStep(s, [b[0], b[1], b[2]], b[3..]);
      FirstThree(b);
    }
  }

  lemma FirstThree(b: seq<byte>)
    requires |b| >= 3
    ensures [b[0], b[1], b[2]] + b[3..] == b
  {
  }

  /** A group that decodes, followed by symbols that decode, decodes to the two in turn. */
  lemma DecodeStep(s: string, head: seq<byte>, tail: seq<byte>)
    requires |s| >= 4
    requires DecodeGroup(s[..4], |s| == 4) == Some(head) && Decode(s[4..]) == Some(tail)
    ensures Decode(s) == Some(head + tail)
  {
  }

  /** `urlsafe_b64decode(urlsafe_b64encode(b)) == b`. */
  lemma UrlsafeDecodeEncode(b: seq<byte>)
    ensures UrlsafeDecode(Encode(b, true)) == Some(b)
  {
    EncodeToStandard(b);
    DecodeEncode(b);
  }
}
