/**
 * The JSON text of one connection record, as Python's `json.dumps` writes it with its
 * defaults (separators ", " and ": ", `ensure_ascii`) and as `json.loads` reads it back.
 * A record is a Python dict whose values are strings, integers, booleans or null; the
 * dict keeps insertion order, so it is modelled as a list of members with distinct keys.
 */
module Json {
  import opened Basics

  datatype Val = Str(s: string) | Int(i: int) | Bool(b: bool) | Null

  datatype Member = Member(key: string, value: Val)

  /** A dict in insertion order. */
  type Dict = seq<Member>

  function Keys(d: Dict): set<string>
  {
    set i | 0 <= i < |d| :: d[i].key
  }

  predicate DistinctKeys(d: Dict)
  {
    forall i, j :: 0 <= i < j < |d| ==> d[i].key != d[j].key
  }

  lemma KeysCons(d: Dict)
    requires d != []
    ensures Keys(d) == {d[0].key} + Keys(d[1..])
  {
    forall x | x in Keys(d) ensures x in {d[0].key} + Keys(d[1..]) {
      var i :| 0 <= i < |d| && d[i].key == x;
      if i > 0 { assert d[1..][i - 1].key == x; }
    }
    forall x | x in Keys(d[1..]) ensures x in Keys(d) {
      var i :| 0 <= i < |d[1..]| && d[1..][i].key == x;
      assert d[i + 1].key == x;
    }
  }

  lemma DistinctCons(d: Dict)
    requires d != []
    ensures DistinctKeys(d) <==> DistinctKeys(d[1..]) && d[0].key !in Keys(d[1..])
  {
    if DistinctKeys(d) {
      forall i | 0 <= i < |d[1..]| ensures d[1..][i].key != d[0].key {
        assert d[1..][i] == d[i + 1];
      }
    }
    if DistinctKeys(d[1..]) && d[0].key !in Keys(d[1..]) {
      forall i, j | 0 <= i < j < |d| ensures d[i].key != d[j].key {
        if i == 0 {
          assert d[1..][j - 1].key == d[j].key;
        } else {
          assert d[1..][i - 1] == d[i] && d[1..][j - 1] == d[j];
        }
      }
    }
  }

  /** `d[k]`; None where Python raises KeyError. */
  function Get(d: Dict, k: string): (r: Option<Val>)
    ensures r.Some? <==> k in Keys(d)
    ensures r.Some? ==> Member(k, r.value) in d
  {
    if d == [] then None
    else if d[0].key == k then Some(d[0].value)
    else
      KeysCons(d);
      assert d == [d[0]] + d[1..];
      Get(d[1..], k)
  }

  /** `d[k] = v`: overwrites the value in place when `k` is present, appends otherwise. */
  function Set(d: Dict, k: string, v: Val): (r: Dict)
    ensures Keys(r) == Keys(d) + {k}
    ensures DistinctKeys(d) ==> DistinctKeys(r)
    ensures k !in Keys(d) ==> r == d + [Member(k, v)]
  {
    if d == [] then
      SetEmpty(k, v);
      [Member(k, v)]
    else if d[0].key == k then
      SetFront(d, k, v);
      [Member(k, v)] + d[1..]
    else
      var tail := Set(d[1..], k, v);
      SetBehind(d, k, v, tail);
      [d[0]] + tail
  }

  lemma SetEmpty(k: string, v: Val)
    ensures Keys([Member(k, v)]) == {k} && DistinctKeys([Member(k, v)])
  {
    var r := [Member(k, v)];
    KeysCons(r);
    assert Keys(r[1..]) == {};
  }

  lemma SetFront(d: Dict, k: string, v: Val)
    requires d != [] && d[0].key == k
    ensures var r := [Member(k, v)] + d[1..];
      && k in Keys(d) && Keys(r) == Keys(d)
      && (DistinctKeys(d) ==> DistinctKeys(r))
  {
    var r := [Member(k, v)] + d[1..];
    assert r[1..] == d[1..];
    KeysCons(d);
    KeysCons(r);
    DistinctCons(d);
    DistinctCons(r);
  }

  lemma SetBehind(d: Dict, k: string, v: Val, tail: Dict)
    requires d != [] && d[0].key != k
    requires Keys(tail) == Keys(d[1..]) + {k}
    requires DistinctKeys(d[1..]) ==> DistinctKeys(tail)
    requires k !in Keys(d[1..]) ==> tail == d[1..] + [Member(k, v)]
    ensures var r := [d[0]] + tail;
      && Keys(r) == Keys(d) + {k}
      && (DistinctKeys(d) ==> DistinctKeys(r))
      && (k !in Keys(d) ==> r == d + [Member(k, v)])
  {
    var r := [d[0]] + tail;
    assert r[1..] == tail;
    KeysCons(d);
    KeysCons(r);
    DistinctCons(d);
    DistinctCons(r);
    if k !in Keys(d) {
      assert d == [d[0]] + d[1..];
    }
  }

  // ---------------------------------------------------------------- json.dumps

  function HexDigit(n: nat): char
    requires n < 16
  {
    if n < 10 then ('0' as int + n) as char else ('a' as int + (n - 10)) as char
  }

  /** Four lower-case hexadecimal digits, as in Python's '\\u{0:04x}'. */
  function Hex4(n: nat): (h: string)
    requires n < 0x1_0000
    ensures |h| == 4
  {
    [HexDigit(n / 4096), HexDigit(n / 256 % 16), HexDigit(n / 16 % 16), HexDigit(n % 16)]
  }

  /** The six-character escape \uXXXX of one UTF-16 code unit. */
  function UnicodeEscape(n: nat): (e: string)
    requires n < 0x1_0000
    ensures |e| == 6 && e[0] == '\\'
  {
    ['\\', 'u'] + Hex4(n)
  }

  /**
   * How `ensure_ascii` writes one character of a string: the two-character escapes for
   * '"', '\\', newline, carriage return, tab, backspace and form feed; printable ASCII as
   * itself; everything else as \uXXXX, or as a surrogate pair above U+FFFF.
   */
  function EscapeChar(c: char): string
  {
    if c == '"' then ['\\', '"']
    else if c == '\\' then ['\\', '\\']
    else if c == '\n' then ['\\', 'n']
    else if c == '\r' then ['\\', 'r']
    else if c == '\t' then ['\\', 't']
    else if c == 8 as char then ['\\', 'b']
    else if c == 12 as char then ['\\', 'f']
    else if ' ' <= c <= '~' then [c]
    else CodeUnitEscapes(c)
  }

  /** \uXXXX for a character below U+10000, the \uXXXX\uXXXX of its surrogate pair above. */
  function CodeUnitEscapes(c: char): string
  {
    if c as int < 0x1_0000 then UnicodeEscape(c as int)
    else
      var u := c as int - 0x1_0000;
      UnicodeEscape(0xD800 + u / 0x400) + UnicodeEscape(0xDC00 + u % 0x400)
  }

  function Escape(s: string): string
  {
    if s == [] then [] else EscapeChar(s[0]) + Escape(s[1..])
  }

  function Quoted(s: string): string
  {
    ['"'] + Escape(s) + ['"']
  }

  /** Decimal digits of a natural number, without leading zeros. */
  function NatText(n: nat): (t: string)
    ensures |t| > 0
  {
    if n < 10 then [('0' as int + n) as char]
    else NatText(n / 10) + [('0' as int + n % 10) as char]
  }

  /** `repr` of an int. */
  function IntText(i: int): string
  {
    if i < 0 then ['-'] + NatText(-i) else NatText(i)
  }

  function ValueText(v: Val): string
  {
    match v
    case Str(s) => Quoted(s)
    case Int(i) => IntText(i)
    case Bool(b) => if b then "true" else "false"
    case Null => "null"
  }

  function MemberText(m: Member): string
  {
    Quoted(m.key) + [':', ' '] + ValueText(m.value)
  }

  /** The members after the first, each preceded by ", ". */
  function MembersTail(ms: Dict): string
  {
    if ms == [] then [] else [',', ' '] + MemberText(ms[0]) + MembersTail(ms[1..])
  }

  /** `json.dumps(d)`. */
  function Dumps(d: Dict): string
  {
    if d == [] then ['{', '}'] else ['{'] + MemberText(d[0]) + MembersTail(d[1..]) + ['}']
  }

  // ---------------------------------------------------------------- json.loads

  /** A parsed value and the text that follows it. */
  datatype Parsed<T> = Parsed(value: T, rest: string)

  predicate IsWhitespace(c: char)
  {
    c == ' ' || c == '\t' || c == '\n' || c == '\r'
  }

  function SkipWhitespace(s: string): (r: string)
    ensures |r| <= |s|
    ensures r == [] || !IsWhitespace(r[0])
  {
    if s != [] && IsWhitespace(s[0]) then SkipWhitespace(s[1..]) else s
  }

  function HexValue(c: char): (r: Option<nat>)
    ensures r.Some? ==> r.value < 16
  {
    if '0' <= c <= '9' then Some(c as int - '0' as int)
    else if 'a' <= c <= 'f' then Some(c as int - 'a' as int + 10)
    else if 'A' <= c <= 'F' then Some(c as int - 'A' as int + 10)
    else None
  }

  function Pow16(k: nat): (p: nat)
    ensures p > 0
  {
    if k == 0 then 1 else 16 * Pow16(k - 1)
  }

  /** The value of a run of hexadecimal digits, most significant first; None at a non-digit. */
  function HexNumber(h: string): (r: Option<nat>)
    ensures r.Some? ==> r.value < Pow16(|h|)
    decreases |h|
  {
    if h == [] then Some(0)
    else
      match HexNumber(h[..|h| - 1])
      case None => None
      case Some(a) =>
        match HexValue(h[|h| - 1])
        case None => None
        case Some(d) => Some(a * 16 + d)
  }

  /** The four digits of a \uXXXX escape. */
  function ParseHex4(h: string): (r: Option<nat>)
    requires |h| == 4
    ensures r.Some? ==> r.value < 0x1_0000
  {
    assert Pow16(4) == 0x1_0000;
    HexNumber(h)
  }

  /**
   * The character denoted by the escape after a backslash. A \uXXXX naming half of a
   * surrogate pair must be followed by the other half; Python keeps a lone half as an
   * unpaired surrogate, which a Dafny character cannot hold, so it is a failure here.
   */
  function ParseEscape(s: string): (r: Option<Parsed<char>>)
    ensures r.Some? ==> |r.value.rest| < |s|
  {
    if s == [] then None
    else if s[0] == '"' then Some(Parsed('"', s[1..]))
    else if s[0] == '\\' then Some(Parsed('\\', s[1..]))
    else if s[0] == '/' then Some(Parsed('/', s[1..]))
    else if s[0] == 'b' then Some(Parsed(8 as char, s[1..]))
    else if s[0] == 'f' then Some(Parsed(12 as char, s[1..]))
    else if s[0] == 'n' then Some(Parsed('\n', s[1..]))
    else if s[0] == 'r' then Some(Parsed('\r', s[1..]))
    else if s[0] == 't' then Some(Parsed('\t', s[1..]))
    else if s[0] == 'u' then ParseUnicode(s[1..])
    else None
  }

  /** The four hex digits after \u; a high surrogate takes its low half from the next \uXXXX. */
  function ParseUnicode(t: string): (r: Option<Parsed<char>>)
    ensures r.Some? ==> |r.value.rest| < |t|
  {
    if |t| < 4 then None
    else
      match ParseHex4(t[..4])
      case None => None
      case Some(n) =>
        if 0xD800 <= n < 0xDC00 then LowSurrogate(n, t[4..])
        else if 0xDC00 <= n < 0xE000 then None
        else Some(Parsed(n as char, t[4..]))
  }

  /** The \uXXXX of the low half that must follow the high surrogate `hi`, and the character the pair names. */
  function LowSurrogate(hi: nat, t: string): (r: Option<Parsed<char>>)
    requires 0xD800 <= hi < 0xDC00
    ensures r.Some? ==> |r.value.rest| < |t|
  {
    if |t| < 6 || t[0] != '\\' || t[1] != 'u' then None
    else
      match ParseHex4(t[2..6])
      case None => None
      case Some(m) =>
        if 0xDC00 <= m < 0xE000
        then Some(Parsed((0x1_0000 + (hi - 0xD800) * 0x400 + (m - 0xDC00)) as char, t[6..]))
        else None
  }

  /** The rest of a string literal after its opening quote (strict: no raw control characters). */
  function ParseStringBody(s: string): (r: Option<Parsed<string>>)
    ensures r.Some? ==> |r.value.rest| < |s|
    decreases |s|
  {
    if s == [] then None
    else if s[0] == '"' then Some(Parsed([], s[1..]))
    else if s[0] == '\\' then
      match ParseEscape(s[1..])
      case None => None
      case Some(Parsed(c, after)) => Prepend(c, ParseStringBody(after))
    else if s[0] < ' ' then None
    else Prepend(s[0], ParseStringBody(s[1..]))
  }

  function Prepend(c: char, r: Option<Parsed<string>>): (r': Option<Parsed<string>>)
    ensures r'.Some? <==> r.Some?
    ensures r'.Some? ==> r'.value.rest == r.value.rest
  {
    match r
    case None => None
    case Some(Parsed(cs, rest)) => Some(Parsed([c] + cs, rest))
  }

  predicate IsDigit(c: char)
  {
    '0' <= c <= '9'
  }

  /** The number of leading decimal digits. */
  function DigitRun(s: string): (n: nat)
    ensures n <= |s|
    ensures forall i :: 0 <= i < n ==> IsDigit(s[i])
    ensures n < |s| ==> !IsDigit(s[n])
  {
    if s != [] && IsDigit(s[0]) then 1 + DigitRun(s[1..]) else 0
  }

  function DecimalValue(ds: string): nat
    requires forall i :: 0 <= i < |ds| ==> IsDigit(ds[i])
  {
    if ds == [] then 0
    else
      assert IsDigit(ds[|ds| - 1]);
      DecimalValue(ds[..|ds| - 1]) * 10 + (ds[|ds| - 1] as int - '0' as int)
  }

  /**
   * A JSON number, `-?(0|[1-9][0-9]*)` followed by an optional fraction and exponent.
   * With a fraction or an exponent Python makes a float, which no record field holds here,
   * so that is a failure; a '.', 'e' or 'E' not starting one is a syntax error anyway.
   */
  function ParseNumber(s: string): (r: Option<Parsed<Val>>)
    ensures r.Some? ==> |r.value.rest| < |s|
  {
    var neg := s != [] && s[0] == '-';
    match ParseMagnitude(if neg then s[1..] else s)
    case None => None
    case Some(Parsed(n, rest)) => Some(Parsed(Int(if neg then -(n as int) else n), rest))
  }

  /** The digits of a number after its optional sign, `0|[1-9][0-9]*`, not followed by a fraction or exponent. */
  function ParseMagnitude(t: string): (r: Option<Parsed<nat>>)
    ensures r.Some? ==> |r.value.rest| < |t|
  {
    if t == [] || !IsDigit(t[0]) then None
    else
      var k := if t[0] == '0' then 1 else DigitRun(t);
      var rest := t[k..];
      if rest != [] && (rest[0] == '.' || rest[0] == 'e' || rest[0] == 'E') then None
      else Some(Parsed(DecimalValue(t[..k]), rest))
  }

  /** One value: a string, an integer, true, false or null. Arrays, objects and floats fail. */
  function ParseValue(s: string): (r: Option<Parsed<Val>>)
    ensures r.Some? ==> |r.value.rest| < |s|
  {
    if s == [] then None
    else if s[0] == '"' then
      match ParseStringBody(s[1..])
      case None => None
      case Some(Parsed(str, rest)) => Some(Parsed(Str(str), rest))
    else if s[0] == '-' || IsDigit(s[0]) then ParseNumber(s)
    else if |s| >= 4 && s[..4] == "true" then Some(Parsed(Bool(true), s[4..]))
    else if |s| >= 5 && s[..5] == "false" then Some(Parsed(Bool(false), s[5..]))
    else if |s| >= 4 && s[..4] == "null" then Some(Parsed(Null, s[4..]))
    else None
  }

  /**
   * The members of an object from a key's opening quote on, each assigned into `acc` as
   * the dict display does (a repeated key keeps its first position and its last value).
   */
  function ParseMembers(s: string, acc: Dict): (r: Option<Parsed<Dict>>)
    ensures r.Some? && DistinctKeys(acc) ==> DistinctKeys(r.value.value)
    decreases |s|
  {
    if s == [] || s[0] != '"' then None
    else
      match ParseStringBody(s[1..])
      case None => None
      case Some(Parsed(key, afterKey)) =>
        var t := SkipWhitespace(afterKey);
        if t == [] || t[0] != ':' then None
        else
          match ParseValue(SkipWhitespace(t[1..]))
          case None => None
          case Some(Parsed(v, afterValue)) =>
            var u := SkipWhitespace(afterValue);
            if u != [] && u[0] == '}' then Some(Parsed(Set(acc, key, v), u[1..]))
            else if u != [] && u[0] == ',' then ParseMembers(SkipWhitespace(u[1..]), Set(acc, key, v))
            else None
  }

  /** `json.loads(s)` when the document is one object; None where Python raises (or yields a non-dict). */
  function Loads(s: string): (r: Option<Dict>)
    ensures r.Some? ==> DistinctKeys(r.value)
  {
    var t := SkipWhitespace(s);
    if t == [] || t[0] != '{' then None
    else
      match ObjectBody(SkipWhitespace(t[1..]))
      case None => None
      case Some(Parsed(d, rest)) => if SkipWhitespace(rest) == [] then Some(d) else None
  }

  /** What follows the '{' of an object: '}' at once, or its members. */
  function ObjectBody(u: string): (r: Option<Parsed<Dict>>)
    ensures r.Some? ==> DistinctKeys(r.value.value)
  {
    if u != [] && u[0] == '}' then Some(Parsed([], u[1..])) else ParseMembers(u, [])
  }

  // ---------------------------------------------------------------- dict lemmas

  /** After `d[k] = v`, `d[k]` is `v` and every other key reads as before. */
  lemma {:induction false} SetThenGet(d: Dict, k: string, v: Val)
    ensures Get(Set(d, k, v), k) == Some(v)
    ensures forall k' :: k' != k ==> Get(Set(d, k, v), k') == Get(d, k')
  {
    if d != [] && d[0].key != k {
      SetThenGet(d[1..], k, v);
    }
  }

  /** With distinct keys, assigning a present key overwrites its member where it stands. */
  lemma {:induction false} SetOverwrites(d: Dict, k: string, v: Val)
    requires DistinctKeys(d) && k in Keys(d)
    ensures |Set(d, k, v)| == |d|
    ensures forall i :: 0 <= i < |d| ==> Set(d, k, v)[i] == (if d[i].key == k then Member(k, v) else d[i])
  {
    var r := Set(d, k, v);
    if d[0].key == k {
      assert r == [Member(k, v)] + d[1..];
      forall i | 0 < i < |d| ensures d[i].key != k {
        assert d[0].key != d[i].key;
      }
    } else {
      TailKeys(d, k);
      SetOverwrites(d[1..], k, v);
      assert r == [d[0]] + Set(d[1..], k, v);
      forall i | 0 < i < |d| ensures r[i] == (if d[i].key == k then Member(k, v) else d[i]) {
        assert r[i] == Set(d[1..], k, v)[i - 1] && d[i] == d[1..][i - 1];
      }
    }
  }

  /** A key present but not first is present in the tail, whose keys stay distinct. */
  lemma TailKeys(d: Dict, k: string)
    requires DistinctKeys(d) && k in Keys(d) && d[0].key != k
    ensures DistinctKeys(d[1..]) && k in Keys(d[1..])
  {
    KeysCons(d);
    DistinctCons(d);
  }

  // ---------------------------------------------------------------- round trip

  lemma HexDigitValue(n: nat)
    requires n < 16
    ensures HexValue(HexDigit(n)) == Some(n)
  {
  }

  /** One more digit after a run of hex digits multiplies the run's value by 16 and adds its own. */
  lemma HexStep(init: string, c: char, a: nat, d: nat)
    requires HexNumber(init) == Some(a) && HexValue(c) == Some(d)
    ensures HexNumber(init + [c]) == Some(a * 16 + d)
  {
    var h := init + [c];
    assert h[..|h| - 1] == init && h[|h| - 1] == c;
  }

  lemma HexDigits(n: nat)
    requires n < 0x1_0000
    ensures var h := Hex4(n);
      && HexValue(h[0]) == Some(n / 4096) && HexValue(h[1]) == Some(n / 256 % 16)
      && HexValue(h[2]) == Some(n / 16 % 16) && HexValue(h[3]) == Some(n % 16)
  {
    HexDigitValue(n / 4096);
    HexDigitValue(n / 256 % 16);
    HexDigitValue(n / 16 % 16);
    HexDigitValue(n % 16);
  }

  lemma HexPlaces(n: nat)
    ensures n / 4096 * 16 + n / 256 % 16 == n / 256
    ensures n / 256 * 16 + n / 16 % 16 == n / 16
    ensures n / 16 * 16 + n % 16 == n
  {
    DivTwice(n);
    DivSixteen(n / 256);
    DivSixteen(n / 16);
    DivSixteen(n);
  }

  lemma DivSixteen(m: nat)
    ensures m / 16 * 16 + m % 16 == m
  {
  }

  lemma DivTwice(n: nat)
    ensures n / 4096 == n / 256 / 16 && n / 256 == n / 16 / 16
  {
  }

  lemma Hex4RoundTrip(n: nat)
    requires n < 0x1_0000
    ensures ParseHex4(Hex4(n)) == Some(n)
  {
    var h := Hex4(n);
    HexDigits(n);
    HexPlaces(n);
    assert [] + [h[0]] == [h[0]] && [h[0]] + [h[1]] == [h[0], h[1]] && [h[0], h[1]] + [h[2]] == [h[0], h[1], h[2]];
    HexStep([], h[0], 0, n / 4096);
    HexStep([h[0]], h[1], n / 4096, n / 256 % 16);
    HexStep([h[0], h[1]], h[2], n / 256, n / 16 % 16);
    HexStep([h[0], h[1], h[2]], h[3], n / 16, n % 16);
    assert [h[0], h[1], h[2]] + [h[3]] == h;
  }

  /** Four hex digits naming a character outside the surrogate range read back as it. */
  lemma Hex4Parses(c: char, rest: string)
    requires c as int < 0x1_0000
    ensures ParseUnicode(Hex4(c as int) + rest) == Some(Parsed(c, rest))
  {
    var t := Hex4(c as int) + rest;
    assert t[..4] == Hex4(c as int) && t[4..] == rest;
    Hex4RoundTrip(c as int);
  }

  /** A character escaped by \uXXXX below U+10000 reads back. */
  lemma UnicodeEscapeParses(c: char, rest: string)
    requires c as int < 0x1_0000
    ensures ParseEscape(UnicodeEscape(c as int)[1..] + rest) == Some(Parsed(c, rest))
  {
    var s := UnicodeEscape(c as int)[1..] + rest;
    assert s[0] == 'u' && s[1..] == Hex4(c as int) + rest;
    Hex4Parses(c, rest);
  }

  /** The two halves of the surrogate pair `json.dumps` writes for a character above U+FFFF. */
  lemma SurrogateHalves(c: char)
    requires c as int >= 0x1_0000
    ensures var u := c as int - 0x1_0000;
      && 0xD800 <= 0xD800 + u / 0x400 < 0xDC00
      && 0xDC00 <= 0xDC00 + u % 0x400 < 0xE000
      && 0x1_0000 + u / 0x400 * 0x400 + u % 0x400 == c as int
  {
  }

  /** The high half, as four hex digits, hands the text after it to the low half. */
  lemma HighHalfParses(hi: nat, t: string)
    requires 0xD800 <= hi < 0xDC00
    ensures ParseUnicode(Hex4(hi) + t) == LowSurrogate(hi, t)
  {
    var h := Hex4(hi) + t;
    assert h[..4] == Hex4(hi) && h[4..] == t;
    Hex4RoundTrip(hi);
  }

  /** The low half's \uXXXX completes the pair. */
  lemma LowHalfParses(hi: nat, lo: nat, rest: string)
    requires 0xD800 <= hi < 0xDC00 && 0xDC00 <= lo < 0xE000
    requires 0x1_0000 + (hi - 0xD800) * 0x400 + (lo - 0xDC00) < 0x11_0000
    ensures LowSurrogate(hi, UnicodeEscape(lo) + rest)
      == Some(Parsed((0x1_0000 + (hi - 0xD800) * 0x400 + (lo - 0xDC00)) as char, rest))
  {
    var t := UnicodeEscape(lo) + rest;
    assert t[0] == '\\' && t[1] == 'u' && t[2..6] == Hex4(lo) && t[6..] == rest;
    Hex4RoundTrip(lo);
  }

  /** A character above U+FFFF, escaped as a surrogate pair, reads back. */
  lemma SurrogatePairParses(c: char, rest: string)
    requires c as int >= 0x1_0000
    ensures var u := c as int - 0x1_0000;
      ParseEscape((UnicodeEscape(0xD800 + u / 0x400) + UnicodeEscape(0xDC00 + u % 0x400))[1..] + rest)
        == Some(Parsed(c, rest))
  {
    var u := c as int - 0x1_0000;
    var hi, lo := 0xD800 + u / 0x400, 0xDC00 + u % 0x400;
    SurrogateHalves(c);
    var s := (UnicodeEscape(hi) + UnicodeEscape(lo))[1..] + rest;
    assert s[0] == 'u' && s[1..] == Hex4(hi) + (UnicodeEscape(lo) + rest);
    HighHalfParses(hi, UnicodeEscape(lo) + rest);
    LowHalfParses(hi, lo, rest);
  }

  /** The escape sequence after the backslash of a two-character escape reads back. */
  lemma ShortEscapeParses(c: char, rest: string)
    requires |EscapeChar(c)| == 2
    ensures ParseEscape(EscapeChar(c)[1..] + rest) == Some(Parsed(c, rest))
  {
  }

  /** A literal starting with a backslash reads the escape, then the rest. */
  lemma BackslashParses(c: char, e: string, rest: string)
    requires e != [] && e[0] == '\\'
    requires ParseEscape(e[1..] + rest) == Some(Parsed(c, rest))
    ensures ParseStringBody(e + rest) == Prepend(c, ParseStringBody(rest))
  {
    assert (e + rest)[1..] == e[1..] + rest;
  }

  /** Reading one escaped character, then the rest of the literal. */
  lemma EscapeCharParses(c: char, rest: string)
    ensures ParseStringBody(EscapeChar(c) + rest) == Prepend(c, ParseStringBody(rest))
  {
    var e := EscapeChar(c);
    if ' ' <= c <= '~' && c != '"' && c != '\\' {
      assert e == [c] && (e + rest)[1..] == rest;
    } else if |e| == 2 {
      ShortEscapeParses(c, rest);
      BackslashParses(c, e, rest);
    } else if c as int < 0x1_0000 {
      UnicodeEscapeParses(c, rest);
      BackslashParses(c, e, rest);
    } else {
      SurrogatePairParses(c, rest);
      BackslashParses(c, e, rest);
    }
  }

  /** The body of a string literal written by `json.dumps` reads back as the string. */
  lemma {:induction false} EscapeParses(s: string, rest: string)
    ensures ParseStringBody(Escape(s) + ['"'] + rest) == Some(Parsed(s, rest))
  {
    if s == [] {
      assert Escape(s) + ['"'] + rest == ['"'] + rest;
    } else {
      EscapeParses(s[1..], rest);
      EscapeCharParses(s[0], Escape(s[1..]) + ['"'] + rest);
      assert Escape(s) + ['"'] + rest == EscapeChar(s[0]) + (Escape(s[1..]) + ['"'] + rest);
      assert [s[0]] + s[1..] == s;
    }
  }

  /** `repr` of a natural number is its digits, read back by the number scanner. */
  lemma {:induction false} NatTextDigits(n: nat)
    ensures forall i :: 0 <= i < |NatText(n)| ==> IsDigit(NatText(n)[i])
    ensures DecimalValue(NatText(n)) == n
    ensures n > 0 ==> NatText(n)[0] != '0'
    ensures n < 10 ==> |NatText(n)| == 1
  {
    if n >= 10 {
      NatTextDigits(n / 10);
      var t := NatText(n);
      assert t[..|t| - 1] == NatText(n / 10);
    }
  }

  lemma {:induction false} DigitRunOfDigits(ds: string, rest: string)
    requires forall i :: 0 <= i < |ds| ==> IsDigit(ds[i])
    requires rest == [] || !IsDigit(rest[0])
    ensures DigitRun(ds + rest) == |ds|
  {
    if ds != [] {
      assert (ds + rest)[1..] == ds[1..] + rest;
      DigitRunOfDigits(ds[1..], rest);
    } else {
      assert ds + rest == rest;
    }
  }

  /** A predicate on what may follow a number for it to read back as an integer. */
  predicate EndsNumber(rest: string)
  {
    rest == [] || !(IsDigit(rest[0]) || rest[0] == '.' || rest[0] == 'e' || rest[0] == 'E')
  }

  /** A run of digits without a leading zero reads as one natural number. */
  lemma DigitsParse(ds: string, rest: string)
    requires ds != [] && forall i :: 0 <= i < |ds| ==> IsDigit(ds[i])
    requires ds[0] != '0' || |ds| == 1
    requires EndsNumber(rest)
    ensures ParseMagnitude(ds + rest) == Some(Parsed(DecimalValue(ds), rest))
  {
    var t := ds + rest;
    if t[0] != '0' {
      DigitRunOfDigits(ds, rest);
    }
    var k := |ds|;
    assert t[..k] == ds && t[k..] == rest;
  }

  /** `repr` of an integer, followed by something that cannot continue a number, reads back. */
  lemma MagnitudeParses(n: nat, rest: string)
    requires EndsNumber(rest)
    ensures ParseMagnitude(NatText(n) + rest) == Some(Parsed(n, rest))
  {
    NatTextDigits(n);
    DigitsParse(NatText(n), rest);
  }

  lemma IntTextParses(i: int, rest: string)
    requires EndsNumber(rest)
    ensures ParseNumber(IntText(i) + rest) == Some(Parsed(Int(i), rest))
  {
    if i < 0 {
      NegativeParses(-i, rest);
      NegativeText(i, rest);
    } else {
      NaturalParses(i, rest);
    }
  }

  lemma NegativeText(i: int, rest: string)
    requires i < 0
    ensures IntText(i) + rest == ['-'] + (NatText(-i) + rest)
  {
  }

  lemma NaturalParses(n: nat, rest: string)
    requires EndsNumber(rest)
    ensures ParseNumber(NatText(n) + rest) == Some(Parsed(Int(n), rest))
  {
    var t := NatText(n) + rest;
    MagnitudeParses(n, rest);
    NatTextDigits(n);
    assert t[0] == NatText(n)[0];
  }

  lemma NegativeParses(n: nat, rest: string)
    requires EndsNumber(rest)
    ensures ParseNumber(['-'] + (NatText(n) + rest)) == Some(Parsed(Int(-(n as int)), rest))
  {
    var s := ['-'] + (NatText(n) + rest);
    MagnitudeParses(n, rest);
    assert s[1..] == NatText(n) + rest;
  }

  lemma StrValueParses(str: string, rest: string)
    ensures ParseValue(Quoted(str) + rest) == Some(Parsed(Str(str), rest))
  {
    var s := Quoted(str) + rest;
    assert s[0] == '"' && s[1..] == Escape(str) + ['"'] + rest;
    EscapeParses(str, rest);
  }

  lemma IntValueParses(i: int, rest: string)
    requires EndsNumber(rest)
    ensures ParseValue(IntText(i) + rest) == Some(Parsed(Int(i), rest))
  {
    var s := IntText(i) + rest;
    NatTextDigits(if i < 0 then -i else i);
    assert s[0] == IntText(i)[0];
    assert s[0] == '-' || IsDigit(s[0]);
    IntTextParses(i, rest);
  }

  lemma KeywordParses(v: Val, rest: string)
    requires v.Bool? || v.Null?
    ensures ParseValue(ValueText(v) + rest) == Some(Parsed(v, rest))
  {
    var s := ValueText(v) + rest;
    var k := |ValueText(v)|;
    assert s[..k] == ValueText(v) && s[k..] == rest;
    assert s[0] == ValueText(v)[0] && s[..4][0] == s[0];
  }

  /** A value written by `json.dumps` reads back when a ',' or '}' follows it. */
  lemma ValueParses(v: Val, rest: string)
    requires rest != [] && (rest[0] == ',' || rest[0] == '}')
    ensures ParseValue(ValueText(v) + rest) == Some(Parsed(v, rest))
  {
    match v
    case Str(str) => StrValueParses(str, rest);
    case Int(i) => IntValueParses(i, rest);
    case Bool(b) => KeywordParses(v, rest);
    case Null => KeywordParses(v, rest);
  }

  lemma ValueTextStart(v: Val)
    ensures ValueText(v) != [] && !IsWhitespace(ValueText(v)[0])
  {
    if v.Int? {
      NatTextDigits(if v.i < 0 then -v.i else v.i);
    }
  }

  /** The text before a member's value: its quoted key, then ": ". */
  lemma MemberKeyParses(m: Member, after: string)
    ensures var s := MemberText(m) + after;
      s[0] == '"' && ParseStringBody(s[1..]) == Some(Parsed(m.key, [':', ' '] + ValueText(m.value) + after))
  {
    var t := [':', ' '] + ValueText(m.value) + after;
    MemberTextShape(m, after);
    EscapeParses(m.key, t);
  }

  lemma MemberTextShape(m: Member, after: string)
    ensures var s := MemberText(m) + after;
      s[0] == '"' && s[1..] == Escape(m.key) + ['"'] + ([':', ' '] + ValueText(m.value) + after)
  {
  }

  lemma ColonParses(v: Val, after: string)
    ensures var t := [':', ' '] + ValueText(v) + after;
      SkipWhitespace(t) == t && t[0] == ':' && SkipWhitespace(t[1..]) == ValueText(v) + after
  {
    var next := ValueText(v) + after;
    ValueTextStart(v);
    assert next[0] == ValueText(v)[0];
    assert [':', ' '] + ValueText(v) + after == [':', ' '] + next;
    ColonSkips(next);
  }

  /** The ": " `json.dumps` writes after a key is skipped up to the value. */
  lemma ColonSkips(next: string)
    requires next != [] && !IsWhitespace(next[0])
    ensures var t := [':', ' '] + next;
      SkipWhitespace(t) == t && t[0] == ':' && SkipWhitespace(t[1..]) == next
  {
    var t := [':', ' '] + next;
    assert t[1..] == [' '] + next;
    SpaceSkips(next);
  }

  lemma NoLeadingSpace(x: string)
    requires x != [] && !IsWhitespace(x[0])
    ensures SkipWhitespace(x) == x
  {
  }

  /** One step of the members loop, given what each of its readers returns. */
  lemma ParseMembersStep(s: string, acc: Dict, key: string, t: string, v: Val, after: string)
    requires s != [] && s[0] == '"'
    requires ParseStringBody(s[1..]) == Some(Parsed(key, t))
    requires SkipWhitespace(t) == t && t != [] && t[0] == ':'
    requires ParseValue(SkipWhitespace(t[1..])) == Some(Parsed(v, after))
    requires after != [] && (after[0] == ',' || after[0] == '}')
    ensures ParseMembers(s, acc)
      == if after[0] == '}' then Some(Parsed(Set(acc, key, v), after[1..]))
         else ParseMembers(SkipWhitespace(after[1..]), Set(acc, key, v))
  {
    NoLeadingSpace(after);
  }

  /** One member written by `json.dumps`, followed by ',' or '}', is read in one step. */
  lemma MemberParses(m: Member, after: string, acc: Dict)
    requires after != [] && (after[0] == ',' || after[0] == '}')
    ensures ParseMembers(MemberText(m) + after, acc)
      == if after[0] == '}' then Some(Parsed(Set(acc, m.key, m.value), after[1..]))
         else ParseMembers(SkipWhitespace(after[1..]), Set(acc, m.key, m.value))
  {
    var t := [':', ' '] + ValueText(m.value) + after;
    MemberKeyParses(m, after);
    ColonParses(m.value, after);
    ValueParses(m.value, after);
    ParseMembersStep(MemberText(m) + after, acc, m.key, t, m.value, after);
  }

  /** Moving the first of `ms` over to `acc` keeps the keys distinct; that key is new to `acc`. */
  lemma ShiftMember(acc: Dict, ms: Dict)
    requires ms != [] && DistinctKeys(acc + ms)
    ensures ms[0].key !in Keys(acc)
    ensures acc + [ms[0]] + ms[1..] == acc + ms
  {
    assert acc + [ms[0]] + ms[1..] == acc + ms;
    forall i | 0 <= i < |acc| ensures acc[i].key != ms[0].key {
      assert (acc + ms)[i] == acc[i] && (acc + ms)[|acc|] == ms[0];
    }
  }

  lemma TailSplit(ms: Dict, x: string)
    requires ms != []
    ensures MembersTail(ms) + x == [',', ' '] + (MemberText(ms[0]) + (MembersTail(ms[1..]) + x))
  {
  }

  /** The last member written by `json.dumps` closes the object. */
  lemma LastMemberParses(acc: Dict, m: Member, rest: string)
    requires m.key !in Keys(acc)
    ensures ParseMembers(MemberText(m) + (MembersTail([]) + (['}'] + rest)), acc)
      == Some(Parsed(acc + [m], rest))
  {
    var after := MembersTail([]) + (['}'] + rest);
    assert after == ['}'] + rest;
    MemberParses(m, after, acc);
  }

  /** The ", " that `json.dumps` writes between members is skipped up to the next key. */
  lemma SeparatorSkips(tl: Dict, x: string)
    requires tl != []
    ensures var after := MembersTail(tl) + x;
      after != [] && after[0] == ','
      && SkipWhitespace(after[1..]) == MemberText(tl[0]) + (MembersTail(tl[1..]) + x)
  {
    var next := MemberText(tl[0]) + (MembersTail(tl[1..]) + x);
    TailSplit(tl, x);
    assert (MembersTail(tl) + x)[1..] == [' '] + next;
    assert next[0] == MemberText(tl[0])[0] == '"';
    SpaceSkips(next);
  }

  lemma SpaceSkips(next: string)
    requires next != [] && !IsWhitespace(next[0])
    ensures SkipWhitespace([' '] + next) == next
  {
    assert ([' '] + next)[1..] == next;
  }

  /** A member written by `json.dumps` before others hands over to the next one. */
  lemma InnerMemberParses(acc: Dict, m: Member, tl: Dict, rest: string)
    requires tl != [] && m.key !in Keys(acc)
    ensures ParseMembers(MemberText(m) + (MembersTail(tl) + (['}'] + rest)), acc)
      == ParseMembers(MemberText(tl[0]) + (MembersTail(tl[1..]) + (['}'] + rest)), acc + [m])
  {
    SeparatorSkips(tl, ['}'] + rest);
    MemberParses(m, MembersTail(tl) + (['}'] + rest), acc);
  }

  /** The members written by `json.dumps`, read into `acc`, extend it by exactly those members. */
  lemma {:induction false} MembersParse(acc: Dict, ms: Dict, rest: string)
    requires ms != []
    requires DistinctKeys(acc + ms)
    ensures ParseMembers(MemberText(ms[0]) + (MembersTail(ms[1..]) + (['}'] + rest)), acc)
      == Some(Parsed(acc + ms, rest))
    decreases |ms|
  {
    var m, tl := ms[0], ms[1..];
    ShiftMember(acc, ms);
    if tl == [] {
      LastMemberParses(acc, m, rest);
      assert acc + ms == acc + [m];
    } else {
      InnerMemberParses(acc, m, tl, rest);
      MembersParse(acc + [m], tl, rest);
    }
  }

  /** An object whose body reads as `d` with nothing after the closing brace loads as `d`. */
  lemma ObjectLoads(u: string, d: Dict)
    requires u != [] && !IsWhitespace(u[0])
    requires ObjectBody(u) == Some(Parsed(d, []))
    ensures Loads(['{'] + u) == Some(d)
  {
    LeadingBrace(u);
    assert (['{'] + u)[1..] == u;
    NoLeadingSpace(u);
    assert SkipWhitespace([]) == [];
  }

  lemma LeadingBrace(u: string)
    ensures SkipWhitespace(['{'] + u) == ['{'] + u
  {
  }

  lemma DumpsShape(d: Dict)
    requires d != []
    ensures var u := MemberText(d[0]) + (MembersTail(d[1..]) + (['}'] + []));
      Dumps(d) == ['{'] + u && u[0] == '"'
  {
    var m, t := MemberText(d[0]), MembersTail(d[1..]);
    assert ['}'] + [] == ['}'];
    assert ['{'] + m + t + ['}'] == ['{'] + (m + (t + ['}']));
    assert (m + (t + ['}']))[0] == m[0] == '"';
  }

  /** `json.loads(json.dumps(d)) == d` for a dict (whose keys are distinct). */
  lemma LoadsDumps(d: Dict)
    requires DistinctKeys(d)
    ensures Loads(Dumps(d)) == Some(d)
  {
    if d != [] {
      MembersLoad(d);
    } else {
      EmptyLoads(d);
    }
  }

  lemma EmptyLoads(d: Dict)
    requires d == []
    ensures Loads(Dumps(d)) == Some(d)
  {
    EmptyObjectLoads(Dumps(d), d);
  }

  lemma EmptyObjectLoads(s: string, d: Dict)
    requires |s| == 2 && s[0] == '{' && s[1] == '}' && d == []
    ensures Loads(s) == Some(d)
  {
    var u := s[1..];
    ClosedBody(u, d);
    ObjectLoads(u, d);
    assert s == ['{'] + u;
  }

  lemma ClosedBody(u: string, d: Dict)
    requires |u| == 1 && u[0] == '}' && d == []
    ensures !IsWhitespace(u[0]) && ObjectBody(u) == Some(Parsed(d, []))
  {
    assert u[1..] == [];
  }

  lemma MembersLoad(d: Dict)
    requires d != [] && DistinctKeys(d)
    ensures Loads(Dumps(d)) == Some(d)
  {
    var u := MemberText(d[0]) + (MembersTail(d[1..]) + (['}'] + []));
    DumpsShape(d);
    assert [] + d == d;
    MembersParse([], d, []);
    assert ObjectBody(u) == ParseMembers(u, []);
    ObjectLoads(u, d);
  }

  // ---------------------------------------------------------------- apostrophes

  /** `s.replace("'", '"')`: every apostrophe becomes a double quote. */
  function ReplaceApostrophes(s: string): (r: string)
    ensures |r| == |s|
    ensures forall i :: 0 <= i < |s| ==> r[i] == (if s[i] == '\'' then '"' else s[i])
  {
    seq(|s|, i requires 0 <= i < |s| => if s[i] == '\'' then '"' else s[i])
  }

  /** The member has an apostrophe in its key or in its string value. */
  predicate HasApostrophe(m: Member)
  {
    '\'' in m.key || (m.value.Str? && '\'' in m.value.s)
  }

  /** No member of `d` has an apostrophe. */
  predicate NoApostrophe(d: Dict)
  {
    forall i :: 0 <= i < |d| ==> !HasApostrophe(d[i])
  }

  lemma AsciiConcat(a: string, b: string)
    ensures IsAscii(a + b) <==> IsAscii(a) && IsAscii(b)
  {
    assert forall c :: c in a + b <==> c in a || c in b;
  }

  /** Text without an apostrophe is left alone by the replacement. */
  lemma ReplaceNothing(s: string)
    requires '\'' !in s
    ensures ReplaceApostrophes(s) == s
  {
    var r := ReplaceApostrophes(s);
    forall i | 0 <= i < |s| ensures r[i] == s[i] {
      assert s[i] in s;
    }
  }

  lemma HexDigitPlain(n: nat)
    requires n < 16
    ensures HexDigit(n) as int < 128 && HexDigit(n) != '\''
  {
  }

  lemma UnicodeEscapePlain(n: nat)
    requires n < 0x1_0000
    ensures IsAscii(UnicodeEscape(n)) && '\'' !in UnicodeEscape(n)
  {
    HexDigitPlain(n / 4096);
    HexDigitPlain(n / 256 % 16);
    HexDigitPlain(n / 16 % 16);
    HexDigitPlain(n % 16);
  }

  /** One escaped character is ASCII, and holds an apostrophe exactly when it is one. */
  lemma EscapeCharPlain(c: char)
    ensures IsAscii(EscapeChar(c))
    ensures '\'' in EscapeChar(c) <==> c == '\''
  {
    if !(' ' <= c <= '~') && |EscapeChar(c)| != 2 {
      CodeUnitEscapesPlain(c);
    }
  }

  lemma CodeUnitEscapesPlain(c: char)
    ensures IsAscii(CodeUnitEscapes(c)) && '\'' !in CodeUnitEscapes(c)
  {
    if c as int < 0x1_0000 {
      UnicodeEscapePlain(c as int);
    } else {
      var u := c as int - 0x1_0000;
      var hi, lo := 0xD800 + u / 0x400, 0xDC00 + u % 0x400;
      SurrogateHalves(c);
      UnicodeEscapePlain(hi);
      UnicodeEscapePlain(lo);
      PairPlain(UnicodeEscape(hi), UnicodeEscape(lo));
    }
  }

  lemma PairPlain(a: string, b: string)
    requires IsAscii(a) && IsAscii(b) && '\'' !in a && '\'' !in b
    ensures IsAscii(a + b) && '\'' !in a + b
  {
    AsciiConcat(a, b);
  }

  /** `ensure_ascii` output is ASCII, and holds an apostrophe exactly when the string does. */
  lemma {:induction false} EscapePlain(s: string)
    ensures IsAscii(Escape(s))
    ensures '\'' in Escape(s) <==> '\'' in s
  {
    if s != [] {
      EscapePlain(s[1..]);
      EscapeCharPlain(s[0]);
      AsciiConcat(EscapeChar(s[0]), Escape(s[1..]));
      assert s == [s[0]] + s[1..];
    }
  }

  lemma {:induction false} NatTextPlain(n: nat)
    ensures IsAscii(NatText(n)) && '\'' !in NatText(n)
  {
    if n >= 10 {
      NatTextPlain(n / 10);
      AsciiConcat(NatText(n / 10), [('0' as int + n % 10) as char]);
    }
  }

  lemma ValueTextPlain(v: Val)
    ensures IsAscii(ValueText(v))
    ensures '\'' in ValueText(v) <==> v.Str? && '\'' in v.s
  {
    match v
    case Str(s) =>
      EscapePlain(s);
      AsciiConcat(['"'] + Escape(s), ['"']);
      AsciiConcat(['"'], Escape(s));
    case Int(i) =>
      NatTextPlain(if i < 0 then -i else i);
      if i < 0 {
        AsciiConcat(['-'], NatText(-i));
      }
    case Bool(b) =>
    case Null =>
  }

  lemma MemberTextPlain(m: Member)
    ensures IsAscii(MemberText(m))
    ensures '\'' in MemberText(m) <==> HasApostrophe(m)
  {
    EscapePlain(m.key);
    ValueTextPlain(m.value);
    AsciiConcat(['"'] + Escape(m.key), ['"']);
    AsciiConcat(['"'], Escape(m.key));
    AsciiConcat(Quoted(m.key), [':', ' ']);
    AsciiConcat(Quoted(m.key) + [':', ' '], ValueText(m.value));
  }

  lemma {:induction false} MembersTailPlain(ms: Dict)
    ensures IsAscii(MembersTail(ms))
    ensures '\'' in MembersTail(ms) <==> !NoApostrophe(ms)
  {
    if ms != [] {
      MembersTailPlain(ms[1..]);
      MemberTextPlain(ms[0]);
      AsciiConcat([',', ' '], MemberText(ms[0]));
      AsciiConcat([',', ' '] + MemberText(ms[0]), MembersTail(ms[1..]));
      NoApostropheCons(ms);
    }
  }

  lemma NoApostropheCons(d: Dict)
    requires d != []
    ensures NoApostrophe(d) <==> !HasApostrophe(d[0]) && NoApostrophe(d[1..])
  {
    if !HasApostrophe(d[0]) && NoApostrophe(d[1..]) {
      forall i | 0 <= i < |d| ensures !HasApostrophe(d[i]) {
        if i > 0 {
          assert d[i] == d[1..][i - 1];
        }
      }
    }
  }

  /**
   * `json.dumps` writes ASCII only, and its text holds an apostrophe exactly when some key
   * or string value of the record does.
   */
  lemma DumpsPlain(d: Dict)
    ensures IsAscii(Dumps(d))
    ensures '\'' in Dumps(d) <==> !NoApostrophe(d)
  {
    if d != [] {
      MemberTextPlain(d[0]);
      MembersTailPlain(d[1..]);
      NoApostropheCons(d);
      AsciiConcat(['{'], MemberText(d[0]));
      AsciiConcat(['{'] + MemberText(d[0]), MembersTail(d[1..]));
      AsciiConcat(['{'] + MemberText(d[0]) + MembersTail(d[1..]), ['}']);
    }
  }

  /**
   * What `decrypt_credentials` parses: a record without apostrophes survives the
   * apostrophe replacement and reads back unchanged.
   */
  lemma LoadsReplacedDumps(d: Dict)
    requires DistinctKeys(d) && NoApostrophe(d)
    ensures Loads(ReplaceApostrophes(Dumps(d))) == Some(d)
  {
    DumpsPlain(d);
    ReplaceNothing(Dumps(d));
    LoadsDumps(d);
  }

  /** The members loop fails when a value is followed by neither ',' nor '}'. */
  lemma ParseMembersStuck(s: string, acc: Dict, key: string, t: string, v: Val, after: string)
    requires s != [] && s[0] == '"'
    requires ParseStringBody(s[1..]) == Some(Parsed(key, t))
    requires SkipWhitespace(t) == t && t != [] && t[0] == ':'
    requires ParseValue(SkipWhitespace(t[1..])) == Some(Parsed(v, after))
    requires after != [] && !IsWhitespace(after[0]) && after[0] != ',' && after[0] != '}'
    ensures ParseMembers(s, acc) == None
  {
    NoLeadingSpace(after);
  }

  lemma ObjectFails(s: string)
    requires s != [] && s[0] == '{'
    requires ObjectBody(SkipWhitespace(s[1..])) == None
    ensures Loads(s) == None
  {
  }

  /** Printable ASCII that `json.dumps` copies through unescaped. */
  predicate PlainText(x: string)
  {
    forall c | c in x :: ' ' <= c <= '~' && c != '"' && c != '\\'
  }

  lemma PlainCharCopied(c: char)
    requires ' ' <= c <= '~' && c != '"' && c != '\\'
    ensures EscapeChar(c) == [c]
  {
  }

  lemma {:induction false} EscapePlainText(x: string)
    requires PlainText(x)
    ensures Escape(x) == x
  {
    if x != [] {
      assert x[0] in x;
      PlainCharCopied(x[0]);
      assert PlainText(x[1..]) by {
        forall c | c in x[1..] ensures ' ' <= c <= '~' && c != '"' && c != '\\' {
          assert c in x;
        }
      }
      EscapePlainText(x[1..]);
      assert Escape(x) == [x[0]] + x[1..];
      assert [x[0]] + x[1..] == x;
    }
  }

  lemma ReplaceConcat(x: string, y: string)
    ensures ReplaceApostrophes(x + y) == ReplaceApostrophes(x) + ReplaceApostrophes(y)
  {
    var l, r := ReplaceApostrophes(x + y), ReplaceApostrophes(x) + ReplaceApostrophes(y);
    forall i | 0 <= i < |l| ensures l[i] == r[i] {
      if i < |x| {
        assert (x + y)[i] == x[i];
      } else {
        assert (x + y)[i] == y[i - |x|];
      }
    }
  }

  /** The text `json.dumps` writes for a one-member record with a plain key and string value. */
  lemma DumpsOneString(k: string, s: string)
    requires PlainText(k) && PlainText(s)
    ensures Dumps([Member(k, Str(s))]) == ['{', '"'] + k + ['"', ':', ' ', '"'] + s + ['"', '}']
  {
    var m := Member(k, Str(s));
    OneMemberDumps(m);
    PlainMemberText(k, s);
    OneStringText(k, s);
  }

  lemma OneMemberDumps(m: Member)
    ensures Dumps([m]) == ['{'] + MemberText(m) + ['}']
  {
    assert MembersTail([m][1..]) == [];
  }

  lemma PlainMemberText(k: string, s: string)
    requires PlainText(k) && PlainText(s)
    ensures MemberText(Member(k, Str(s))) == ['"'] + k + ['"'] + [':', ' '] + (['"'] + s + ['"'])
  {
    EscapePlainText(k);
    EscapePlainText(s);
  }

  lemma OneStringText(k: string, s: string)
    ensures ['{'] + (['"'] + k + ['"'] + [':', ' '] + (['"'] + s + ['"'])) + ['}']
      == ['{', '"'] + k + ['"', ':', ' ', '"'] + s + ['"', '}']
  {
  }

  /** After the replacement, the apostrophe in the value has become a closing quote. */
  lemma ReplacedOneString(k: string, a: string, b: string)
    requires '\'' !in k && '\'' !in a && '\'' !in b
    ensures var x := ['{', '"'] + k + ['"', ':', ' ', '"'] + (a + ['\''] + b) + ['"', '}'];
      ReplaceApostrophes(x) == ['{'] + (['"'] + (k + (['"'] + ([':', ' '] + (['"'] + (a + (['"'] + (b + ['"', '}']))))))))
  {
    ReplaceNothing(k);
    ReplaceNothing(a);
    ReplaceNothing(b);
    ReplaceNothing(['{', '"']);
    ReplaceNothing(['"', ':', ' ', '"']);
    ReplaceNothing(['"', '}']);
    assert ReplaceApostrophes(['\'']) == ['"'];
    ReplaceConcat(['{', '"'], k);
    ReplaceConcat(['{', '"'] + k, ['"', ':', ' ', '"']);
    ReplaceConcat(a, ['\'']);
    ReplaceConcat(a + ['\''], b);
    ReplaceConcat(['{', '"'] + k + ['"', ':', ' ', '"'], a + ['\''] + b);
    ReplaceConcat(['{', '"'] + k + ['"', ':', ' ', '"'] + (a + ['\''] + b), ['"', '}']);
  }

  /** A plain string literal followed by `after` reads back as that string. */
  lemma PlainStringParses(x: string, after: string)
    requires PlainText(x)
    ensures ParseStringBody(x + (['"'] + after)) == Some(Parsed(x, after))
  {
    EscapeParses(x, after);
    PlainLiteral(x, after);
  }

  lemma PlainLiteral(x: string, after: string)
    requires PlainText(x)
    ensures x + (['"'] + after) == Escape(x) + ['"'] + after
  {
    EscapePlainText(x);
  }

  lemma BrokenValue(a: string, b: string)
    requires PlainText(a)
    ensures ParseValue(['"'] + (a + (['"'] + (b + ['"', '}'])))) == Some(Parsed(Str(a), b + ['"', '}']))
  {
    var v := ['"'] + (a + (['"'] + (b + ['"', '}'])));
    PlainStringParses(a, b + ['"', '}']);
    assert v[1..] == a + (['"'] + (b + ['"', '}']));
  }

  lemma BrokenMembers(k: string, a: string, b: string)
    requires PlainText(k) && PlainText(a)
    requires b != [] && !IsWhitespace(b[0]) && b[0] != ',' && b[0] != '}'
    ensures ParseMembers(['"'] + (k + (['"'] + ([':', ' '] + (['"'] + (a + (['"'] + (b + ['"', '}']))))))), []) == None
  {
    var after := b + ['"', '}'];
    var v := ['"'] + (a + (['"'] + after));
    var t := [':', ' '] + v;
    var u := ['"'] + (k + (['"'] + t));
    assert u[1..] == k + (['"'] + t);
    PlainStringParses(k, t);
    ColonSkips(v);
    BrokenValue(a, b);
    assert after[0] == b[0];
    ParseMembersStuck(u, [], k, t, Str(a), after);
  }

  /**
   * A string value with an apostrophe, followed by a character that cannot continue the
   * object: the replacement ends the string at the apostrophe, and the record no longer
   * loads (for example the password "it's").
   */
  lemma ApostropheBreaksLoads(k: string, a: string, b: string)
    requires PlainText(k) && PlainText(a) && PlainText(b)
    requires '\'' !in k && '\'' !in a && '\'' !in b
    requires b != [] && !IsWhitespace(b[0]) && b[0] != ',' && b[0] != '}'
    ensures Loads(ReplaceApostrophes(Dumps([Member(k, Str(a + ['\''] + b))]))) == None
  {
    assert PlainText(a + ['\''] + b) by {
      assert forall c | c in a + ['\''] + b :: c in a || c == '\'' || c in b;
    }
    DumpsOneString(k, a + ['\''] + b);
    ReplacedOneString(k, a, b);
    var u := ['"'] + (k + (['"'] + ([':', ' '] + (['"'] + (a + (['"'] + (b + ['"', '}'])))))));
    var r := ['{'] + u;
    BrokenMembers(k, a, b);
    assert r[1..] == u;
    NoLeadingSpace(u);
    ObjectFails(r);
  }

  // ---------------------------------------------------------------- an apostrophe that injects a member

  /** The text an injected value carries between its two halves: `', '` and `': '`. */
  const InjectedComma: string := ['\'', ',', ' ', '\'']
  const InjectedColon: string := ['\'', ':', ' ', '\'']

  /**
   * A string value of the form a', 'k2': 'v does not break the record: the replacement turns
   * its apostrophes into quotes, and the record loads as a different one, the value cut to
   * `a` and a member `k2` of value `v` added (for example a password chosen by whoever
   * filled in the record).
   */
  lemma ApostropheInjectsMember(k: string, a: string, k2: string, v: string)
    requires PlainText(k) && PlainText(a) && PlainText(k2) && PlainText(v)
    requires '\'' !in k && '\'' !in a && '\'' !in k2 && '\'' !in v
    requires k != k2
    ensures Loads(ReplaceApostrophes(Dumps([Member(k, Str(a + InjectedComma + k2 + InjectedColon + v))])))
      == Some([Member(k, Str(a)), Member(k2, Str(v))])
  {
    var s := a + InjectedComma + k2 + InjectedColon + v;
    assert PlainText(s) by {
      assert forall c | c in s :: c in a || c in InjectedComma || c in k2 || c in InjectedColon || c in v;
    }
    DumpsOneString(k, s);
    InjectedText(k, a, k2, v);
    ReplacedInjection(k, a, k2, v);
    TwoStringsDumps(k, a, k2, v);
    var d := [Member(k, Str(a)), Member(k2, Str(v))];
    assert DistinctKeys(d) by {
      DistinctCons(d);
      KeysCons(d[1..]);
      assert d[1..][1..] == [];
    }
    LoadsDumps(d);
  }

  lemma InjectedText(k: string, a: string, k2: string, v: string)
    ensures ['{', '"'] + k + ['"', ':', ' ', '"'] + (a + InjectedComma + k2 + InjectedColon + v) + ['"', '}']
      == ['{', '"'] + k + ['"', ':', ' ', '"'] + a + InjectedComma + k2 + InjectedColon + v + ['"', '}']
  {
  }

  /** After the replacement, the injected separators are a closing quote, a comma and an opening quote. */
  lemma ReplacedInjection(k: string, a: string, k2: string, v: string)
    requires '\'' !in k && '\'' !in a && '\'' !in k2 && '\'' !in v
    ensures ReplaceApostrophes(['{', '"'] + k + ['"', ':', ' ', '"'] + a + InjectedComma + k2 + InjectedColon + v + ['"', '}'])
      == ['{', '"'] + k + ['"', ':', ' ', '"'] + a + ['"', ',', ' ', '"'] + k2 + ['"', ':', ' ', '"'] + v + ['"', '}']
  {
    var head := ['{', '"'] + k + ['"', ':', ' ', '"'];
    ReplaceNothing(k);
    ReplaceNothing(['{', '"']);
    ReplaceNothing(['"', ':', ' ', '"']);
    ReplaceConcat(['{', '"'], k);
    ReplaceConcat(['{', '"'] + k, ['"', ':', ' ', '"']);
    ReplaceNothing(a);
    ReplaceNothing(k2);
    ReplaceNothing(v);
    ReplaceNothing(['"', '}']);
    assert ReplaceApostrophes(InjectedComma) == ['"', ',', ' ', '"'];
    assert ReplaceApostrophes(InjectedColon) == ['"', ':', ' ', '"'];
    ReplaceConcat(head, a);
    ReplaceConcat(head + a, InjectedComma);
    ReplaceConcat(head + a + InjectedComma, k2);
    ReplaceConcat(head + a + InjectedComma + k2, InjectedColon);
    ReplaceConcat(head + a + InjectedComma + k2 + InjectedColon, v);
    ReplaceConcat(head + a + InjectedComma + k2 + InjectedColon + v, ['"', '}']);
  }

  /** The text `json.dumps` writes for two members with plain keys and string values. */
  lemma TwoStringsDumps(k: string, a: string, k2: string, v: string)
    requires PlainText(k) && PlainText(a) && PlainText(k2) && PlainText(v)
    ensures Dumps([Member(k, Str(a)), Member(k2, Str(v))])
      == ['{', '"'] + k + ['"', ':', ' ', '"'] + a + ['"', ',', ' ', '"'] + k2 + ['"', ':', ' ', '"'] + v + ['"', '}']
  {
    var d := [Member(k, Str(a)), Member(k2, Str(v))];
    var t1 := MemberText(d[0]);
    var t2 := MemberText(d[1]);
    assert d[1..] == [d[1]] && [d[1]][1..] == [];
    assert MembersTail(d[1..]) == [',', ' '] + t2 + [];
    PlainMemberText(k, a);
    PlainMemberText(k2, v);
    assert Dumps(d) == ['{'] + t1 + ([',', ' '] + t2 + []) + ['}'];
    TwoStringsText(k, a, k2, v);
  }

  lemma TwoStringsText(k: string, a: string, k2: string, v: string)
    ensures ['{'] + (['"'] + k + ['"'] + [':', ' '] + (['"'] + a + ['"']))
        + ([',', ' '] + (['"'] + k2 + ['"'] + [':', ' '] + (['"'] + v + ['"'])) + []) + ['}']
      == ['{', '"'] + k + ['"', ':', ' ', '"'] + a + ['"', ',', ' ', '"'] + k2 + ['"', ':', ' ', '"'] + v + ['"', '}']
  {
  }
}
