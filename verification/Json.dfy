/** The JSON text the Nostr code prints and the recursive descent it reads it back with
    (section 7 of RFC 8259 for strings), both as functions on bytes. */
module Json {
  import opened Base
  import opened NostrTypes
  import Utf8

  datatype JsonValue =
    | Null
    | Bool(b: bool)
    | Number(n: U64)
    | Str(text: string)
    | Array(items: seq<JsonValue>)
    | Object(members: seq<Member>)

  datatype Member = Member(name: string, value: JsonValue)

  // ---- printing ----

  function HexNibble(v: nat): Byte
    requires v < 16
  {
    if v < 10 then 0x30 + v else 0x61 + (v - 10)
  }

  function EscapeChar(c: char): (bytes: Bytes)
    ensures bytes != []
  {
    var v := c as int;
    if c == '"' then [0x5C, 0x22]
    else if c == '\\' then [0x5C, 0x5C]
    else if c == '\n' then [0x5C, 0x6E]
    else if c == '\r' then [0x5C, 0x72]
    else if c == '\t' then [0x5C, 0x74]
    else if v == 0x08 then [0x5C, 0x62]
    else if v == 0x0C then [0x5C, 0x66]
    else if v < 0x20 then [0x5C, 0x75, 0x30, 0x30, HexNibble(v / 16), HexNibble(v % 16)]
    else Utf8.EncodeChar(c)
  }

  function Escape(text: string): Bytes {
    if text == [] then [] else EscapeChar(text[0]) + Escape(text[1..])
  }

  function PrintString(text: string): Bytes {
    [0x22] + Escape(text) + [0x22]
  }

  /** Decimal digits without leading zeros. */
  function Digits(n: nat): (bytes: Bytes)
    ensures bytes != []
  {
    if n < 10 then [0x30 + n] else Digits(n / 10) + [0x30 + n % 10]
  }

  function Print(v: JsonValue): Bytes
    decreases v, 0
  {
    match v
    case Null => [0x6E, 0x75, 0x6C, 0x6C]
    case Bool(b) => if b then [0x74, 0x72, 0x75, 0x65] else [0x66, 0x61, 0x6C, 0x73, 0x65]
    case Number(n) => Digits(n)
    case Str(text) => PrintString(text)
    case Array(items) => [0x5B] + PrintItems(items) + [0x5D]
    case Object(members) => [0x7B] + PrintMembers(members) + [0x7D]
  }

  function PrintItems(items: seq<JsonValue>): Bytes
    decreases items
  {
    if items == [] then []
    else if |items| == 1 then Print(items[0])
    else Print(items[0]) + [0x2C] + PrintItems(items[1..])
  }

  function PrintMember(m: Member): Bytes
    decreases m, 0
  {
    PrintString(m.name) + [0x3A] + Print(m.value)
  }

  function PrintMembers(members: seq<Member>): Bytes
    decreases members
  {
    if members == [] then []
    else if |members| == 1 then PrintMember(members[0])
    else PrintMember(members[0]) + [0x2C] + PrintMembers(members[1..])
  }

  // ---- parsing: each function maps the unread bytes to a value and what is left ----

  type Parsed<T> = Result<(T, Bytes), NostrError>

  predicate Blank(b: Byte) {
    b == 0x20 || b == 0x0A || b == 0x0D || b == 0x09
  }

  function SkipWs(s: Bytes): (rest: Bytes)
    ensures |rest| <= |s|
  {
    if s != [] && Blank(s[0]) then SkipWs(s[1..]) else s
  }

  predicate Starts(s: Bytes, b: Byte) {
    s != [] && s[0] == b
  }

  function ParseLiteral(s: Bytes, literal: Bytes, v: JsonValue): (r: Parsed<JsonValue>)
    requires literal != []
    ensures r.Ok? ==> |r.value.1| < |s|
  {
    if literal <= s then Ok((v, s[|literal|..])) else Err(MalformedMessage)
  }

  predicate IsDigit(b: Byte) {
    0x30 <= b <= 0x39
  }

  function DigitCount(s: Bytes): (n: nat)
    ensures n <= |s|
    ensures s != [] && IsDigit(s[0]) ==> n > 0
  {
    if s != [] && IsDigit(s[0]) then 1 + DigitCount(s[1..]) else 0
  }

  predicate AllDigits(s: Bytes) {
    forall i | 0 <= i < |s| :: IsDigit(s[i])
  }

  function DigitValue(b: Byte): nat
    requires IsDigit(b)
  {
    b - 0x30
  }

  /** The number written by a run of digits, however many leading zeros it has. */
  function DigitsValue(digits: Bytes): nat
    requires AllDigits(digits)
  {
    if digits == [] then 0
    else
      var last := |digits| - 1;
      DigitsValue(digits[..last]) * 10 + DigitValue(digits[last])
  }

  lemma {:induction false} DigitCountDigits(s: Bytes)
    ensures AllDigits(s[..DigitCount(s)])
    ensures DigitCount(s) < |s| ==> !IsDigit(s[DigitCount(s)])
  {
    if s != [] && IsDigit(s[0]) {
      DigitCountDigits(s[1..]);
      forall i | 0 <= i < DigitCount(s) ensures IsDigit(s[i]) {
        if i > 0 {
          assert s[i] == s[1..][..DigitCount(s[1..])][i - 1];
        }
      }
    }
  }

  function ParseNumber(s: Bytes): (r: Parsed<JsonValue>)
    requires s != [] && IsDigit(s[0])
    ensures r.Ok? ==> |r.value.1| < |s|
  {
    var n := DigitCount(s);
    DigitCountDigits(s);
    var v := DigitsValue(s[..n]);
    if v <= 0xFFFF_FFFF_FFFF_FFFF then Ok((Number(v), s[n..])) else Err(MalformedMessage)
  }

  function HexValue(b: Byte): Result<nat, NostrError> {
    if 0x30 <= b <= 0x39 then Ok(b - 0x30)
    else if 0x61 <= b <= 0x66 then Ok(b - 0x61 + 10)
    else if 0x41 <= b <= 0x46 then Ok(b - 0x41 + 10)
    else Err(MalformedMessage)
  }

  /** Four hexadecimal digits naming a scalar value; a surrogate is refused. */
  function ParseUnicodeEscape(s: Bytes, count: nat, value: nat): (r: Parsed<char>)
    requires count <= 4
    ensures r.Ok? ==> |r.value.1| <= |s|
    decreases 4 - count
  {
    if count == 4 then
      if value < 0xD800 || 0xE000 <= value < 0x11_0000 then Ok((value as char, s))
      else Err(MalformedMessage)
    else if s == [] then Err(MalformedMessage)
    else
      var digit :- HexValue(s[0]);
      ParseUnicodeEscape(s[1..], count + 1, value * 16 + digit)
  }

  /** What follows a backslash. */
  function ParseEscape(s: Bytes): (r: Parsed<char>)
    ensures r.Ok? ==> |r.value.1| < |s|
  {
    if s == [] then Err(MalformedMessage)
    else
      var b := s[0];
      if b == 0x22 then Ok(('"', s[1..]))
      else if b == 0x5C then Ok(('\\', s[1..]))
      else if b == 0x2F then Ok(('/', s[1..]))
      else if b == 0x62 then Ok((0x08 as char, s[1..]))
      else if b == 0x66 then Ok((0x0C as char, s[1..]))
      else if b == 0x6E then Ok(('\n', s[1..]))
      else if b == 0x72 then Ok(('\r', s[1..]))
      else if b == 0x74 then Ok(('\t', s[1..]))
      else if b == 0x75 then ParseUnicodeEscape(s[1..], 0, 0)
      else Err(MalformedMessage)
  }

  /** One character of a string body, which does not start with a quote. A byte of
      0x80 or more makes the source decode everything unread. */
  function ParseStringChar(s: Bytes): (r: Parsed<char>)
    requires s != [] && s[0] != 0x22
    ensures r.Ok? ==> |r.value.1| < |s|
  {
    if s[0] == 0x5C then ParseEscape(s[1..])
    else if s[0] < 0x20 then Err(MalformedMessage)
    else if s[0] < 0x80 then Ok((s[0] as char, s[1..]))
    else
      match Utf8.Decode(s)
      case None => Err(Utf8Error)
      case Some(text) =>
        Utf8.EncodeDecode(s);
        if text == [] then Err(MalformedMessage)
        else Ok((text[0], s[Utf8.Width(text[0])..]))
  }

  function PrependText(text: string, r: Parsed<string>): Parsed<string> {
    match r
    case Err(e) => Err(e)
    case Ok((tail, rest)) => Ok((text + tail, rest))
  }

  /** A string body up to and including its closing quote. */
  function ParseStringBody(s: Bytes): (r: Parsed<string>)
    ensures r.Ok? ==> |r.value.1| < |s|
    decreases |s|
  {
    if s == [] then Err(MalformedMessage)
    else if s[0] == 0x22 then Ok(([], s[1..]))
    else
      var (c, rest) :- ParseStringChar(s);
      PrependText([c], ParseStringBody(rest))
  }

  function ParseString(s: Bytes): (r: Parsed<string>)
    ensures r.Ok? ==> |r.value.1| < |s|
  {
    if Starts(s, 0x22) then ParseStringBody(s[1..]) else Err(MalformedMessage)
  }

  function ParseValue(s: Bytes): (r: Parsed<JsonValue>)
    ensures r.Ok? ==> |r.value.1| < |s|
    decreases |s|, 0
  {
    var t := SkipWs(s);
    if t == [] then Err(MalformedMessage)
    else if t[0] == 0x6E then ParseLiteral(t, [0x6E, 0x75, 0x6C, 0x6C], Null)
    else if t[0] == 0x74 then ParseLiteral(t, [0x74, 0x72, 0x75, 0x65], Bool(true))
    else if t[0] == 0x66 then ParseLiteral(t, [0x66, 0x61, 0x6C, 0x73, 0x65], Bool(false))
    else if t[0] == 0x22 then
      var (text, rest) :- ParseString(t);
      Ok((Str(text), rest))
    else if t[0] == 0x5B then
      var u := SkipWs(t[1..]);
      if Starts(u, 0x5D) then Ok((Array([]), u[1..]))
      else
        var (items, rest) :- ParseItems(u);
        Ok((Array(items), rest))
    else if t[0] == 0x7B then
      var u := SkipWs(t[1..]);
      if Starts(u, 0x7D) then Ok((Object([]), u[1..]))
      else
        var (members, rest) :- ParseMembers(u);
        Ok((Object(members), rest))
    else if IsDigit(t[0]) then ParseNumber(t)
    else Err(MalformedMessage)
  }

  function PrependItems(items: seq<JsonValue>, r: Parsed<seq<JsonValue>>): Parsed<seq<JsonValue>> {
    match r
    case Err(e) => Err(e)
    case Ok((tail, rest)) => Ok((items + tail, rest))
  }

  /** At least one array item, and the closing bracket. */
  function ParseItems(s: Bytes): (r: Parsed<seq<JsonValue>>)
    ensures r.Ok? ==> |r.value.1| < |s|
    decreases |s|, 1
  {
    var (v, rest) :- ParseValue(s);
    var t := SkipWs(rest);
    if Starts(t, 0x5D) then Ok(([v], t[1..]))
    else if Starts(t, 0x2C) then PrependItems([v], ParseItems(t[1..]))
    else Err(MalformedMessage)
  }

  function PrependMembers(members: seq<Member>, r: Parsed<seq<Member>>): Parsed<seq<Member>> {
    match r
    case Err(e) => Err(e)
    case Ok((tail, rest)) => Ok((members + tail, rest))
  }

  /** A member name and its colon. */
  function ParseName(s: Bytes): (r: Parsed<string>)
    ensures r.Ok? ==> |r.value.1| < |s|
  {
    var (name, rest) :- ParseString(SkipWs(s));
    var t := SkipWs(rest);
    if Starts(t, 0x3A) then Ok((name, t[1..])) else Err(MalformedMessage)
  }

  /** At least one object member, and the closing brace. */
  function ParseMembers(s: Bytes): (r: Parsed<seq<Member>>)
    ensures r.Ok? ==> |r.value.1| < |s|
    decreases |s|, 1
  {
    var (name, afterName) :- ParseName(s);
    var (v, rest) :- ParseValue(afterName);
    var t := SkipWs(rest);
    if Starts(t, 0x7D) then Ok(([Member(name, v)], t[1..]))
    else if Starts(t, 0x2C) then PrependMembers([Member(name, v)], ParseMembers(t[1..]))
    else Err(MalformedMessage)
  }

  /** One value and nothing but white space after it. */
  function Parse(s: Bytes): Result<JsonValue, NostrError> {
    var (v, rest) :- ParseValue(s);
    if SkipWs(rest) == [] then Ok(v) else Err(MalformedMessage)
  }
}
