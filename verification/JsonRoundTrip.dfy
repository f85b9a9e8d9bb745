/** The parser is a left inverse of the printer on every JSON value, and never reports
    malformed UTF-8 on text. */
module JsonRoundTrip {
  import opened Base
  import opened NostrTypes
  import opened Json
  import Utf8

  // ---- one character ----

  lemma HexNibbleRoundTrip(v: nat)
    requires v < 16
    ensures HexValue(HexNibble(v)) == Ok(v)
  {
  }

  lemma UnicodeEscapeRoundTrip(v: nat, rest: Bytes)
    requires v < 0x20
    ensures ParseUnicodeEscape([0x30, 0x30, HexNibble(v / 16), HexNibble(v % 16)] + rest, 0, 0) == Ok((v as char, rest))
  {
    var s := [0x30, 0x30, HexNibble(v / 16), HexNibble(v % 16)] + rest;
    HexNibbleRoundTrip(v / 16);
    HexNibbleRoundTrip(v % 16);
    assert ParseUnicodeEscape(s, 0, 0) == ParseUnicodeEscape(s[1..], 1, 0);
    assert ParseUnicodeEscape(s[1..], 1, 0) == ParseUnicodeEscape(s[1..][1..], 2, 0);
    assert s[1..][1..] == [HexNibble(v / 16), HexNibble(v % 16)] + rest;
    var t := s[1..][1..];
    assert ParseUnicodeEscape(t, 2, 0) == ParseUnicodeEscape(t[1..], 3, v / 16);
    assert t[1..][1..] == rest;
    assert ParseUnicodeEscape(t[1..], 3, v / 16) == ParseUnicodeEscape(rest, 4, v);
  }

  lemma PlainCharRoundTrip(c: char, rest: Bytes)
    requires Utf8.Valid(rest) && c as int >= 0x80
    ensures ParseStringChar(Utf8.EncodeChar(c) + rest) == Ok((c, rest))
  {
    var s := Utf8.EncodeChar(c) + rest;
    Utf8.DecodePrepend(c, rest);
    assert s[0] >= 0x80;
    assert s[Utf8.Width(c)..] == rest;
  }

  lemma CharRoundTrip(c: char, rest: Bytes)
    requires Utf8.Valid(rest)
    ensures var s := EscapeChar(c) + rest;
      s[0] != 0x22 && ParseStringChar(s) == Ok((c, rest)) && Utf8.Valid(s)
  {
    var s := EscapeChar(c) + rest;
    var v := c as int;
    if v >= 0x80 {
      PlainCharRoundTrip(c, rest);
      Utf8.DecodePrepend(c, rest);
    } else {
      EscapedAsciiValid(c, rest);
      if v < 0x20 && v !in {0x0A, 0x0D, 0x09, 0x08, 0x0C} {
        UnicodeEscapeRoundTrip(v, rest);
        assert s[1..][1..] == [0x30, 0x30, HexNibble(v / 16), HexNibble(v % 16)] + rest;
      } else if c == '"' || c == '\\' || v < 0x20 {
        assert s[1..][1..] == rest;
      } else {
        assert s[1..] == rest;
      }
    }
  }

  lemma AsciiPrefixValid(b: Byte, rest: Bytes)
    requires b < 0x80 && Utf8.Valid(rest)
    ensures Utf8.Valid([b] + rest)
  {
    Utf8.DecodePrepend(b as char, rest);
  }

  lemma {:induction false} AsciiRunValid(run: Bytes, rest: Bytes)
    requires (forall i | 0 <= i < |run| :: run[i] < 0x80) && Utf8.Valid(rest)
    ensures Utf8.Valid(run + rest)
  {
    if run == [] {
      assert run + rest == rest;
    } else {
      AsciiRunValid(run[1..], rest);
      AsciiPrefixValid(run[0], run[1..] + rest);
      assert run + rest == [run[0]] + (run[1..] + rest);
    }
  }

  lemma EscapedAsciiValid(c: char, rest: Bytes)
    requires c as int < 0x80 && Utf8.Valid(rest)
    ensures Utf8.Valid(EscapeChar(c) + rest)
  {
    AsciiRunValid(EscapeChar(c), rest);
  }

  // ---- strings and numbers ----

  lemma EscapeFirst(text: string)
    ensures Escape([]) == []
    ensures text != [] ==> Escape(text) == EscapeChar(text[0]) + Escape(text[1..])
  {
    hide EscapeChar;
  }

  lemma BodyEnds(rest: Bytes)
    ensures ParseStringBody([0x22] + rest) == Ok(([], rest))
  {
    assert ([0x22] + rest)[1..] == rest;
  }

  lemma BodyContinues(s: Bytes, c: char, tail: Bytes, text: string, rest: Bytes)
    requires s != [] && s[0] != 0x22 && ParseStringChar(s) == Ok((c, tail)) && ParseStringBody(tail) == Ok((text, rest))
    ensures ParseStringBody(s) == Ok(([c] + text, rest))
  {
    hide ParseStringChar;
  }

  lemma {:induction false} StringBodyRoundTrip(text: string, rest: Bytes)
    requires Utf8.Valid(rest)
    ensures ParseStringBody(Escape(text) + [0x22] + rest) == Ok((text, rest))
    ensures Utf8.Valid(Escape(text) + [0x22] + rest)
  {
    hide ParseStringBody, ParseStringChar, Escape, EscapeChar, Utf8.Valid;
    EscapeFirst(text);
    if text == [] {
      assert Escape(text) + [0x22] + rest == [0x22] + rest;
      AsciiPrefixValid(0x22, rest);
      BodyEnds(rest);
    } else {
      var tail := Escape(text[1..]) + [0x22] + rest;
      StringBodyRoundTrip(text[1..], rest);
      CharRoundTrip(text[0], tail);
      assert Escape(text) + [0x22] + rest == EscapeChar(text[0]) + tail;
      BodyContinues(EscapeChar(text[0]) + tail, text[0], tail, text[1..], rest);
      assert [text[0]] + text[1..] == text;
    }
  }

  lemma StringRoundTrip(text: string, rest: Bytes)
    requires Utf8.Valid(rest)
    ensures ParseString(PrintString(text) + rest) == Ok((text, rest))
    ensures Utf8.Valid(PrintString(text) + rest)
  {
    hide ParseStringBody, Escape, Utf8.Decode;
    StringBodyRoundTrip(text, rest);
    var s := PrintString(text) + rest;
    assert s[1..] == Escape(text) + [0x22] + rest;
    AsciiPrefixValid(0x22, s[1..]);
    assert s == [0x22] + s[1..];
  }

  lemma {:induction false} DigitsRoundTrip(n: nat)
    ensures AllDigits(Digits(n)) && DigitsValue(Digits(n)) == n
  {
    if n >= 10 {
      DigitsRoundTrip(n / 10);
      assert Digits(n)[..|Digits(n)| - 1] == Digits(n / 10);
    }
  }

  lemma {:induction false} DigitCountOfRun(digits: Bytes, rest: Bytes)
    requires AllDigits(digits) && !NumberContinues(rest)
    ensures DigitCount(digits + rest) == |digits|
  {
    if digits == [] {
      assert digits + rest == rest;
    } else {
      assert (digits + rest)[1..] == digits[1..] + rest;
      DigitCountOfRun(digits[1..], rest);
    }
  }

  /** A digit after a number would be read as part of it. */
  predicate NumberContinues(rest: Bytes) {
    rest != [] && IsDigit(rest[0])
  }

  lemma NumberRoundTrip(n: U64, rest: Bytes)
    requires Utf8.Valid(rest) && !NumberContinues(rest)
    ensures ParseValue(Digits(n) + rest) == Ok((Number(n), rest))
    ensures Utf8.Valid(Digits(n) + rest)
  {
    var s := Digits(n) + rest;
    DigitsRoundTrip(n);
    DigitCountOfRun(Digits(n), rest);
    AsciiRunValid(Digits(n), rest);
    assert IsDigit(s[0]) && SkipWs(s) == s;
    assert s[..|Digits(n)|] == Digits(n) && s[|Digits(n)|..] == rest;
  }

  // ---- values ----

  lemma LiteralRoundTrip(literal: Bytes, v: JsonValue, rest: Bytes)
    requires literal != []
    ensures ParseLiteral(literal + rest, literal, v) == Ok((v, rest))
  {
    assert (literal + rest)[|literal|..] == rest;
  }

  /** Printed values start with neither white space nor a closing bracket. */
  lemma PrintStart(v: JsonValue)
    ensures Print(v) != [] && !Blank(Print(v)[0]) && Print(v)[0] !in {0x5D, 0x7D}
  {
    if v.Number? {
      DigitsRoundTrip(v.n);
      assert IsDigit(Digits(v.n)[0]);
    }
  }

  // One unfolding of each parser, for text without white space.

  lemma StringValue(s: Bytes, text: string, rest: Bytes)
    requires Starts(s, 0x22) && ParseString(s) == Ok((text, rest))
    ensures ParseValue(s) == Ok((Str(text), rest))
  {
    assert SkipWs(s) == s;
  }

  lemma ArrayValue(u: Bytes, items: seq<JsonValue>, rest: Bytes)
    requires SkipWs(u) == u
    requires if items == [] then u == [0x5D] + rest else !Starts(u, 0x5D) && ParseItems(u) == Ok((items, rest))
    ensures ParseValue([0x5B] + u) == Ok((Array(items), rest))
  {
    var s := [0x5B] + u;
    assert SkipWs(s) == s && s[1..] == u;
    if items == [] {
      assert u[1..] == rest;
    }
  }

  lemma ObjectValue(u: Bytes, members: seq<Member>, rest: Bytes)
    requires SkipWs(u) == u
    requires if members == [] then u == [0x7D] + rest else !Starts(u, 0x7D) && ParseMembers(u) == Ok((members, rest))
    ensures ParseValue([0x7B] + u) == Ok((Object(members), rest))
  {
    var s := [0x7B] + u;
    assert SkipWs(s) == s && s[1..] == u;
    if members == [] {
      assert u[1..] == rest;
    }
  }

  lemma LastItem(s: Bytes, v: JsonValue, rest: Bytes)
    requires ParseValue(s) == Ok((v, [0x5D] + rest))
    ensures ParseItems(s) == Ok(([v], rest))
  {
    var t := [0x5D] + rest;
    assert SkipWs(t) == t && t[1..] == rest;
  }

  lemma NextItem(s: Bytes, v: JsonValue, u: Bytes)
    requires ParseValue(s) == Ok((v, [0x2C] + u))
    ensures ParseItems(s) == PrependItems([v], ParseItems(u))
  {
    var t := [0x2C] + u;
    assert SkipWs(t) == t && t[1..] == u;
  }

  lemma NameStep(s: Bytes, name: string, t: Bytes)
    requires Starts(s, 0x22) && ParseString(s) == Ok((name, [0x3A] + t))
    ensures ParseName(s) == Ok((name, t))
  {
    var u := [0x3A] + t;
    assert SkipWs(s) == s && SkipWs(u) == u && u[1..] == t;
  }

  lemma LastMember(s: Bytes, m: Member, t: Bytes, rest: Bytes)
    requires ParseName(s) == Ok((m.name, t)) && ParseValue(t) == Ok((m.value, [0x7D] + rest))
    ensures ParseMembers(s) == Ok(([m], rest))
  {
    var u := [0x7D] + rest;
    assert SkipWs(u) == u && u[1..] == rest;
  }

  lemma NextMember(s: Bytes, m: Member, t: Bytes, u: Bytes)
    requires ParseName(s) == Ok((m.name, t)) && ParseValue(t) == Ok((m.value, [0x2C] + u))
    ensures ParseMembers(s) == PrependMembers([m], ParseMembers(u))
  {
    var w := [0x2C] + u;
    assert SkipWs(w) == w && w[1..] == u;
  }

  /** The text between an array's opening bracket and what follows the array. */
  ghost predicate ItemsReadBack(items: seq<JsonValue>, rest: Bytes) {
    var u := PrintItems(items) + ([0x5D] + rest);
    Utf8.Valid(u) && SkipWs(u) == u &&
    if items == [] then u == [0x5D] + rest else !Starts(u, 0x5D) && ParseItems(u) == Ok((items, rest))
  }

  /** The text between an object's opening brace and what follows the object. */
  ghost predicate MembersReadBack(members: seq<Member>, rest: Bytes) {
    var u := PrintMembers(members) + ([0x7D] + rest);
    Utf8.Valid(u) && SkipWs(u) == u &&
    if members == [] then u == [0x7D] + rest else !Starts(u, 0x7D) && ParseMembers(u) == Ok((members, rest))
  }

  ghost predicate ReadsBack(v: JsonValue, rest: Bytes) {
    ParseValue(Print(v) + rest) == Ok((v, rest)) && Utf8.Valid(Print(v) + rest)
  }

  lemma {:induction false} ValueRoundTrip(v: JsonValue, rest: Bytes)
    requires Utf8.Valid(rest) && !NumberContinues(rest)
    ensures ReadsBack(v, rest)
    decreases v, 0
  {
    hide ParseValue, Print, ItemsReadBack, MembersReadBack;
    match v
    case Null => LiteralValueRoundTrip(v, rest);
    case Bool(_) => LiteralValueRoundTrip(v, rest);
    case Number(n) => NumberValueRoundTrip(n, rest);
    case Str(text) => StringValueRoundTrip(text, rest);
    case Array(items) =>
      ItemsRoundTrip(items, rest);
      ArrayValueRoundTrip(items, rest);
    case Object(members) =>
      MembersRoundTrip(members, rest);
      ObjectValueRoundTrip(members, rest);
  }

  lemma NumberValueRoundTrip(n: U64, rest: Bytes)
    requires Utf8.Valid(rest) && !NumberContinues(rest)
    ensures ReadsBack(Number(n), rest)
  {
    NumberRoundTrip(n, rest);
  }

  lemma StringValueRoundTrip(text: string, rest: Bytes)
    requires Utf8.Valid(rest)
    ensures ReadsBack(Str(text), rest)
  {
    hide ParseString, Utf8.Decode;
    StringRoundTrip(text, rest);
    StringValue(PrintString(text) + rest, text, rest);
  }

  lemma ArrayValueRoundTrip(items: seq<JsonValue>, rest: Bytes)
    requires ItemsReadBack(items, rest)
    ensures ReadsBack(Array(items), rest)
  {
    hide ParseValue, ParseItems, PrintItems, Utf8.Decode;
    var u := PrintItems(items) + ([0x5D] + rest);
    ArrayValue(u, items, rest);
    AsciiPrefixValid(0x5B, u);
    assert Print(Array(items)) + rest == [0x5B] + u;
  }

  lemma ObjectValueRoundTrip(members: seq<Member>, rest: Bytes)
    requires MembersReadBack(members, rest)
    ensures ReadsBack(Object(members), rest)
  {
    hide ParseValue, ParseMembers, PrintMembers, Utf8.Decode;
    var u := PrintMembers(members) + ([0x7D] + rest);
    ObjectValue(u, members, rest);
    AsciiPrefixValid(0x7B, u);
    assert Print(Object(members)) + rest == [0x7B] + u;
  }

  lemma LiteralValueRoundTrip(v: JsonValue, rest: Bytes)
    requires (v.Null? || v.Bool?) && Utf8.Valid(rest)
    ensures ReadsBack(v, rest)
  {
    assert SkipWs(Print(v) + rest) == Print(v) + rest;
    LiteralRoundTrip(Print(v), v, rest);
    AsciiRunValid(Print(v), rest);
  }

  lemma {:induction false} ItemsRoundTrip(items: seq<JsonValue>, rest: Bytes)
    requires Utf8.Valid(rest)
    ensures ItemsReadBack(items, rest)
    decreases items
  {
    hide ParseValue, ParseItems, Print, Utf8.Decode;
    var u := PrintItems(items) + ([0x5D] + rest);
    AsciiPrefixValid(0x5D, rest);
    if items == [] {
      assert u == [0x5D] + rest;
    } else {
      PrintStart(items[0]);
      if |items| == 1 {
        ValueRoundTrip(items[0], [0x5D] + rest);
        LastItem(u, items[0], rest);
        assert items == [items[0]];
      } else {
        var t := PrintItems(items[1..]) + ([0x5D] + rest);
        ItemsRoundTrip(items[1..], rest);
        AsciiPrefixValid(0x2C, t);
        ValueRoundTrip(items[0], [0x2C] + t);
        assert u == Print(items[0]) + ([0x2C] + t);
        NextItem(u, items[0], t);
        assert items == [items[0]] + items[1..];
      }
    }
  }

  lemma {:induction false} MemberRoundTrip(m: Member, rest: Bytes)
    requires Utf8.Valid(rest) && !NumberContinues(rest)
    ensures var s := PrintMember(m) + rest;
      Starts(s, 0x22) && Utf8.Valid(s) && ParseName(s) == Ok((m.name, Print(m.value) + rest))
      && ParseValue(Print(m.value) + rest) == Ok((m.value, rest))
    decreases m, 1
  {
    hide ParseValue, ParseName, ParseString, Print, Utf8.Decode;
    var t := Print(m.value) + rest;
    ValueRoundTrip(m.value, rest);
    AsciiPrefixValid(0x3A, t);
    StringRoundTrip(m.name, [0x3A] + t);
    assert PrintMember(m) + rest == PrintString(m.name) + ([0x3A] + t);
    NameStep(PrintMember(m) + rest, m.name, t);
  }

  lemma {:induction false} MembersRoundTrip(members: seq<Member>, rest: Bytes)
    requires Utf8.Valid(rest)
    ensures MembersReadBack(members, rest)
    decreases members
  {
    hide ParseValue, ParseMembers, ParseName, Print, PrintMember, Utf8.Decode;
    var u := PrintMembers(members) + ([0x7D] + rest);
    AsciiPrefixValid(0x7D, rest);
    if members == [] {
      assert u == [0x7D] + rest;
    } else {
      var m := members[0];
      if |members| == 1 {
        MemberRoundTrip(m, [0x7D] + rest);
        LastMember(u, m, Print(m.value) + ([0x7D] + rest), rest);
        assert members == [m];
      } else {
        var t := PrintMembers(members[1..]) + ([0x7D] + rest);
        MembersRoundTrip(members[1..], rest);
        AsciiPrefixValid(0x2C, t);
        MemberRoundTrip(m, [0x2C] + t);
        assert u == PrintMember(m) + ([0x2C] + t);
        NextMember(u, m, Print(m.value) + ([0x2C] + t), t);
        assert members == [m] + members[1..];
      }
    }
  }

  /** Parsing undoes printing, for every value: any nesting, any text, any 64-bit number. */
  lemma ParsePrint(v: JsonValue)
    ensures Parse(Print(v)) == Ok(v) && Utf8.Valid(Print(v))
  {
    ValueRoundTrip(v, []);
    assert Print(v) + [] == Print(v);
  }

  lemma PrintInjective(v: JsonValue, w: JsonValue)
    requires Print(v) == Print(w)
    ensures v == w
  {
    ParsePrint(v);
    ParsePrint(w);
  }

  // ---- the parser stays on character boundaries ----

  /** What is left after any successful step is text again, and no step of it reports
      malformed UTF-8. */
  ghost predicate Clean<T>(r: Parsed<T>) {
    match r
    case Err(e) => !e.Utf8Error?
    case Ok((_, rest)) => Utf8.Valid(rest)
  }

  lemma DropAscii(s: Bytes)
    requires Utf8.Valid(s) && s != [] && s[0] < 0x80
    ensures Utf8.Valid(s[1..])
  {
    assert Utf8.Width(s[0] as char) == 1;
  }

  lemma {:induction false} DropAsciiRun(s: Bytes, n: nat)
    requires Utf8.Valid(s) && n <= |s| && forall i | 0 <= i < n :: s[i] < 0x80
    ensures Utf8.Valid(s[n..])
  {
    if n == 0 {
      assert s[n..] == s;
    } else {
      DropAscii(s);
      DropAsciiRun(s[1..], n - 1);
      assert s[1..][n - 1..] == s[n..];
    }
  }

  lemma {:induction false} SkipWsClean(s: Bytes)
    requires Utf8.Valid(s)
    ensures Utf8.Valid(SkipWs(s))
  {
    if s != [] && Blank(s[0]) {
      DropAscii(s);
      SkipWsClean(s[1..]);
    }
  }

  lemma {:induction false} UnicodeEscapeClean(s: Bytes, count: nat, value: nat)
    requires Utf8.Valid(s) && count <= 4
    ensures Clean(ParseUnicodeEscape(s, count, value))
    decreases 4 - count
  {
    if count < 4 && s != [] && HexValue(s[0]).Ok? {
      DropAscii(s);
      UnicodeEscapeClean(s[1..], count + 1, value * 16 + HexValue(s[0]).value);
    }
  }

  lemma StringCharClean(s: Bytes)
    requires Utf8.Valid(s) && s != [] && s[0] != 0x22
    ensures Clean(ParseStringChar(s))
  {
    if s[0] == 0x5C {
      DropAscii(s);
      var t := s[1..];
      if t != [] && t[0] < 0x80 {
        DropAscii(t);
        UnicodeEscapeClean(t[1..], 0, 0);
      }
    } else if s[0] < 0x80 {
      DropAscii(s);
    } else {
      var c := Utf8.Decode(s).value[0];
      assert Utf8.Decode(s[Utf8.Width(c)..]).Some?;
    }
  }

  lemma {:induction false} StringBodyClean(s: Bytes)
    requires Utf8.Valid(s)
    ensures Clean(ParseStringBody(s))
    decreases |s|
  {
    if s != [] {
      if s[0] == 0x22 {
        DropAscii(s);
      } else {
        StringCharClean(s);
        if ParseStringChar(s).Ok? {
          StringBodyClean(ParseStringChar(s).value.1);
        }
      }
    }
  }

  lemma StringClean(s: Bytes)
    requires Utf8.Valid(s)
    ensures Clean(ParseString(s))
  {
    if Starts(s, 0x22) {
      DropAscii(s);
      StringBodyClean(s[1..]);
    }
  }

  lemma NumberClean(s: Bytes)
    requires Utf8.Valid(s) && s != [] && IsDigit(s[0])
    ensures Clean(ParseNumber(s))
  {
    var n := DigitCount(s);
    DigitCountDigits(s);
    forall i | 0 <= i < n ensures s[i] < 0x80 {
      assert s[i] == s[..n][i];
    }
    DropAsciiRun(s, n);
  }

  lemma LiteralClean(s: Bytes, literal: Bytes, v: JsonValue)
    requires Utf8.Valid(s) && literal != [] && forall i | 0 <= i < |literal| :: literal[i] < 0x80
    ensures Clean(ParseLiteral(s, literal, v))
  {
    if literal <= s {
      DropAsciiRun(s, |literal|);
    }
  }

  lemma {:induction false} ValueClean(s: Bytes)
    requires Utf8.Valid(s)
    ensures Clean(ParseValue(s))
    decreases |s|, 0
  {
    SkipWsClean(s);
    var t := SkipWs(s);
    if t == [] {
    } else if t[0] == 0x5B || t[0] == 0x7B {
      DropAscii(t);
      SkipWsClean(t[1..]);
      var u := SkipWs(t[1..]);
      if Starts(u, t[0] + 2) {
        DropAscii(u);
      } else if t[0] == 0x5B {
        ItemsClean(u);
      } else {
        MembersClean(u);
      }
    } else if t[0] == 0x22 {
      StringClean(t);
    } else if IsDigit(t[0]) {
      NumberClean(t);
    } else {
      LiteralClean(t, [0x6E, 0x75, 0x6C, 0x6C], Null);
      LiteralClean(t, [0x74, 0x72, 0x75, 0x65], Bool(true));
      LiteralClean(t, [0x66, 0x61, 0x6C, 0x73, 0x65], Bool(false));
    }
  }

  lemma {:induction false} ItemsClean(s: Bytes)
    requires Utf8.Valid(s)
    ensures Clean(ParseItems(s))
    decreases |s|, 1
  {
    ValueClean(s);
    if ParseValue(s).Ok? {
      var rest := ParseValue(s).value.1;
      SkipWsClean(rest);
      var t := SkipWs(rest);
      if Starts(t, 0x5D) || Starts(t, 0x2C) {
        DropAscii(t);
        ItemsClean(t[1..]);
      }
    }
  }

  lemma NameClean(s: Bytes)
    requires Utf8.Valid(s)
    ensures Clean(ParseName(s))
  {
    SkipWsClean(s);
    StringClean(SkipWs(s));
    if ParseString(SkipWs(s)).Ok? {
      var rest := ParseString(SkipWs(s)).value.1;
      SkipWsClean(rest);
      if Starts(SkipWs(rest), 0x3A) {
        DropAscii(SkipWs(rest));
      }
    }
  }

  lemma {:induction false} MembersClean(s: Bytes)
    requires Utf8.Valid(s)
    ensures Clean(ParseMembers(s))
    decreases |s|, 1
  {
    NameClean(s);
    if ParseName(s).Ok? {
      ValueClean(ParseName(s).value.1);
      if ParseValue(ParseName(s).value.1).Ok? {
        var rest := ParseValue(ParseName(s).value.1).value.1;
        SkipWsClean(rest);
        var t := SkipWs(rest);
        if Starts(t, 0x7D) || Starts(t, 0x2C) {
          DropAscii(t);
          MembersClean(t[1..]);
        }
      }
    }
  }

  /** On text, whatever it is, the parser never fails with a UTF-8 error. */
  lemma ParseNeverUtf8Error(text: string)
    ensures Parse(Utf8.Encode(text)) != Err(Utf8Error)
  {
    Utf8.DecodeEncode(text);
    ValueClean(Utf8.Encode(text));
  }
}
