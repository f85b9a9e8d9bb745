/** UTF-8 (section 3 of RFC 3629), as the standard library of the source applies it
    when it turns text into bytes and bytes back into text. */
module Utf8 {
  import opened Base

  function EncodeChar(c: char): (bytes: Bytes)
    ensures 1 <= |bytes| <= 4
  {
    var v := c as int;
    if v < 0x80 then [v]
    else if v < 0x800 then [0xC0 + v / 0x40, 0x80 + v % 0x40]
    else if v < 0x1_0000 then [0xE0 + v / 0x1000, 0x80 + v / 0x40 % 0x40, 0x80 + v % 0x40]
    else [0xF0 + v / 0x4_0000, 0x80 + v / 0x1000 % 0x40, 0x80 + v / 0x40 % 0x40, 0x80 + v % 0x40]
  }

  function Encode(text: string): Bytes {
    if text == [] then [] else EncodeChar(text[0]) + Encode(text[1..])
  }

  predicate Continuation(b: Byte) {
    0x80 <= b < 0xC0
  }

  /** The character whose encoding starts `s`: no overlong form, no surrogate, nothing
      above U+10FFFF. */
  function DecodeFirst(s: Bytes): Option<char> {
    if s == [] then None
    else if s[0] < 0x80 then Some(s[0] as char)
    else if 0xC0 <= s[0] < 0xE0 then
      if |s| >= 2 && Continuation(s[1]) then Scalar(0x80, Shift(s[0] - 0xC0, s[1])) else None
    else if 0xE0 <= s[0] < 0xF0 then
      if |s| >= 3 && Continuation(s[1]) && Continuation(s[2]) then
        Scalar(0x800, Shift(Shift(s[0] - 0xE0, s[1]), s[2]))
      else None
    else if 0xF0 <= s[0] < 0xF8 then
      if |s| >= 4 && Continuation(s[1]) && Continuation(s[2]) && Continuation(s[3]) then
        Scalar(0x1_0000, Shift(Shift(Shift(s[0] - 0xF0, s[1]), s[2]), s[3]))
      else None
    else None
  }

  /** Six more payload bits, taken from a continuation byte. */
  function Shift(high: nat, b: Byte): nat
    requires Continuation(b)
  {
    var low: int := b - 0x80;
    high * 0x40 + low
  }

  function Scalar(least: nat, v: nat): Option<char> {
    if v < least || 0xD800 <= v < 0xE000 || 0x11_0000 <= v then None else Some(v as char)
  }

  lemma DecodeFirstOfEncodeChar(c: char, rest: Bytes)
    ensures DecodeFirst(EncodeChar(c) + rest) == Some(c)
  {
    hide Scalar, Shift;
    var v := c as int;
    var s := EncodeChar(c) + rest;
    if v < 0x80 {
    } else if v < 0x800 {
      Digits64(v);
      ScalarOfChar(c, 0x80);
    } else if v < 0x1_0000 {
      Digits64(v / 0x40);
      Digits64(v);
      ScalarOfChar(c, 0x800);
    } else {
      Digits64(v / 0x1000);
      Digits64(v / 0x40);
      Digits64(v);
      ScalarOfChar(c, 0x1_0000);
    }
  }

  lemma Digits64(v: nat)
    ensures Shift(v / 0x40, 0x80 + v % 0x40) == v
    ensures v / 0x1000 == v / 0x40 / 0x40
    ensures v / 0x4_0000 == v / 0x1000 / 0x40
  {
  }

  lemma ScalarOfChar(c: char, least: nat)
    requires least <= c as int
    ensures Scalar(least, c as int) == Some(c)
  {
  }

  lemma ShiftSplits(high: nat, b: Byte)
    requires Continuation(b)
    ensures Shift(high, b) / 0x40 == high && Shift(high, b) % 0x40 == b - 0x80
  {
  }

  lemma EncodeCharOfDecodeFirst(s: Bytes)
    requires DecodeFirst(s).Some?
    ensures EncodeChar(DecodeFirst(s).value) <= s
  {
    var c := DecodeFirst(s).value;
    if s[0] < 0x80 {
    } else if s[0] < 0xE0 {
      ShiftSplits(s[0] - 0xC0, s[1]);
      assert EncodeChar(c) == [s[0], s[1]];
    } else if s[0] < 0xF0 {
      var h := Shift(s[0] - 0xE0, s[1]);
      ShiftSplits(s[0] - 0xE0, s[1]);
      ShiftSplits(h, s[2]);
      DivTwice(c as int);
      assert EncodeChar(c) == [s[0], s[1], s[2]];
    } else {
      var h := Shift(s[0] - 0xF0, s[1]);
      var g := Shift(h, s[2]);
      ShiftSplits(s[0] - 0xF0, s[1]);
      ShiftSplits(h, s[2]);
      ShiftSplits(g, s[3]);
      DivTwice(c as int);
      assert EncodeChar(c) == [s[0], s[1], s[2], s[3]];
    }
  }

  lemma DivTwice(v: nat)
    ensures v / 0x1000 == v / 0x40 / 0x40
    ensures v / 0x4_0000 == v / 0x1000 / 0x40
  {
  }

  /** One character for each length of encoding. */
  lemma KnownCharacters()
    ensures EncodeChar(0x41 as char) == [0x41] && EncodeChar(0xE9 as char) == [0xC3, 0xA9]
    ensures EncodeChar(0x20AC as char) == [0xE2, 0x82, 0xAC] && EncodeChar(0x1_F600 as char) == [0xF0, 0x9F, 0x98, 0x80]
  {
  }

  function Width(c: char): (n: nat)
    ensures 1 <= n <= 4
  {
    |EncodeChar(c)|
  }

  function Decode(s: Bytes): Option<string>
    decreases |s|
  {
    if s == [] then Some([])
    else
      match DecodeFirst(s)
      case None => None
      case Some(c) =>
        EncodeCharOfDecodeFirst(s);
        match Decode(s[Width(c)..])
        case None => None
        case Some(text) => Some([c] + text)
  }

  predicate Valid(s: Bytes) {
    Decode(s).Some?
  }

  lemma DecodePrepend(c: char, rest: Bytes)
    ensures Decode(EncodeChar(c) + rest) ==
      match Decode(rest) { case None => None case Some(text) => Some([c] + text) }
  {
    DecodeFirstOfEncodeChar(c, rest);
    assert (EncodeChar(c) + rest)[Width(c)..] == rest;
  }

  lemma {:induction false} DecodeConcat(text: string, rest: Bytes)
    ensures Decode(Encode(text) + rest) ==
      match Decode(rest) { case None => None case Some(tail) => Some(text + tail) }
  {
    hide EncodeChar, DecodeFirst, Decode;
    if text == [] {
      assert Encode(text) + rest == rest;
      if Decode(rest).Some? {
        assert text + Decode(rest).value == Decode(rest).value;
      }
    } else {
      assert Encode(text) + rest == EncodeChar(text[0]) + (Encode(text[1..]) + rest);
      DecodePrepend(text[0], Encode(text[1..]) + rest);
      DecodeConcat(text[1..], rest);
      if Decode(rest).Some? {
        assert [text[0]] + (text[1..] + Decode(rest).value) == text + Decode(rest).value;
      }
    }
  }

  /** Every text survives encoding ... */
  lemma DecodeEncode(text: string)
    ensures Decode(Encode(text)) == Some(text)
  {
    DecodeConcat(text, []);
    assert Encode(text) + [] == Encode(text) && text + [] == text;
  }

  /** ... and every well-formed byte string is the encoding of what it decodes to. */
  lemma {:induction false} EncodeDecode(s: Bytes)
    requires Valid(s)
    ensures Encode(Decode(s).value) == s
    decreases |s|
  {
    hide EncodeChar, DecodeFirst;
    if s != [] {
      var c := DecodeFirst(s).value;
      EncodeCharOfDecodeFirst(s);
      EncodeDecode(s[Width(c)..]);
      assert s == EncodeChar(c) + s[Width(c)..];
      assert Decode(s).value[1..] == Decode(s[Width(c)..]).value;
    }
  }

  lemma {:induction false} EncodeAppend(s: string, t: string)
    ensures Encode(s + t) == Encode(s) + Encode(t)
  {
    if s == [] {
      assert s + t == t;
    } else {
      assert (s + t)[1..] == s[1..] + t;
      EncodeAppend(s[1..], t);
    }
  }

  predicate Ascii(s: string) {
    forall i | 0 <= i < |s| :: s[i] as int < 0x80
  }

  lemma {:induction false} EncodeAscii(s: string)
    requires Ascii(s)
    ensures |Encode(s)| == |s|
    ensures forall i | 0 <= i < |s| :: Encode(s)[i] == s[i] as int
  {
    if s != [] {
      EncodeAscii(s[1..]);
      assert EncodeChar(s[0]) == [s[0] as int];
    }
  }

  lemma EncodeInjective(s: string, t: string)
    requires Encode(s) == Encode(t)
    ensures s == t
  {
    DecodeEncode(s);
    DecodeEncode(t);
  }
}
