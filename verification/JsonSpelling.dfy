/** Every way of writing a JSON value that the parser accepts, and that it accepts nothing
    else: white space between tokens, all spellings of a character, leading zeros. */
module JsonSpelling {
  import opened Base
  import opened NostrTypes
  import opened Json
  import opened JsonRoundTrip
  import Utf8

  // ---- the grammar ----

  /** Space, line feed, carriage return and tab. */
  ghost predicate Space(s: Bytes) {
    forall i | 0 <= i < |s| :: s[i] in {0x20, 0x0A, 0x0D, 0x09}
  }

  /** `b` is the hexadecimal digit for `v`, in either case. */
  ghost predicate HexDigit(b: Byte, v: nat) {
    v < 16 && (b == "0123456789abcdef"[v] as int || b == "0123456789ABCDEF"[v] as int)
  }

  /** Four hexadecimal digits for `v`. */
  ghost predicate HexSpells(digits: Bytes, v: nat) {
    && |digits| == 4 && v < 0x1_0000
    && HexDigit(digits[0], v / 0x1000) && HexDigit(digits[1], v / 0x100 % 0x10)
    && HexDigit(digits[2], v / 0x10 % 0x10) && HexDigit(digits[3], v % 0x10)
  }

  /** The letters after a backslash, other than `u`, and the characters they stand for. */
  const SHORT: map<int, int> := map[
    0x22 := 0x22, 0x5C := 0x5C, 0x2F := 0x2F, 'b' as int := 0x08, 'f' as int := 0x0C, 'n' as int := 0x0A,
    'r' as int := 0x0D, 't' as int := 0x09]

  ghost predicate SpelledChar(c: char, s: Bytes) {
    || (c as int >= 0x20 && c as int !in {0x22, 0x5C} && s == Utf8.EncodeChar(c))
    || (|s| == 2 && s[0] == 0x5C && s[1] in SHORT && SHORT[s[1]] == c as int)
    || (|s| == 6 && s[0] == 0x5C && s[1] == 'u' as int && HexSpells(s[2..], c as int))
  }

  ghost predicate SpelledText(text: string, s: Bytes) {
    if text == [] then s == []
    else exists k | 0 < k <= |s| :: SpelledChar(text[0], s[..k]) && SpelledText(text[1..], s[k..])
  }

  ghost predicate SpelledString(text: string, s: Bytes) {
    |s| >= 2 && s[0] == 0x22 && s[|s| - 1] == 0x22 && SpelledText(text, s[1..|s| - 1])
  }

  /** Any number of zeros, then the digits. */
  ghost predicate SpelledNumber(n: nat, s: Bytes) {
    exists k | 0 <= k <= |s| :: (forall i | 0 <= i < k :: s[i] == 0x30) && s[k..] == Digits(n)
  }

  ghost predicate Spelled(v: JsonValue, s: Bytes)
    decreases v, 0
  {
    match v
    case Null => s == Utf8.Encode("null")
    case Bool(b) => s == Utf8.Encode(if b then "true" else "false")
    case Number(n) => SpelledNumber(n, s)
    case Str(text) => SpelledString(text, s)
    case Array(items) =>
      && |s| >= 2 && s[0] == '[' as int && s[|s| - 1] == ']' as int
      && if items == [] then Space(s[1..|s| - 1]) else SpelledItems(items, s[1..|s| - 1])
    case Object(members) =>
      && |s| >= 2 && s[0] == '{' as int && s[|s| - 1] == '}' as int
      && if members == [] then Space(s[1..|s| - 1]) else SpelledMembers(members, s[1..|s| - 1])
  }

  /** A value with white space before and after. */
  ghost predicate SpacedValue(v: JsonValue, s: Bytes)
    decreases v, 1
  {
    exists i, j | 0 <= i <= j <= |s| :: Space(s[..i]) && Spelled(v, s[i..j]) && Space(s[j..])
  }

  ghost predicate SpacedName(name: string, s: Bytes) {
    exists i, j | 0 <= i <= j <= |s| :: Space(s[..i]) && SpelledString(name, s[i..j]) && Space(s[j..])
  }

  ghost predicate SpelledItems(items: seq<JsonValue>, s: Bytes)
    requires items != []
    decreases items
  {
    if |items| == 1 then SpacedValue(items[0], s)
    else exists k | 0 <= k < |s| :: SpacedValue(items[0], s[..k]) && s[k] == ',' as int && SpelledItems(items[1..], s[k + 1..])
  }

  ghost predicate SpelledMember(m: Member, s: Bytes)
    decreases m, 2
  {
    exists k | 0 <= k < |s| :: SpacedName(m.name, s[..k]) && s[k] == ':' as int && SpacedValue(m.value, s[k + 1..])
  }

  ghost predicate SpelledMembers(members: seq<Member>, s: Bytes)
    requires members != []
    decreases members
  {
    if |members| == 1 then SpelledMember(members[0], s)
    else exists k | 0 <= k < |s| :: SpelledMember(members[0], s[..k]) && s[k] == ',' as int && SpelledMembers(members[1..], s[k + 1..])
  }

  // ---- white space ----

  lemma {:induction false} SkipsSpace(w: Bytes, s: Bytes)
    requires Space(w)
    ensures SkipWs(w + s) == SkipWs(s)
  {
    if w == [] {
      assert w + s == s;
    } else {
      assert (w + s)[1..] == w[1..] + s;
      SkipsSpace(w[1..], s);
    }
  }

  lemma {:induction false} SkipIsSpace(s: Bytes) returns (i: nat)
    ensures i <= |s| && Space(s[..i]) && SkipWs(s) == s[i..] && (i < |s| ==> !Blank(s[i]))
  {
    i := 0;
    if s != [] && Blank(s[0]) {
      var j := SkipIsSpace(s[1..]);
      i := j + 1;
      assert s[..i] == [s[0]] + s[1..][..j];
      assert s[i..] == s[1..][j..];
    }
  }

  lemma SpaceValid(w: Bytes, s: Bytes)
    requires Space(w) && Utf8.Valid(s)
    ensures Utf8.Valid(w + s)
  {
    AsciiRunValid(w, s);
  }

  // ---- characters ----

  lemma HexValueIff(b: Byte, v: nat)
    ensures HexValue(b) == Ok(v) <==> HexDigit(b, v)
  {
    var lower, upper := "0123456789abcdef", "0123456789ABCDEF";
    if v < 16 {
      NibbleLetters(v);
    }
    if HexValue(b).Ok? {
      NibbleLetters(HexValue(b).value);
    }
  }

  lemma NibbleLetters(v: nat)
    requires v < 16
    ensures "0123456789abcdef"[v] as int == if v < 10 then 0x30 + v else 0x57 + v
    ensures "0123456789ABCDEF"[v] as int == if v < 10 then 0x30 + v else 0x37 + v
  {
  }

  /** Four digits, all of them good. */
  predicate AllHex(s: Bytes)
    requires |s| >= 4
  {
    HexValue(s[0]).Ok? && HexValue(s[1]).Ok? && HexValue(s[2]).Ok? && HexValue(s[3]).Ok?
  }

  function HexNumber(s: Bytes): nat
    requires |s| >= 4 && AllHex(s)
  {
    ((HexValue(s[0]).value * 16 + HexValue(s[1]).value) * 16 + HexValue(s[2]).value) * 16 + HexValue(s[3]).value
  }

  lemma HexNumberIff(digits: Bytes, v: nat)
    requires |digits| == 4
    ensures HexSpells(digits, v) <==> AllHex(digits) && HexNumber(digits) == v
  {
    hide HexValue, HexDigit;
    if HexSpells(digits, v) {
      HexValueIff(digits[0], v / 0x1000);
      HexValueIff(digits[1], v / 0x100 % 0x10);
      HexValueIff(digits[2], v / 0x10 % 0x10);
      HexValueIff(digits[3], v % 0x10);
      Nibbles(v);
    }
    if AllHex(digits) && HexNumber(digits) == v {
      HexBound(digits[0]);
      HexBound(digits[1]);
      HexBound(digits[2]);
      HexBound(digits[3]);
      NibblesBack(HexValue(digits[0]).value, HexValue(digits[1]).value, HexValue(digits[2]).value, HexValue(digits[3]).value);
      HexValueIff(digits[0], v / 0x1000);
      HexValueIff(digits[1], v / 0x100 % 0x10);
      HexValueIff(digits[2], v / 0x10 % 0x10);
      HexValueIff(digits[3], v % 0x10);
    }
  }

  /** Exactly the four-digit spellings of scalar values are read, in either case. */
  lemma UnicodeEscapeIff(digits: Bytes, c: char, rest: Bytes)
    requires |digits| == 4
    ensures ParseUnicodeEscape(digits + rest, 0, 0) == Ok((c, rest)) <==> HexSpells(digits, c as int)
    ensures ParseUnicodeEscape(digits + rest, 0, 0).Ok? ==> ParseUnicodeEscape(digits + rest, 0, 0).value.1 == rest
  {
    hide HexValue, HexSpells, ParseUnicodeEscape;
    var s := digits + rest;
    assert s[4..] == rest;
    FourDigits(s);
    HexNumberIff(digits, c as int);
    assert AllHex(s) <==> AllHex(digits);
  }

  lemma HexBound(b: Byte)
    ensures HexValue(b).Ok? ==> HexValue(b).value < 16
  {
  }

  lemma Nibbles(v: nat)
    ensures v == ((v / 0x1000 * 16 + v / 0x100 % 0x10) * 16 + v / 0x10 % 0x10) * 16 + v % 0x10
  {
    var a := v / 0x10;
    var b := a / 0x10;
    assert v / 0x100 == b && v / 0x1000 == b / 0x10;
    assert v == a * 16 + v % 0x10 && a == b * 16 + a % 0x10 && b == b / 0x10 * 16 + b % 0x10;
  }

  lemma NibblesBack(a: nat, b: nat, c: nat, d: nat)
    requires a < 16 && b < 16 && c < 16 && d < 16
    ensures var v := ((a * 16 + b) * 16 + c) * 16 + d;
      v < 0x1_0000 && v / 0x1000 == a && v / 0x100 % 0x10 == b && v / 0x10 % 0x10 == c && v % 0x10 == d
  {
  }

  /** What four digits amount to: their number, unless one is bad or it is a surrogate. */
  lemma FourDigits(s: Bytes)
    requires |s| >= 4
    ensures ParseUnicodeEscape(s, 0, 0) ==
      if AllHex(s) && (HexNumber(s) < 0xD800 || 0xE000 <= HexNumber(s) < 0x11_0000) then Ok((HexNumber(s) as char, s[4..]))
      else Err(MalformedMessage)
  {
    hide HexValue;
    HexErrors(s[0]);
    HexErrors(s[1]);
    HexErrors(s[2]);
    HexErrors(s[3]);
    var s1, s2, s3, s4 := s[1..], s[1..][1..], s[1..][1..][1..], s[1..][1..][1..][1..];
    assert s1[0] == s[1] && s2[0] == s[2] && s3[0] == s[3] && s4 == s[4..];
    if HexValue(s[0]).Ok? {
      var a := HexValue(s[0]).value;
      assert ParseUnicodeEscape(s, 0, 0) == ParseUnicodeEscape(s1, 1, a);
      if HexValue(s[1]).Ok? {
        var b := a * 16 + HexValue(s[1]).value;
        assert ParseUnicodeEscape(s1, 1, a) == ParseUnicodeEscape(s2, 2, b);
        if HexValue(s[2]).Ok? {
          var c := b * 16 + HexValue(s[2]).value;
          assert ParseUnicodeEscape(s2, 2, b) == ParseUnicodeEscape(s3, 3, c);
          if HexValue(s[3]).Ok? {
            assert ParseUnicodeEscape(s3, 3, c) == ParseUnicodeEscape(s4, 4, c * 16 + HexValue(s[3]).value);
          }
        }
      }
    }
  }

  lemma HexErrors(b: Byte)
    ensures HexValue(b).Err? ==> HexValue(b) == Err(MalformedMessage)
  {
  }

  lemma CharParses(c: char, s: Bytes, rest: Bytes)
    requires SpelledChar(c, s) && Utf8.Valid(rest)
    ensures s != [] && s[0] != 0x22 && ParseStringChar(s + rest) == Ok((c, rest)) && Utf8.Valid(s + rest)
  {
    hide HexSpells, ParseUnicodeEscape, Utf8.Decode;
    if s == Utf8.EncodeChar(c) && c as int >= 0x80 {
      PlainCharRoundTrip(c, rest);
      Utf8.DecodePrepend(c, rest);
    } else if |s| == 6 && HexSpells(s[2..], c as int) {
      UnicodeEscapeIff(s[2..], c, rest);
      assert (s + rest)[1..][1..] == s[2..] + rest;
      HexIsAscii(s[2..], c as int);
      AsciiRunValid(s, rest);
    } else {
      AsciiRunValid(s, rest);
      assert |s| == 2 ==> (s + rest)[1..][1..] == rest;
      assert |s| == 1 ==> (s + rest)[1..] == rest;
    }
  }

  lemma HexIsAscii(digits: Bytes, v: nat)
    requires HexSpells(digits, v)
    ensures forall i | 0 <= i < 4 :: digits[i] < 0x80
  {
    HexNumberIff(digits, v);
  }

  lemma CharSpelled(s: Bytes, c: char, rest: Bytes) returns (k: nat)
    requires Utf8.Valid(s) && s != [] && s[0] != 0x22 && ParseStringChar(s) == Ok((c, rest))
    ensures 0 < k <= |s| && s[k..] == rest && SpelledChar(c, s[..k])
  {
    hide HexSpells, ParseUnicodeEscape;
    if s[0] == 0x5C {
      if s[1] == 0x75 {
        k := 6;
        EscapeIsLong(s[2..], c, rest);
        assert s[1..][1..] == s[2..] && s[2..] == s[2..6] + s[6..];
        UnicodeEscapeIff(s[2..6], c, s[6..]);
        assert s[..6][2..] == s[2..6];
      } else {
        k := 2;
        assert s[1..][1..] == s[2..];
      }
    } else if s[0] < 0x80 {
      k := 1;
      assert s[..1] == [s[0]];
    } else {
      k := Utf8.Width(c);
      Utf8.EncodeDecode(s);
      assert Utf8.EncodeChar(c) <= s by { Utf8.EncodeCharOfDecodeFirst(s); }
    }
  }

  lemma EscapeIsLong(s: Bytes, c: char, rest: Bytes)
    requires ParseUnicodeEscape(s, 0, 0) == Ok((c, rest))
    ensures |s| >= 4
  {
    if |s| < 4 {
      FewDigits(s, 0, 0);
    }
  }

  lemma {:induction false} FewDigits(s: Bytes, count: nat, value: nat)
    requires count <= 4 && |s| < 4 - count
    ensures ParseUnicodeEscape(s, count, value).Err?
    decreases 4 - count
  {
    if s != [] && HexValue(s[0]).Ok? {
      FewDigits(s[1..], count + 1, value * 16 + HexValue(s[0]).value);
    }
  }

  // ---- strings ----

  lemma {:induction false} TextParses(text: string, s: Bytes, rest: Bytes)
    requires SpelledText(text, s) && Utf8.Valid(rest)
    ensures ParseStringBody(s + ([0x22] + rest)) == Ok((text, rest)) && Utf8.Valid(s + ([0x22] + rest))
    decreases |text|
  {
    hide ParseStringBody, ParseStringChar, SpelledChar, Utf8.Valid;
    if text == [] {
      assert s + ([0x22] + rest) == [0x22] + rest;
      AsciiPrefixValid(0x22, rest);
      BodyEnds(rest);
    } else {
      var k :| 0 < k <= |s| && SpelledChar(text[0], s[..k]) && SpelledText(text[1..], s[k..]);
      var tail := s[k..] + ([0x22] + rest);
      TextParses(text[1..], s[k..], rest);
      CharParses(text[0], s[..k], tail);
      assert s + ([0x22] + rest) == s[..k] + tail;
      BodyContinues(s[..k] + tail, text[0], tail, text[1..], rest);
      assert [text[0]] + text[1..] == text;
    }
  }

  lemma {:induction false} TextSpelled(s: Bytes, text: string, rest: Bytes) returns (k: nat)
    requires Utf8.Valid(s) && ParseStringBody(s) == Ok((text, rest))
    ensures k < |s| && s[k] == 0x22 && s[k + 1..] == rest && SpelledText(text, s[..k])
    decreases |s|
  {
    hide ParseStringChar, SpelledChar, Utf8.Valid;
    if s[0] == 0x22 {
      k := 0;
    } else {
      var (c, tail) := ParseStringChar(s).value;
      var i := CharSpelled(s, c, tail);
      StringCharClean(s);
      var j := TextSpelled(tail, text[1..], rest);
      k := i + j;
      assert s[..k][..i] == s[..i] && s[..k][i..] == tail[..j];
      assert text[0] == c;
    }
  }

  lemma StringParses(text: string, s: Bytes, rest: Bytes)
    requires SpelledString(text, s) && Utf8.Valid(rest)
    ensures ParseString(s + rest) == Ok((text, rest)) && Utf8.Valid(s + rest)
  {
    hide ParseStringBody, SpelledText, Utf8.Valid;
    var body := s[1..|s| - 1];
    TextParses(text, body, rest);
    AsciiPrefixValid(0x22, body + ([0x22] + rest));
    assert s + rest == [0x22] + (body + ([0x22] + rest));
  }

  lemma StringSpelled(s: Bytes, text: string, rest: Bytes) returns (k: nat)
    requires Utf8.Valid(s) && ParseString(s) == Ok((text, rest))
    ensures k <= |s| && s[k..] == rest && SpelledString(text, s[..k])
  {
    hide ParseStringBody, SpelledText;
    DropAscii(s);
    var j := TextSpelled(s[1..], text, rest);
    k := j + 2;
    assert s[..k][1..k - 1] == s[1..][..j] && s[k..] == s[1..][j + 1..];
  }

  // ---- numbers ----

  ghost predicate Zeros(s: Bytes) {
    forall i | 0 <= i < |s| :: s[i] == 0x30
  }

  lemma {:induction false} LeadingZeros(zeros: Bytes, digits: Bytes)
    requires Zeros(zeros) && AllDigits(digits)
    ensures AllDigits(zeros + digits) && DigitsValue(zeros + digits) == DigitsValue(digits)
    decreases |zeros| + |digits|
  {
    var all := zeros + digits;
    if digits != [] {
      LeadingZeros(zeros, digits[..|digits| - 1]);
      assert all[..|all| - 1] == zeros + digits[..|digits| - 1];
    } else if zeros != [] {
      LeadingZeros(zeros[..|zeros| - 1], []);
      assert all[..|all| - 1] == zeros[..|zeros| - 1] + [];
    }
  }

  lemma {:induction false} RunSpelled(run: Bytes) returns (k: nat)
    requires AllDigits(run) && run != []
    ensures k < |run| && Zeros(run[..k]) && run[k..] == Digits(DigitsValue(run))
  {
    var last := |run| - 1;
    if last == 0 {
      k := 0;
      assert DigitsValue(run[..0]) == 0;
    } else {
      var init := run[..last];
      k := RunSpelled(init);
      var v, d := DigitsValue(init), DigitValue(run[last]);
      assert DigitsValue(run) == v * 10 + d;
      assert (v * 10 + d) / 10 == v && (v * 10 + d) % 10 == d;
      assert run[..k] == init[..k] && run[k..] == init[k..] + [run[last]];
      if v == 0 {
        assert init[k..] == [0x30];
        k := last;
        assert forall i | 0 <= i < last :: run[i] == init[i];
        assert run[last..] == [run[last]];
      }
    }
  }

  lemma NumberParses(n: U64, s: Bytes, rest: Bytes)
    requires SpelledNumber(n, s) && Utf8.Valid(rest) && !NumberContinues(rest)
    ensures ParseValue(s + rest) == Ok((Number(n), rest)) && Utf8.Valid(s + rest) && s != []
  {
    hide Digits, DigitsValue;
    var k :| 0 <= k <= |s| && (forall i | 0 <= i < k :: s[i] == 0x30) && s[k..] == Digits(n);
    DigitsRoundTrip(n);
    LeadingZeros(s[..k], s[k..]);
    assert s == s[..k] + s[k..];
    RunParses(n, s, rest);
  }

  lemma RunParses(n: U64, run: Bytes, rest: Bytes)
    requires run != [] && AllDigits(run) && DigitsValue(run) == n && Utf8.Valid(rest) && !NumberContinues(rest)
    ensures ParseValue(run + rest) == Ok((Number(n), rest)) && Utf8.Valid(run + rest)
  {
    hide DigitsValue, Utf8.Valid;
    DigitCountOfRun(run, rest);
    AsciiRunValid(run, rest);
    var s := run + rest;
    assert s[0] == run[0] && IsDigit(s[0]);
    NotSpace(s);
    assert s[..|run|] == run && s[|run|..] == rest;
    hide SkipWs, DigitCount;
  }

  lemma NumberSpelled(s: Bytes, v: JsonValue, rest: Bytes) returns (k: nat)
    requires s != [] && IsDigit(s[0]) && ParseNumber(s) == Ok((v, rest))
    ensures k <= |s| && s[k..] == rest && v.Number? && SpelledNumber(v.n, s[..k])
  {
    k := DigitCount(s);
    DigitCountDigits(s);
    var j := RunSpelled(s[..k]);
    assert forall i | 0 <= i < j :: s[..k][i] == s[..k][..j][i];
  }

  // ---- values that spell parse ----

  lemma ParseAfterSpace(w: Bytes, s: Bytes)
    requires Space(w)
    ensures ParseValue(w + s) == ParseValue(s)
  {
    SkipsSpace(w, s);
  }

  lemma NotSpace(s: Bytes)
    requires s == [] || !Blank(s[0])
    ensures SkipWs(s) == s
  {
  }

  lemma {:induction false} SkipTwice(s: Bytes)
    ensures SkipWs(SkipWs(s)) == SkipWs(s)
  {
    if s != [] && Blank(s[0]) {
      SkipTwice(s[1..]);
    }
  }

  lemma ItemsAfterSpace(s: Bytes)
    ensures ParseItems(SkipWs(s)) == ParseItems(s)
    ensures ParseItems(s).Ok? ==> !Starts(SkipWs(s), 0x5D)
  {
    SkipTwice(s);
    ParseIgnoresSpace(s);
    NotClosing(s);
    hide ParseValue, SkipWs;
  }

  lemma NotClosing(s: Bytes)
    ensures ParseValue(s).Ok? ==> !Starts(SkipWs(s), 0x5D)
  {
    hide SkipWs;
  }

  lemma MembersAfterSpace(s: Bytes)
    ensures ParseMembers(SkipWs(s)) == ParseMembers(s)
    ensures ParseMembers(s).Ok? ==> !Starts(SkipWs(s), 0x7D)
  {
    SkipTwice(s);
    assert ParseName(SkipWs(s)) == ParseName(s);
  }

  lemma ArrayReads(u: Bytes, items: seq<JsonValue>, rest: Bytes)
    requires if items == [] then SkipWs(u) == [0x5D] + rest else ParseItems(u) == Ok((items, rest))
    ensures ParseValue([0x5B] + u) == Ok((Array(items), rest))
  {
    hide ParseItems, SkipWs;
    var s := [0x5B] + u;
    NotSpace(s);
    assert s[1..] == u;
    ItemsAfterSpace(u);
    assert ([0x5D] + rest)[1..] == rest;
  }

  lemma ObjectReads(u: Bytes, members: seq<Member>, rest: Bytes)
    requires if members == [] then SkipWs(u) == [0x7D] + rest else ParseMembers(u) == Ok((members, rest))
    ensures ParseValue([0x7B] + u) == Ok((Object(members), rest))
  {
    hide ParseMembers, SkipWs;
    var s := [0x7B] + u;
    NotSpace(s);
    assert s[1..] == u;
    MembersAfterSpace(u);
    assert ([0x7D] + rest)[1..] == rest;
  }

  /** What may come after a value: the end, or a byte that is neither blank nor a digit. */
  ghost predicate Ends(rest: Bytes) {
    Utf8.Valid(rest) && (rest == [] || (!Blank(rest[0]) && !IsDigit(rest[0])))
  }

  lemma {:induction false} SpelledParses(v: JsonValue, s: Bytes, rest: Bytes)
    requires Spelled(v, s) && Utf8.Valid(rest) && !NumberContinues(rest)
    ensures ParseValue(s + rest) == Ok((v, rest)) && Utf8.Valid(s + rest)
    decreases v, 0
  {
    hide ParseValue, SpelledString, SpelledNumber, SpelledItems, SpelledMembers, Utf8.Valid, Utf8.Encode;
    match v
    case Null => LiteralParses(v, s, rest);
    case Bool(_) => LiteralParses(v, s, rest);
    case Number(n) => NumberParses(n, s, rest);
    case Str(text) =>
      StringParses(text, s, rest);
      StringValueParses(text, s, rest);
    case Array(items) =>
      ItemsInside(items, s[1..|s| - 1], rest);
      Bracketed(0x5B, 0x5D, s, rest);
      ArrayReads(s[1..|s| - 1] + ([0x5D] + rest), items, rest);
    case Object(members) =>
      MembersInside(members, s[1..|s| - 1], rest);
      Bracketed(0x7B, 0x7D, s, rest);
      ObjectReads(s[1..|s| - 1] + ([0x7D] + rest), members, rest);
  }

  lemma StringValueParses(text: string, s: Bytes, rest: Bytes)
    requires SpelledString(text, s) && ParseString(s + rest) == Ok((text, rest))
    ensures ParseValue(s + rest) == Ok((Str(text), rest))
  {
    hide ParseString;
    StringValue(s + rest, text, rest);
  }

  lemma Bracketed(open: Byte, close: Byte, s: Bytes, rest: Bytes)
    requires |s| >= 2 && s[0] == open && s[|s| - 1] == close && open < 0x80
    ensures s + rest == [open] + (s[1..|s| - 1] + ([close] + rest))
    ensures Utf8.Valid(s[1..|s| - 1] + ([close] + rest)) ==> Utf8.Valid(s + rest)
  {
    var u := s[1..|s| - 1] + ([close] + rest);
    assert s + rest == [open] + u;
    if Utf8.Valid(u) {
      AsciiPrefixValid(open, u);
    }
  }

  lemma LiteralParses(v: JsonValue, s: Bytes, rest: Bytes)
    requires (v.Null? || v.Bool?) && Spelled(v, s) && Utf8.Valid(rest)
    ensures ParseValue(s + rest) == Ok((v, rest)) && Utf8.Valid(s + rest)
  {
    Literals();
    hide Utf8.Encode;
    LiteralValueRoundTrip(v, rest);
  }

  lemma Literals()
    ensures Utf8.Encode("null") == Print(Null) && Utf8.Encode("true") == Print(Bool(true)) && Utf8.Encode("false") == Print(Bool(false))
  {
    Utf8.EncodeAscii("null");
    Utf8.EncodeAscii("true");
    Utf8.EncodeAscii("false");
  }

  lemma {:induction false} ItemsInside(items: seq<JsonValue>, u: Bytes, rest: Bytes)
    requires Utf8.Valid(rest) && if items == [] then Space(u) else SpelledItems(items, u)
    ensures var t := u + ([0x5D] + rest);
      Utf8.Valid(t) && if items == [] then SkipWs(t) == [0x5D] + rest else ParseItems(t) == Ok((items, rest))
    decreases items, 1
  {
    hide ParseItems, SpelledItems, Utf8.Valid;
    if items == [] {
      AsciiPrefixValid(0x5D, rest);
      SpaceValid(u, [0x5D] + rest);
      SkipsSpace(u, [0x5D] + rest);
    } else {
      ItemsParse(items, u, rest);
    }
  }

  lemma {:induction false} MembersInside(members: seq<Member>, u: Bytes, rest: Bytes)
    requires Utf8.Valid(rest) && if members == [] then Space(u) else SpelledMembers(members, u)
    ensures var t := u + ([0x7D] + rest);
      Utf8.Valid(t) && if members == [] then SkipWs(t) == [0x7D] + rest else ParseMembers(t) == Ok((members, rest))
    decreases members, 1
  {
    hide ParseMembers, SpelledMembers, Utf8.Valid;
    if members == [] {
      AsciiPrefixValid(0x7D, rest);
      SpaceValid(u, [0x7D] + rest);
      SkipsSpace(u, [0x7D] + rest);
    } else {
      MembersParse(members, u, rest);
    }
  }

  lemma {:induction false} SpacedParses(v: JsonValue, s: Bytes, rest: Bytes) returns (tail: Bytes)
    requires SpacedValue(v, s) && Ends(rest)
    ensures ParseValue(s + rest) == Ok((v, tail)) && SkipWs(tail) == rest && Utf8.Valid(s + rest)
    decreases v, 1
  {
    hide ParseValue, Spelled, SkipWs, Utf8.Valid;
    var i, j :| 0 <= i <= j <= |s| && Space(s[..i]) && Spelled(v, s[i..j]) && Space(s[j..]);
    tail := s[j..] + rest;
    SpaceValid(s[j..], rest);
    SkipsSpace(s[j..], rest);
    NotSpace(rest);
    assert !NumberContinues(tail);
    SpelledParses(v, s[i..j], tail);
    SpaceValid(s[..i], s[i..j] + tail);
    ParseAfterSpace(s[..i], s[i..j] + tail);
    assert s + rest == s[..i] + (s[i..j] + tail);
  }

  lemma {:induction false} ItemsParse(items: seq<JsonValue>, s: Bytes, rest: Bytes)
    requires items != [] && SpelledItems(items, s) && Utf8.Valid(rest)
    ensures ParseItems(s + ([0x5D] + rest)) == Ok((items, rest)) && Utf8.Valid(s + ([0x5D] + rest))
    decreases items, 0
  {
    hide ParseValue, SpacedValue, Utf8.Valid;
    AsciiPrefixValid(0x5D, rest);
    assert ([0x5D] + rest)[1..] == rest;
    if |items| == 1 {
      var tail := SpacedParses(items[0], s, [0x5D] + rest);
      assert items == [items[0]];
    } else {
      var k :| 0 <= k < |s| && SpacedValue(items[0], s[..k]) && s[k] == ',' as int && SpelledItems(items[1..], s[k + 1..]);
      var u := s[k + 1..] + ([0x5D] + rest);
      ItemsParse(items[1..], s[k + 1..], rest);
      AsciiPrefixValid(0x2C, u);
      var tail := SpacedParses(items[0], s[..k], [0x2C] + u);
      assert s + ([0x5D] + rest) == s[..k] + ([0x2C] + u) && ([0x2C] + u)[1..] == u;
      assert items == [items[0]] + items[1..];
    }
  }

  lemma NameParses(name: string, s: Bytes, t: Bytes)
    requires SpacedName(name, s) && Utf8.Valid(t)
    ensures ParseName(s + ([0x3A] + t)) == Ok((name, t)) && Utf8.Valid(s + ([0x3A] + t))
  {
    hide ParseString, SpelledString, Utf8.Valid;
    var i, j :| 0 <= i <= j <= |s| && Space(s[..i]) && SpelledString(name, s[i..j]) && Space(s[j..]);
    var tail := s[j..] + ([0x3A] + t);
    AsciiPrefixValid(0x3A, t);
    SpaceValid(s[j..], [0x3A] + t);
    SkipsSpace(s[j..], [0x3A] + t);
    StringParses(name, s[i..j], tail);
    SpaceValid(s[..i], s[i..j] + tail);
    SkipsSpace(s[..i], s[i..j] + tail);
    assert s + ([0x3A] + t) == s[..i] + (s[i..j] + tail);
    assert SkipWs(s[i..j] + tail) == s[i..j] + tail by { StringStarts(name, s[i..j]); }
    assert ([0x3A] + t)[1..] == t;
  }

  lemma StringStarts(text: string, s: Bytes)
    requires SpelledString(text, s)
    ensures s != [] && s[0] == 0x22
  {
  }

  lemma {:induction false} MemberParses(m: Member, s: Bytes, rest: Bytes) returns (t: Bytes, tail: Bytes)
    requires SpelledMember(m, s) && Ends(rest)
    ensures ParseName(s + rest) == Ok((m.name, t)) && ParseValue(t) == Ok((m.value, tail)) && SkipWs(tail) == rest
    ensures Utf8.Valid(s + rest)
    decreases m, 2
  {
    hide ParseValue, ParseName, SpacedValue, SpacedName, Utf8.Valid;
    var k :| 0 <= k < |s| && SpacedName(m.name, s[..k]) && s[k] == ':' as int && SpacedValue(m.value, s[k + 1..]);
    t := s[k + 1..] + rest;
    tail := SpacedParses(m.value, s[k + 1..], rest);
    NameParses(m.name, s[..k], t);
    assert s + rest == s[..k] + ([0x3A] + t);
  }

  lemma LastSpaced(s: Bytes, m: Member, t: Bytes, tail: Bytes, rest: Bytes)
    requires ParseName(s) == Ok((m.name, t)) && ParseValue(t) == Ok((m.value, tail)) && SkipWs(tail) == [0x7D] + rest
    ensures ParseMembers(s) == Ok(([m], rest))
  {
    hide ParseName, ParseValue, SkipWs;
    assert ([0x7D] + rest)[1..] == rest;
  }

  lemma NextSpaced(s: Bytes, m: Member, t: Bytes, tail: Bytes, u: Bytes)
    requires ParseName(s) == Ok((m.name, t)) && ParseValue(t) == Ok((m.value, tail)) && SkipWs(tail) == [0x2C] + u
    ensures ParseMembers(s) == PrependMembers([m], ParseMembers(u))
  {
    hide ParseName, ParseValue, SkipWs;
    assert ([0x2C] + u)[1..] == u;
  }

  lemma {:induction false} MembersParse(members: seq<Member>, s: Bytes, rest: Bytes)
    requires members != [] && SpelledMembers(members, s) && Utf8.Valid(rest)
    ensures ParseMembers(s + ([0x7D] + rest)) == Ok((members, rest)) && Utf8.Valid(s + ([0x7D] + rest))
    decreases members, 0
  {
    hide ParseValue, ParseName, ParseMembers, SpelledMember, SkipWs, Utf8.Valid;
    AsciiPrefixValid(0x7D, rest);
    if |members| == 1 {
      var t, tail := MemberParses(members[0], s, [0x7D] + rest);
      LastSpaced(s + ([0x7D] + rest), members[0], t, tail, rest);
      assert members == [members[0]];
    } else {
      var k :| 0 <= k < |s| && SpelledMember(members[0], s[..k]) && s[k] == ',' as int && SpelledMembers(members[1..], s[k + 1..]);
      var u := s[k + 1..] + ([0x7D] + rest);
      MembersParse(members[1..], s[k + 1..], rest);
      AsciiPrefixValid(0x2C, u);
      var t, tail := MemberParses(members[0], s[..k], [0x2C] + u);
      assert s + ([0x7D] + rest) == s[..k] + ([0x2C] + u);
      NextSpaced(s + ([0x7D] + rest), members[0], t, tail, u);
      assert members == [members[0]] + members[1..];
    }
  }

  // ---- which spelling is printed ----

  /** Two-letter escapes where there is one, lower-case numbers for other control characters,
      and the character itself for everything else. */
  lemma PrintedChar(c: char)
    ensures c as int == 0x22 ==> EscapeChar(c) == [0x5C, 0x22]
    ensures c as int == 0x5C ==> EscapeChar(c) == [0x5C, 0x5C]
    ensures c as int == 0x08 ==> EscapeChar(c) == [0x5C, 'b' as int]
    ensures c as int == 0x09 ==> EscapeChar(c) == [0x5C, 't' as int]
    ensures c as int == 0x0A ==> EscapeChar(c) == [0x5C, 'n' as int]
    ensures c as int == 0x0C ==> EscapeChar(c) == [0x5C, 'f' as int]
    ensures c as int == 0x0D ==> EscapeChar(c) == [0x5C, 'r' as int]
    ensures c as int < 0x20 && c as int !in {0x08, 0x09, 0x0A, 0x0C, 0x0D} ==>
      EscapeChar(c) == [0x5C, 'u' as int, '0' as int, '0' as int,
                        "01"[c as int / 16] as int, "0123456789abcdef"[c as int % 16] as int]
    ensures c as int >= 0x20 && c as int !in {0x22, 0x5C} ==> EscapeChar(c) == Utf8.EncodeChar(c)
  {
    var v := c as int;
    if v < 0x20 {
      NibbleLetters(v / 16);
      NibbleLetters(v % 16);
    }
    hide Utf8.EncodeChar;
  }

  lemma PrintedIsSpelled(c: char)
    ensures SpelledChar(c, EscapeChar(c))
  {
    var v := c as int;
    if v < 0x20 && v !in {0x08, 0x09, 0x0A, 0x0C, 0x0D} {
      NumberedIsSpelled(v);
      assert EscapeChar(c)[2..] == [0x30, 0x30, HexNibble(v / 16), HexNibble(v % 16)];
    }
    hide HexSpells, HexNibble;
  }

  lemma NumberedIsSpelled(v: nat)
    requires v < 0x20
    ensures HexSpells([0x30, 0x30, HexNibble(v / 16), HexNibble(v % 16)], v)
  {
    NibbleLetters(0);
    NibbleLetters(v / 16);
    NibbleLetters(v % 16);
  }

  // ---- what parses is spelled ----

  lemma ParseIgnoresSpace(s: Bytes)
    ensures ParseValue(s) == ParseValue(SkipWs(s))
  {
    SkipTwice(s);
  }

  /** How the first byte of a value decides what it is. */
  lemma ValueShape(s: Bytes, v: JsonValue, rest: Bytes)
    requires SkipWs(s) == s && ParseValue(s) == Ok((v, rest))
    ensures s != []
    ensures s[0] == 0x22 ==> v.Str? && ParseString(s) == Ok((v.text, rest))
    ensures IsDigit(s[0]) ==> ParseNumber(s) == Ok((v, rest))
    ensures s[0] !in {0x22, 0x5B, 0x7B} && !IsDigit(s[0]) ==> (v.Null? || v.Bool?) && Print(v) <= s && rest == s[|Print(v)|..]
  {
    hide ParseString, ParseNumber, ParseItems, ParseMembers, SkipWs;
  }

  lemma ArrayShape(s: Bytes, v: JsonValue, rest: Bytes)
    requires s != [] && s[0] == 0x5B && ParseValue(s) == Ok((v, rest))
    ensures v.Array?
    ensures if Starts(SkipWs(s[1..]), 0x5D) then v.items == [] && rest == SkipWs(s[1..])[1..]
      else ParseItems(s[1..]) == Ok((v.items, rest))
  {
    hide ParseItems;
    assert SkipWs(s) == s;
    ItemsAfterSpace(s[1..]);
  }

  lemma ObjectShape(s: Bytes, v: JsonValue, rest: Bytes)
    requires s != [] && s[0] == 0x7B && ParseValue(s) == Ok((v, rest))
    ensures v.Object?
    ensures if Starts(SkipWs(s[1..]), 0x7D) then v.members == [] && rest == SkipWs(s[1..])[1..]
      else ParseMembers(s[1..]) == Ok((v.members, rest))
  {
    hide ParseMembers;
    assert SkipWs(s) == s;
    MembersAfterSpace(s[1..]);
  }

  lemma {:induction false} ValueSpelled(s: Bytes, v: JsonValue, rest: Bytes) returns (i: nat, j: nat)
    requires Utf8.Valid(s) && ParseValue(s) == Ok((v, rest))
    ensures i <= j <= |s| && Space(s[..i]) && Spelled(v, s[i..j]) && s[j..] == rest
    decreases |s|, 1
  {
    hide ParseValue, Spelled, ParseString, ParseNumber, SpelledString, SpelledNumber, Utf8.Valid;
    i := SkipIsSpace(s);
    SkipWsClean(s);
    ParseIgnoresSpace(s);
    SkipTwice(s);
    var t := s[i..];
    ValueShape(t, v, rest);
    var k;
    if t[0] == 0x22 {
      k := StringSpelled(t, v.text, rest);
      StringIsSpelled(v.text, t[..k]);
    } else if t[0] == 0x5B {
      k := ArraySpelled(t, v, rest);
    } else if t[0] == 0x7B {
      k := ObjectSpelled(t, v, rest);
    } else if IsDigit(t[0]) {
      k := NumberSpelled(t, v, rest);
      NumberIsSpelled(v.n, t[..k]);
    } else {
      k := |Print(v)|;
      LiteralIsSpelled(v);
      assert t[..k] == Print(v);
    }
    j := i + k;
    assert s[i..j] == t[..k] && s[j..] == t[k..];
  }

  lemma StringIsSpelled(text: string, s: Bytes)
    requires SpelledString(text, s)
    ensures Spelled(Str(text), s)
  {
  }

  lemma NumberIsSpelled(n: U64, s: Bytes)
    requires SpelledNumber(n, s)
    ensures Spelled(Number(n), s)
  {
  }

  lemma LiteralIsSpelled(v: JsonValue)
    requires v.Null? || v.Bool?
    ensures Spelled(v, Print(v))
  {
    Literals();
    hide Utf8.Encode;
  }

  lemma ArrayIsSpelled(items: seq<JsonValue>, s: Bytes, inner: Bytes)
    requires s == [0x5B] + inner + [0x5D] && if items == [] then Space(inner) else SpelledItems(items, inner)
    ensures Spelled(Array(items), s)
  {
    hide SpelledItems;
    assert s[1..|s| - 1] == inner;
  }

  lemma ObjectIsSpelled(members: seq<Member>, s: Bytes, inner: Bytes)
    requires s == [0x7B] + inner + [0x7D] && if members == [] then Space(inner) else SpelledMembers(members, inner)
    ensures Spelled(Object(members), s)
  {
    hide SpelledMembers;
    assert s[1..|s| - 1] == inner;
  }

  lemma {:induction false} ArraySpelled(s: Bytes, v: JsonValue, rest: Bytes) returns (k: nat)
    requires Utf8.Valid(s) && s != [] && s[0] == 0x5B && ParseValue(s) == Ok((v, rest))
    ensures k <= |s| && Spelled(v, s[..k]) && s[k..] == rest
    decreases |s|, 0
  {
    hide ParseValue, ParseItems, Spelled, SpelledItems, Utf8.Valid;
    DropAscii(s);
    var u := s[1..];
    ArrayShape(s, v, rest);
    var j;
    if Starts(SkipWs(u), 0x5D) {
      j := SkipIsSpace(u);
    } else {
      j := ItemsSpelled(u, v.items, rest);
    }
    k := j + 2;
    assert s[..k] == [0x5B] + u[..j] + [0x5D] && s[k..] == u[j + 1..];
    ArrayIsSpelled(v.items, s[..k], u[..j]);
  }

  lemma {:induction false} ObjectSpelled(s: Bytes, v: JsonValue, rest: Bytes) returns (k: nat)
    requires Utf8.Valid(s) && s != [] && s[0] == 0x7B && ParseValue(s) == Ok((v, rest))
    ensures k <= |s| && Spelled(v, s[..k]) && s[k..] == rest
    decreases |s|, 0
  {
    hide ParseValue, ParseMembers, Spelled, SpelledMembers, Utf8.Valid;
    DropAscii(s);
    var u := s[1..];
    ObjectShape(s, v, rest);
    var j;
    if Starts(SkipWs(u), 0x7D) {
      j := SkipIsSpace(u);
    } else {
      j := MembersSpelled(u, v.members, rest);
    }
    k := j + 2;
    assert s[..k] == [0x7B] + u[..j] + [0x7D] && s[k..] == u[j + 1..];
    ObjectIsSpelled(v.members, s[..k], u[..j]);
  }

  /** The value with the white space around it, up to the next token. */
  lemma {:induction false} SpacedSpelled(s: Bytes, v: JsonValue, tail: Bytes) returns (p: nat)
    requires Utf8.Valid(s) && ParseValue(s) == Ok((v, tail))
    ensures p <= |s| && SpacedValue(v, s[..p]) && s[p..] == SkipWs(tail)
    decreases |s|, 3
  {
    hide ParseValue, Spelled, Utf8.Valid;
    var i, j := ValueSpelled(s, v, tail);
    var m := SkipIsSpace(tail);
    p := j + m;
    assert s[..p][..i] == s[..i] && s[..p][i..j] == s[i..j] && s[..p][j..] == tail[..m] && s[p..] == tail[m..];
  }

  lemma {:induction false} ItemsSpelled(s: Bytes, items: seq<JsonValue>, rest: Bytes) returns (k: nat)
    requires Utf8.Valid(s) && ParseItems(s) == Ok((items, rest))
    ensures items != [] && k < |s| && s[k] == 0x5D && s[k + 1..] == rest && SpelledItems(items, s[..k])
    decreases |s|, 4
  {
    hide ParseValue, SpacedValue, Utf8.Valid;
    var (v, tail) := ParseValue(s).value;
    ValueClean(s);
    var p := SpacedSpelled(s, v, tail);
    var t := s[p..];
    SkipWsClean(tail);
    if t[0] == 0x5D {
      k := p;
    } else {
      DropAscii(t);
      var later := ItemsSpelled(t[1..], items[1..], rest);
      k := p + 1 + later;
      assert s[..k][..p] == s[..p] && s[..k][p + 1..] == t[1..][..later];
    }
  }

  lemma NameShape(s: Bytes, name: string, t: Bytes) returns (tail: Bytes)
    requires ParseName(s) == Ok((name, t))
    ensures ParseString(SkipWs(s)) == Ok((name, tail)) && Starts(SkipWs(tail), 0x3A) && t == SkipWs(tail)[1..]
  {
    hide ParseString, SkipWs;
    tail := ParseString(SkipWs(s)).value.1;
  }

  lemma {:induction false} NameSpelled(s: Bytes, name: string, t: Bytes) returns (k: nat)
    requires Utf8.Valid(s) && ParseName(s) == Ok((name, t))
    ensures k < |s| && s[k] == 0x3A && s[k + 1..] == t && SpacedName(name, s[..k])
  {
    hide ParseName, ParseString, SpelledString, SkipWs, Utf8.Valid;
    var i := SkipIsSpace(s);
    SkipWsClean(s);
    var tail := NameShape(s, name, t);
    var j := StringSpelled(s[i..], name, tail);
    var m := SkipIsSpace(tail);
    k := i + j + m;
    assert s[..k][..i] == s[..i] && s[..k][i..i + j] == s[i..][..j] && s[..k][i + j..] == tail[..m];
    assert s[k..] == tail[m..];
  }

  lemma {:induction false} MemberSpelled(s: Bytes, m: Member, t: Bytes, tail: Bytes) returns (p: nat)
    requires Utf8.Valid(s) && ParseName(s) == Ok((m.name, t)) && ParseValue(t) == Ok((m.value, tail))
    ensures p <= |s| && SpelledMember(m, s[..p]) && s[p..] == SkipWs(tail)
    decreases |s|, 3
  {
    hide ParseValue, ParseName, SpacedValue, SpacedName, Utf8.Valid;
    NameClean(s);
    var k := NameSpelled(s, m.name, t);
    var later := SpacedSpelled(t, m.value, tail);
    p := k + 1 + later;
    assert s[..p][..k] == s[..k] && s[..p][k + 1..] == t[..later];
  }

  lemma {:induction false} MembersSpelled(s: Bytes, members: seq<Member>, rest: Bytes) returns (k: nat)
    requires Utf8.Valid(s) && ParseMembers(s) == Ok((members, rest))
    ensures members != [] && k < |s| && s[k] == 0x7D && s[k + 1..] == rest && SpelledMembers(members, s[..k])
    decreases |s|, 4
  {
    hide ParseValue, ParseName, SpelledMember, Utf8.Valid;
    var (name, afterName) := ParseName(s).value;
    NameClean(s);
    var (v, tail) := ParseValue(afterName).value;
    ValueClean(afterName);
    var p := MemberSpelled(s, Member(name, v), afterName, tail);
    var t := s[p..];
    SkipWsClean(tail);
    if t[0] == 0x7D {
      k := p;
    } else {
      DropAscii(t);
      var later := MembersSpelled(t[1..], members[1..], rest);
      k := p + 1 + later;
      assert s[..k][..p] == s[..p] && s[..k][p + 1..] == t[1..][..later];
    }
  }

  /** The parser accepts exactly the spellings of values, however spaced, escaped or padded
      with zeros, and reads each as the value it spells. */
  lemma ParseIff(s: Bytes, v: JsonValue)
    requires Utf8.Valid(s)
    ensures Parse(s) == Ok(v) <==> SpacedValue(v, s)
  {
    hide ParseValue, Spelled;
    if Parse(s) == Ok(v) {
      var tail := ParseValue(s).value.1;
      var p := SpacedSpelled(s, v, tail);
      assert s[..p] == s;
    }
    if SpacedValue(v, s) {
      var tail := SpacedParses(v, s, []);
      assert s + [] == s;
    }
  }
}
