/** The recursive descent itself: a cursor over the bytes of a text, moved by loops and
    mutually recursive methods, each proved to compute the parsing function of its name. */
module JsonParser {
  import opened Base
  import opened NostrTypes
  import opened Json
  import Utf8

  /** `r` and the unread bytes agree with what the parsing function says. */
  ghost predicate Agrees<T>(expected: Parsed<T>, r: Result<T, NostrError>, rest: Bytes) {
    match expected
    case Err(e) => r == Err(e)
    case Ok((v, left)) => r == Ok(v) && rest == left
  }

  class Cursor {
    const input: Bytes
    var position: nat

    ghost predicate Valid()
      reads this
    {
      position <= |input|
    }

    ghost function Rest(): Bytes
      requires Valid()
      reads this
    {
      input[position..]
    }

    constructor (text: string)
      ensures input == Utf8.Encode(text) && position == 0 && Valid()
    {
      input, position := Utf8.Encode(text), 0;
    }

    function Peek(): (b: Option<Byte>)
      requires Valid()
      reads this
      ensures b == if Rest() == [] then None else Some(Rest()[0])
    {
      if position < |input| then Some(input[position]) else None
    }

    method NextByte() returns (b: Option<Byte>)
      requires Valid()
      modifies this`position
      ensures Valid() && b == old(Peek())
      ensures Rest() == if b.None? then old(Rest()) else old(Rest())[1..]
      ensures position == if b.None? then old(position) else old(position) + 1
    {
      b := Peek();
      if b.Some? {
        position := position + 1;
      }
    }

    method ConsumeByte(b: Byte) returns (found: bool)
      requires Valid()
      modifies this`position
      ensures Valid() && found == Starts(old(Rest()), b)
      ensures Rest() == if found then old(Rest())[1..] else old(Rest())
      ensures position == if found then old(position) + 1 else old(position)
    {
      found := Peek() == Some(b);
      if found {
        position := position + 1;
      }
    }

    method ExpectByte(b: Byte) returns (r: Result<(), NostrError>)
      requires Valid()
      modifies this`position
      ensures Valid()
      ensures r == if Starts(old(Rest()), b) then Ok(()) else Err(MalformedMessage)
      ensures Rest() == if r.Ok? then old(Rest())[1..] else old(Rest())
      ensures position == if r.Ok? then old(position) + 1 else old(position)
    {
      var found := ConsumeByte(b);
      r := if found then Ok(()) else Err(MalformedMessage);
    }

    method SkipBlanks()
      requires Valid()
      modifies this`position
      ensures Valid() && position >= old(position)
      ensures Rest() == SkipWs(old(Rest()))
    {
      while Peek().Some? && Blank(Peek().value)
        invariant Valid() && position >= old(position)
        invariant SkipWs(Rest()) == SkipWs(old(Rest()))
        decreases |input| - position
      {
        assert Rest()[1..] == input[position + 1..];
        position := position + 1;
      }
    }

    method Literal(literal: Bytes, v: JsonValue) returns (r: Result<JsonValue, NostrError>)
      requires Valid() && literal != []
      modifies this`position
      ensures Valid() && position >= old(position)
      ensures Agrees(ParseLiteral(old(Rest()), literal, v), r, Rest())
    {
      var end := position + |literal|;
      assert literal <= Rest() <==> end <= |input| && input[position..end] == literal by {
        if end <= |input| {
          assert Rest()[..|literal|] == input[position..end];
        }
      }
      if end <= |input| && input[position..end] == literal {
        assert Rest()[|literal|..] == input[end..];
        position := end;
        return Ok(v);
      }
      return Err(MalformedMessage);
    }

    method UnicodeEscape() returns (r: Result<char, NostrError>)
      requires Valid()
      modifies this`position
      ensures Valid() && position >= old(position)
      ensures Agrees(ParseUnicodeEscape(old(Rest()), 0, 0), r, Rest())
    {
      var value: nat := 0;
      for count := 0 to 4
        invariant Valid() && position >= old(position)
        invariant ParseUnicodeEscape(old(Rest()), 0, 0) == ParseUnicodeEscape(Rest(), count, value)
      {
        var b := NextByte();
        if b.None? {
          return Err(MalformedMessage);
        }
        var digit :- HexValue(b.value);
        value := value * 16 + digit;
      }
      if value < 0xD800 || 0xE000 <= value < 0x11_0000 {
        return Ok(value as char);
      }
      return Err(MalformedMessage);
    }

    method EscapeSequence() returns (r: Result<char, NostrError>)
      requires Valid()
      modifies this`position
      ensures Valid() && position >= old(position)
      ensures Agrees(ParseEscape(old(Rest())), r, Rest())
    {
      var b := NextByte();
      if b.None? {
        return Err(MalformedMessage);
      }
      match b.value
      case 0x22 => return Ok('"');
      case 0x5C => return Ok('\\');
      case 0x2F => return Ok('/');
      case 0x62 => return Ok(0x08 as char);
      case 0x66 => return Ok(0x0C as char);
      case 0x6E => return Ok('\n');
      case 0x72 => return Ok('\r');
      case 0x74 => return Ok('\t');
      case 0x75 => r := UnicodeEscape();
      case _ => return Err(MalformedMessage);
    }

    method StringChar() returns (r: Result<char, NostrError>)
      requires Valid() && Rest() != [] && Rest()[0] != 0x22
      modifies this`position
      ensures Valid() && position >= old(position)
      ensures Agrees(ParseStringChar(old(Rest())), r, Rest())
    {
      var b := input[position];
      assert Rest()[1..] == input[position + 1..];
      if b == 0x5C {
        position := position + 1;
        r := EscapeSequence();
      } else if b < 0x20 {
        return Err(MalformedMessage);
      } else if b < 0x80 {
        position := position + 1;
        return Ok(b as char);
      } else {
        match Utf8.Decode(input[position..])
        case None => return Err(Utf8Error);
        case Some(text) =>
          if text == [] {
            return Err(MalformedMessage);
          }
          Utf8.EncodeDecode(input[position..]);
          assert Rest()[Utf8.Width(text[0])..] == input[position + Utf8.Width(text[0])..];
          position := position + Utf8.Width(text[0]);
          return Ok(text[0]);
      }
    }

    method String() returns (r: Result<string, NostrError>)
      requires Valid()
      modifies this`position
      ensures Valid() && position >= old(position)
      ensures Agrees(ParseString(old(Rest())), r, Rest())
    {
      hide ParseStringChar;
      var _ :- ExpectByte(0x22);
      var out: string := [];
      ghost var body := Rest();
      assert ParseStringBody(body) == PrependText([], ParseStringBody(body)) by {
        if ParseStringBody(body).Ok? {
          assert [] + ParseStringBody(body).value.0 == ParseStringBody(body).value.0;
        }
      }
      while true
        invariant Valid() && position >= old(position)
        invariant ParseStringBody(body) == PrependText(out, ParseStringBody(Rest()))
        decreases |input| - position
      {
        var b := Peek();
        if b.None? {
          return Err(MalformedMessage);
        }
        if b.value == 0x22 {
          break;
        }
        ghost var before := Rest();
        var c :- StringChar();
        PrependTextTwice(out, c, ParseStringBody(Rest()));
        out := out + [c];
      }
      assert Rest()[1..] == input[position + 1..];
      assert out + [] == out;
      position := position + 1;
      return Ok(out);
    }

    lemma PrependTextTwice(out: string, c: char, r: Parsed<string>)
      ensures PrependText(out, PrependText([c], r)) == PrependText(out + [c], r)
    {
      if r.Ok? {
        assert out + ([c] + r.value.0) == out + [c] + r.value.0;
      }
    }

    method Num() returns (r: Result<JsonValue, NostrError>)
      requires Valid() && Rest() != [] && IsDigit(Rest()[0])
      modifies this`position
      ensures Valid() && position >= old(position)
      ensures Agrees(ParseNumber(old(Rest())), r, Rest())
    {
      var start := position;
      while Peek().Some? && IsDigit(Peek().value)
        invariant start <= position && Valid()
        invariant DigitCount(old(Rest())) == position - start + DigitCount(Rest())
        decreases |input| - position
      {
        assert Rest()[1..] == input[position + 1..];
        position := position + 1;
      }
      DigitCountDigits(old(Rest()));
      assert input[start..position] == old(Rest())[..DigitCount(old(Rest()))];
      assert Rest() == old(Rest())[DigitCount(old(Rest()))..];
      var value := DigitsValue(input[start..position]);
      if value <= 0xFFFF_FFFF_FFFF_FFFF {
        return Ok(Number(value));
      }
      return Err(MalformedMessage);
    }

    method Value() returns (r: Result<JsonValue, NostrError>)
      requires Valid()
      modifies this`position
      ensures Valid() && position >= old(position)
      ensures Agrees(ParseValue(old(Rest())), r, Rest())
      decreases |input| - position, 1
    {
      hide ParseString, ParseNumber, ParseLiteral, ParseItems, ParseMembers;
      SkipBlanks();
      var b := Peek();
      if b.None? {
        return Err(MalformedMessage);
      } else if b.value == 0x6E {
        r := Literal([0x6E, 0x75, 0x6C, 0x6C], Null);
      } else if b.value == 0x74 {
        r := Literal([0x74, 0x72, 0x75, 0x65], Bool(true));
      } else if b.value == 0x66 {
        r := Literal([0x66, 0x61, 0x6C, 0x73, 0x65], Bool(false));
      } else if b.value == 0x22 {
        var text :- String();
        return Ok(Str(text));
      } else if b.value == 0x5B {
        r := Elements();
      } else if b.value == 0x7B {
        r := Fields();
      } else if IsDigit(b.value) {
        r := Num();
      } else {
        return Err(MalformedMessage);
      }
    }

    /** An array from its opening bracket on. */
    ghost function ArrayAt(s: Bytes): Parsed<JsonValue> {
      if !Starts(s, 0x5B) then Err(MalformedMessage)
      else
        var u := SkipWs(s[1..]);
        if Starts(u, 0x5D) then Ok((Array([]), u[1..]))
        else
          var (items, rest) :- ParseItems(u);
          Ok((Array(items), rest))
    }

    lemma PrependItemsTwice(items: seq<JsonValue>, v: JsonValue, r: Parsed<seq<JsonValue>>)
      ensures PrependItems(items, PrependItems([v], r)) == PrependItems(items + [v], r)
    {
      if r.Ok? {
        assert items + ([v] + r.value.0) == items + [v] + r.value.0;
      }
    }

    lemma PrependNoItems(r: Parsed<seq<JsonValue>>)
      ensures PrependItems([], r) == r
    {
      if r.Ok? {
        assert [] + r.value.0 == r.value.0;
      }
    }

    method Elements() returns (r: Result<JsonValue, NostrError>)
      requires Valid()
      modifies this`position
      ensures Valid() && position >= old(position)
      ensures Agrees(ArrayAt(old(Rest())), r, Rest())
      decreases |input| - position, 0
    {
      hide ParseValue;
      var _ :- ExpectByte(0x5B);
      SkipBlanks();
      var values: seq<JsonValue> := [];
      ghost var u := Rest();
      var closed := ConsumeByte(0x5D);
      if closed {
        return Ok(Array(values));
      }
      PrependNoItems(ParseItems(u));
      while true
        invariant Valid() && position > old(position)
        invariant ParseItems(u) == PrependItems(values, ParseItems(Rest()))
        decreases |input| - position
      {
        ghost var s := Rest();
        var v :- Value();
        SkipBlanks();
        closed := ConsumeByte(0x5D);
        if closed {
          values := values + [v];
          break;
        }
        var _ :- ExpectByte(0x2C);
        PrependItemsTwice(values, v, ParseItems(Rest()));
        values := values + [v];
      }
      return Ok(Array(values));
    }

    /** An object from its opening brace on. */
    ghost function ObjectAt(s: Bytes): Parsed<JsonValue> {
      if !Starts(s, 0x7B) then Err(MalformedMessage)
      else
        var u := SkipWs(s[1..]);
        if Starts(u, 0x7D) then Ok((Object([]), u[1..]))
        else
          var (members, rest) :- ParseMembers(u);
          Ok((Object(members), rest))
    }

    lemma PrependMembersTwice(members: seq<Member>, m: Member, r: Parsed<seq<Member>>)
      ensures PrependMembers(members, PrependMembers([m], r)) == PrependMembers(members + [m], r)
    {
      if r.Ok? {
        assert members + ([m] + r.value.0) == members + [m] + r.value.0;
      }
    }

    lemma PrependNoMembers(r: Parsed<seq<Member>>)
      ensures PrependMembers([], r) == r
    {
      if r.Ok? {
        assert [] + r.value.0 == r.value.0;
      }
    }

    method Name() returns (r: Result<string, NostrError>)
      requires Valid()
      modifies this`position
      ensures Valid() && position >= old(position)
      ensures Agrees(ParseName(old(Rest())), r, Rest())
    {
      hide ParseString;
      SkipBlanks();
      var key :- String();
      SkipBlanks();
      var _ :- ExpectByte(0x3A);
      return Ok(key);
    }

    method Fields() returns (r: Result<JsonValue, NostrError>)
      requires Valid()
      modifies this`position
      ensures Valid() && position >= old(position)
      ensures Agrees(ObjectAt(old(Rest())), r, Rest())
      decreases |input| - position, 0
    {
      hide ParseValue, ParseName;
      var _ :- ExpectByte(0x7B);
      SkipBlanks();
      var fields: seq<Member> := [];
      ghost var u := Rest();
      var closed := ConsumeByte(0x7D);
      if closed {
        return Ok(Object(fields));
      }
      PrependNoMembers(ParseMembers(u));
      while true
        invariant Valid() && position > old(position)
        invariant ParseMembers(u) == PrependMembers(fields, ParseMembers(Rest()))
        decreases |input| - position
      {
        ghost var s := Rest();
        var key :- Name();
        var v :- Value();
        SkipBlanks();
        closed := ConsumeByte(0x7D);
        if closed {
          fields := fields + [Member(key, v)];
          break;
        }
        var _ :- ExpectByte(0x2C);
        PrependMembersTwice(fields, Member(key, v), ParseMembers(Rest()));
        fields := fields + [Member(key, v)];
      }
      return Ok(Object(fields));
    }

    /** The whole input is one value. */
    method Run() returns (r: Result<JsonValue, NostrError>)
      requires Valid() && position == 0
      modifies this`position
      ensures r == Parse(input)
      ensures r.Ok? ==> position == |input|
    {
      assert Rest() == input;
      var v :- Value();
      SkipBlanks();
      if position != |input| {
        return Err(MalformedMessage);
      }
      return Ok(v);
    }
  }

  /** Parsing a text runs the cursor over its bytes and always comes back. */
  method ParseText(text: string) returns (r: Result<JsonValue, NostrError>)
    ensures r == Parse(Utf8.Encode(text))
  {
    var cursor := new Cursor(text);
    r := cursor.Run();
  }
}
