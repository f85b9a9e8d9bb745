/** The bridge's own writer for event text, beside the one for messages: the same bytes by
    other means. */
module BridgeEventText {
  import opened Base
  import opened NostrTypes
  import opened Json
  import opened JsonLayout
  import opened JsonPieces
  import opened Messages
  import opened NostrBridge
  import opened Signing
  import JsonWriter
  import Utf8

  /** Putting `text` after `before` into `capacity` bytes: it succeeds exactly when it fits. */
  ghost predicate Put(capacity: nat, before: Bytes, text: Bytes, r: Result<(), NostrBridgeError>, after: Bytes) {
    if |before| + |text| <= capacity then r == Ok(()) && after == before + text
    else NoRoom(capacity, r)
  }

  ghost predicate NoRoom(capacity: nat, r: Result<(), NostrBridgeError>) {
    r.Err? && r.error.NostrFailure? && JsonWriter.TooSmall(capacity, r.error.nostr)
  }

  lemma SevenFields(e: Event)
    ensures |EventMembers(e)| == 7
  {
  }

  class EventWriter {
    const output: array<Byte>
    var len: nat

    ghost predicate Valid()
      reads this
    {
      len <= output.Length
    }

    ghost function Text(): Bytes
      requires Valid()
      reads this, output
    {
      output[..len]
    }

    constructor (output: array<Byte>)
      ensures this.output == output && Valid() && Text() == []
    {
      this.output, len := output, 0;
    }

    method Write(bytes: Bytes) returns (r: Result<(), NostrBridgeError>)
      requires Valid()
      modifies this`len, output
      ensures Valid() && Put(output.Length, old(Text()), bytes, r, Text())
      ensures r.Err? ==> Text() == old(Text())
    {
      var needed := len + |bytes|;
      if needed > output.Length {
        return Err(NostrFailure(NostrError.OutputTooSmall(needed, output.Length)));
      }
      forall i | 0 <= i < |bytes| {
        output[len + i] := bytes[i];
      }
      assert output[..needed] == old(output[..len]) + bytes;
      len := needed;
      return Ok(());
    }

    method PushByte(b: Byte) returns (r: Result<(), NostrBridgeError>)
      requires Valid()
      modifies this`len, output
      ensures Valid() && Put(output.Length, old(Text()), [b], r, Text())
    {
      r := Write([b]);
    }

    /** Three writes, where the message writer makes one. */
    method WriteControlEscape(c: char) returns (r: Result<(), NostrBridgeError>)
      requires Valid() && c as int < 0x20
      modifies this`len, output
      ensures var v := c as int;
        Valid() && Put(output.Length, old(Text()), [0x5C, 0x75, 0x30, 0x30, HexNibble(v / 16), HexNibble(v % 16)], r, Text())
    {
      var v := c as int;
      var _ :- Write([0x5C, 0x75, 0x30, 0x30]);
      var _ :- PushByte(HexNibble(v / 16));
      r := PushByte(HexNibble(v % 16));
    }

    method WriteChar(c: char) returns (r: Result<(), NostrBridgeError>)
      requires Valid()
      modifies this`len, output
      ensures Valid() && Put(output.Length, old(Text()), EscapeChar(c), r, Text())
    {
      if c == '"' {
        r := Write([0x5C, 0x22]);
      } else if c == '\\' {
        r := Write([0x5C, 0x5C]);
      } else if c == '\n' {
        r := Write([0x5C, 0x6E]);
      } else if c == '\r' {
        r := Write([0x5C, 0x72]);
      } else if c == '\t' {
        r := Write([0x5C, 0x74]);
      } else if c as int == 0x08 {
        r := Write([0x5C, 0x62]);
      } else if c as int == 0x0C {
        r := Write([0x5C, 0x66]);
      } else if c as int < 0x20 {
        r := WriteControlEscape(c);
      } else {
        r := Write(Utf8.EncodeChar(c));
      }
    }

    method WriteJsonString(text: string) returns (r: Result<(), NostrBridgeError>)
      requires Valid()
      modifies this`len, output
      ensures Valid() && Put(output.Length, old(Text()), PrintString(text), r, Text())
    {
      hide Escape, EscapeChar;
      var _ :- PushByte(0x22);
      ghost var start := Text();
      EmptyLayouts();
      assert text[..0] == [];
      for i := 0 to |text|
        invariant Valid() && Text() == start + Escape(text[..i])
      {
        EscapeStep(text, i);
        var _ :- WriteChar(text[i]);
      }
      assert text[..|text|] == text;
      r := PushByte(0x22);
    }

    /** This loop always takes at least one step, so it needs no case for zero. */
    method WriteU64(n: U64) returns (r: Result<(), NostrBridgeError>)
      requires Valid()
      modifies this`len, output
      ensures Valid() && Put(output.Length, old(Text()), Digits(n), r, Text())
    {
      hide Digits, DigitsAhead, Put;
      U64Fits(n);
      var digits := new Byte[20];
      var index := digits.Length - 1;
      var remaining: nat := n;
      DigitsStep(n, []);
      assert Digits(n) + [] == Digits(n);
      digits[index] := 0x30 + remaining % 10;
      remaining := remaining / 10;
      assert digits[index..] == [digits[index]] + [];
      while remaining != 0
        invariant 0 <= index && |DigitsAhead(remaining)| <= index < 20
        invariant Digits(n) == DigitsAhead(remaining) + digits[index..]
        modifies digits
      {
        ghost var tail := digits[index..];
        DigitsStep(remaining, tail);
        index := index - 1;
        digits[index] := 0x30 + remaining % 10;
        remaining := remaining / 10;
        assert digits[index..] == [digits[index]] + tail;
      }
      assert [] + digits[index..] == digits[index..];
      r := Write(digits[index..]);
    }

    method PushComma(k: nat) returns (r: Result<(), NostrBridgeError>)
      requires Valid()
      modifies this`len, output
      ensures Valid() && Put(output.Length, old(Text()), Comma(k), r, Text())
    {
      assert Text() + [] == Text();
      if k > 0 {
        r := PushByte(0x2C);
      } else {
        r := Ok(());
      }
    }

    // ---- tags ----

    /** The first `k` items of an array stand after `start`. */
    ghost predicate AtItem(start: Bytes, items: seq<JsonValue>, k: nat)
      requires k <= |items|
      reads this, output
    {
      Valid() && Text() == start + PrintItems(items[..k])
    }

    /** One more item stands there, or the whole array has no room. */
    ghost predicate ItemPut(start: Bytes, items: seq<JsonValue>, k: nat, r: Result<(), NostrBridgeError>)
      requires k <= |items|
      reads this, output
    {
      if r.Ok? then AtItem(start, items, k)
      else Valid() && NoRoom(output.Length, r) && |start| + |PrintItems(items)| > output.Length
    }

    method WriteTagValue(tag: Tag, ghost start: Bytes, k: nat) returns (r: Result<(), NostrBridgeError>)
      requires k < |tag| && AtItem(start, Strs(tag), k)
      modifies this`len, output
      ensures ItemPut(start, Strs(tag), k + 1, r)
    {
      hide PrintItems, PrintString, Comma;
      ItemsSoFar(Strs(tag), k);
      var _ :- PushComma(k);
      r := WriteJsonString(tag[k]);
    }

    method WriteTag(tag: Tag) returns (r: Result<(), NostrBridgeError>)
      requires Valid()
      modifies this`len, output
      ensures Valid() && Put(output.Length, old(Text()), Print(Array(Strs(tag))), r, Text())
    {
      hide PrintItems;
      ghost var items := Strs(tag);
      EmptyLayouts();
      assert items[..0] == [] && items[..|items|] == items;
      var _ :- PushByte(0x5B);
      ghost var start := Text();
      assert start + [] == start;
      for i := 0 to |tag|
        invariant AtItem(start, items, i)
      {
        var _ :- WriteTagValue(tag, start, i);
      }
      r := PushByte(0x5D);
    }

    method WriteTagAt(tags: seq<Tag>, ghost start: Bytes, k: nat) returns (r: Result<(), NostrBridgeError>)
      requires k < |tags| && AtItem(start, TagsJson(tags).items, k)
      modifies this`len, output
      ensures ItemPut(start, TagsJson(tags).items, k + 1, r)
    {
      hide PrintItems, Print, Strs, Comma;
      ItemsSoFar(TagsJson(tags).items, k);
      var _ :- PushComma(k);
      r := WriteTag(tags[k]);
    }

    method WriteTags(tags: seq<Tag>) returns (r: Result<(), NostrBridgeError>)
      requires Valid()
      modifies this`len, output
      ensures Valid() && Put(output.Length, old(Text()), Print(TagsJson(tags)), r, Text())
    {
      hide PrintItems, Strs;
      ghost var items := TagsJson(tags).items;
      EmptyLayouts();
      assert items[..0] == [] && items[..|items|] == items;
      var _ :- PushByte(0x5B);
      ghost var start := Text();
      assert start + [] == start;
      for i := 0 to |tags|
        invariant AtItem(start, items, i)
      {
        var _ :- WriteTagAt(tags, start, i);
      }
      r := PushByte(0x5D);
    }

    // ---- fields ----

    /** The first `k` fields of an event stand after `start`. */
    ghost predicate AtField(start: Bytes, e: Event, k: nat)
      requires k <= 7
      reads this, output
    {
      Valid() && Text() == start + PrintMembers(EventMembers(e)[..k])
    }

    /** One more field stands there, or the whole event has no room. */
    ghost predicate FieldPut(start: Bytes, e: Event, k: nat, r: Result<(), NostrBridgeError>)
      requires k <= 7
      reads this, output
    {
      if r.Ok? then AtField(start, e, k)
      else Valid() && NoRoom(output.Length, r) && |start| + |PrintMembers(EventMembers(e))| > output.Length
    }

    method WriteName(k: nat, name: string) returns (r: Result<(), NostrBridgeError>)
      requires Valid()
      modifies this`len, output
      ensures Valid() && Put(output.Length, old(Text()), Comma(k) + PrintString(name) + [0x3A], r, Text())
    {
      hide PrintString, Comma;
      var _ :- PushComma(k);
      var _ :- WriteJsonString(name);
      r := PushByte(0x3A);
    }

    method WriteStringField(e: Event, ghost start: Bytes, k: nat, name: string, text: string)
      returns (r: Result<(), NostrBridgeError>)
      requires k < 7 && EventMembers(e)[k] == Member(name, Str(text)) && AtField(start, e, k)
      modifies this`len, output
      ensures FieldPut(start, e, k + 1, r)
    {
      hide PrintString, PrintMembers, EventMembers, Comma;
      SevenFields(e);
      MembersSoFar(EventMembers(e), k);
      var _ :- WriteName(k, name);
      r := WriteJsonString(text);
    }

    method WriteNumberField(e: Event, ghost start: Bytes, k: nat, name: string, n: U64)
      returns (r: Result<(), NostrBridgeError>)
      requires k < 7 && EventMembers(e)[k] == Member(name, Number(n)) && AtField(start, e, k)
      modifies this`len, output
      ensures FieldPut(start, e, k + 1, r)
    {
      hide PrintString, PrintMembers, EventMembers, Comma, Digits;
      SevenFields(e);
      MembersSoFar(EventMembers(e), k);
      var _ :- WriteName(k, name);
      r := WriteU64(n);
    }

    method WriteTagsField(e: Event, ghost start: Bytes, k: nat, name: string) returns (r: Result<(), NostrBridgeError>)
      requires k < 7 && EventMembers(e)[k] == Member(name, TagsJson(e.tags)) && AtField(start, e, k)
      modifies this`len, output
      ensures FieldPut(start, e, k + 1, r)
    {
      hide PrintString, PrintMembers, EventMembers, Comma, TagsJson, Print;
      SevenFields(e);
      MembersSoFar(EventMembers(e), k);
      var _ :- WriteName(k, name);
      r := WriteTags(e.tags);
    }

    method WriteFields(e: Event, ghost start: Bytes) returns (r: Result<(), NostrBridgeError>)
      requires AtField(start, e, 0)
      modifies this`len, output
      ensures FieldPut(start, e, 7, r)
    {
      hide PrintMembers, AtField, TagsJson, Print;
      var id := HexOf(e.id);
      var pubkey := HexOf(e.pubkey);
      var signature := HexOf(e.sig);
      var _ :- WriteStringField(e, start, 0, "id", id);
      var _ :- WriteStringField(e, start, 1, "pubkey", pubkey);
      var _ :- WriteNumberField(e, start, 2, "created_at", e.createdAt);
      var _ :- WriteNumberField(e, start, 3, "kind", e.kind);
      var _ :- WriteTagsField(e, start, 4, "tags");
      var _ :- WriteStringField(e, start, 5, "content", e.content);
      r := WriteStringField(e, start, 6, "sig", signature);
    }

    /** The same text as the message writer's, and room is refused in the same cases. */
    method WriteNostrEventJson(e: Event) returns (r: Result<(), NostrBridgeError>)
      requires Valid()
      modifies this`len, output
      ensures Valid() && Put(output.Length, old(Text()), Print(EventJson(e)), r, Text())
    {
      hide PrintMembers, EventMembers;
      ghost var members := EventMembers(e);
      ObjectLength(members);
      EmptyLayouts();
      SevenFields(e);
      assert members[..0] == [] && members[..7] == members;
      var _ :- PushByte(0x7B);
      ghost var start := Text();
      assert start + [] == start;
      var _ :- WriteFields(e, start);
      r := PushByte(0x7D);
    }
  }

  /** A message leaves as the text of its signed event; nothing but the message, the key or
      the signature can make this fail. */
  method WriteEventJson(c: Crypto, signer: Signer, raw: Bytes, secret: Bytes32, createdAt: U64, output: array<Byte>)
    returns (r: Result<nat, NostrBridgeError>)
    requires output.Length == EVENT_JSON_MAX_LEN
    modifies output
    ensures match ToEvent(c, signer, raw, secret, createdAt) {
      case Err(e) => r == Err(e) && output[..] == old(output[..])
      case Ok(event) =>
        var text := Print(EventJson(event));
        r == Ok(|text|) && |text| <= output.Length && output[..|text|] == text
    }
  {
    hide EventJson, Print, ToEvent;
    var event :- ToEvent(c, signer, raw, secret, createdAt);
    EventTextFits(c, signer, raw, secret, createdAt);
    var w := new EventWriter(output);
    var written := w.WriteNostrEventJson(event);
    assert [] + Print(EventJson(event)) == Print(EventJson(event));
    return Ok(w.len);
  }
}
