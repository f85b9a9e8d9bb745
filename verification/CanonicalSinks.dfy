/** The canonical serializer over its two sinks: a bounded buffer and a hasher. Both take in
    the same bytes; only the buffer can refuse them. */
module CanonicalSinks {
  import opened Base
  import opened NostrTypes
  import opened Json
  import opened JsonLayout
  import opened JsonPieces
  import opened JsonWriter
  import opened Canonical
  import opened Messages
  import Hex
  import JsonRoundTrip
  import Utf8

  /** Taking in `text` after `before`: always without a limit, otherwise exactly when it fits. */
  ghost predicate Took(limit: Option<nat>, before: Bytes, text: Bytes, r: Result<(), NostrError>, after: Bytes) {
    if limit.None? || |before| + |text| <= limit.value then r == Ok(()) && after == before + text
    else r.Err? && TooSmall(limit.value, r.error)
  }

  /** A hashing sink keeps what its digest has absorbed; a buffer sink fills `out`. */
  class Sink {
    const hashing: bool
    const out: array<Byte>
    var len: nat
    var absorbed: Bytes

    ghost predicate Valid()
      reads this
    {
      len <= out.Length
    }

    ghost function Limit(): Option<nat> {
      if hashing then None else Some(out.Length)
    }

    ghost function Received(): Bytes
      requires Valid()
      reads this, out
    {
      if hashing then absorbed else out[..len]
    }

    constructor Buffer(out: array<Byte>)
      ensures this.out == out && !hashing && Valid() && Received() == []
    {
      this.out, hashing, len, absorbed := out, false, 0, [];
    }

    constructor Hash()
      ensures hashing && fresh(out) && Valid() && Received() == []
    {
      out := new Byte[0];
      hashing, len, absorbed := true, 0, [];
    }

    method Write(bytes: Bytes) returns (r: Result<(), NostrError>)
      requires Valid()
      modifies this`len, this`absorbed, out
      ensures Valid() && Took(Limit(), old(Received()), bytes, r, Received())
    {
      if hashing {
        absorbed := absorbed + bytes;
        return Ok(());
      }
      var needed := len + |bytes|;
      if needed > out.Length {
        return Err(OutputTooSmall(needed, out.Length));
      }
      forall i | 0 <= i < |bytes| {
        out[len + i] := bytes[i];
      }
      assert out[..needed] == old(out[..len]) + bytes;
      len := needed;
      return Ok(());
    }

    method WriteControlEscape(c: char) returns (r: Result<(), NostrError>)
      requires Valid() && c as int < 0x20
      modifies this`len, this`absorbed, out
      ensures var v := c as int;
        Valid() && Took(Limit(), old(Received()), [0x5C, 0x75, 0x30, 0x30, HexNibble(v / 16), HexNibble(v % 16)], r, Received())
    {
      var v := c as int;
      r := Write([0x5C, 0x75, 0x30, 0x30, HexNibble(v / 16), HexNibble(v % 16)]);
    }

    method WriteChar(c: char) returns (r: Result<(), NostrError>)
      requires Valid()
      modifies this`len, this`absorbed, out
      ensures Valid() && Took(Limit(), old(Received()), EscapeChar(c), r, Received())
    {
      if c == '"' {
        r := Write([0x5C, 0x22]);
      } else if c == '\\' {
        r := Write([0x5C, 0x5C]);
      } else if c == '\n' {
        r := Write([0x5C, 0x6E]);
      } else if c == '\r' {
        r := Write([0x5C, 0x72]);
      } else if c == '\t' {
        r := Write([0x5C, 0x74]);
      } else if c as int == 0x08 {
        r := Write([0x5C, 0x62]);
      } else if c as int == 0x0C {
        r := Write([0x5C, 0x66]);
      } else if c as int < 0x20 {
        r := WriteControlEscape(c);
      } else {
        r := Write(Utf8.EncodeChar(c));
      }
    }

    method WriteJsonString(text: string) returns (r: Result<(), NostrError>)
      requires Valid()
      modifies this`len, this`absorbed, out
      ensures Valid() && Took(Limit(), old(Received()), PrintString(text), r, Received())
    {
      hide Escape, EscapeChar, Received;
      var _ :- Write([0x22]);
      ghost var start := Received();
      EmptyLayouts();
      assert text[..0] == [];
      for i := 0 to |text|
        invariant Valid() && Received() == start + Escape(text[..i])
      {
        EscapeStep(text, i);
        var _ :- WriteChar(text[i]);
      }
      assert text[..|text|] == text;
      r := Write([0x22]);
    }

    /** Digits go into a scratch array from its far end. */
    method WriteU64(n: U64) returns (r: Result<(), NostrError>)
      requires Valid()
      modifies this`len, this`absorbed, out
      ensures Valid() && Took(Limit(), old(Received()), Digits(n), r, Received())
    {
      hide Took;
      if n == 0 {
        r := Write([0x30]);
        return;
      }
      U64Fits(n);
      var scratch := new Byte[20];
      var cursor := scratch.Length;
      var value: nat := n;
      assert Digits(n) == DigitsAhead(n) + scratch[cursor..];
      hide Digits;
      while value > 0
        invariant 0 <= cursor <= 20
        invariant Digits(n) == DigitsAhead(value) + scratch[cursor..]
        modifies scratch
      {
        ghost var tail := scratch[cursor..];
        cursor := cursor - 1;
        scratch[cursor] := 0x30 + value % 10;
        assert scratch[cursor..] == [scratch[cursor]] + tail;
        DigitsStep(value, tail);
        value := value / 10;
      }
      assert [] + scratch[cursor..] == scratch[cursor..];
      r := Write(scratch[cursor..]);
    }

    /** The first `k` items of an array have been taken in after `start`. */
    ghost predicate AtItems(start: Bytes, items: seq<JsonValue>, k: nat)
      requires k <= |items|
      reads this, out
    {
      Valid() && Received() == start + PrintItems(items[..k])
    }

    /** The next item was taken in too, or the whole array has no room. */
    ghost predicate ItemTook(start: Bytes, items: seq<JsonValue>, k: nat, r: Result<(), NostrError>)
      requires k <= |items|
      reads this, out
    {
      match r
      case Ok(_) => AtItems(start, items, k)
      case Err(e) => Valid() && !hashing && TooSmall(out.Length, e) && |start| + |PrintItems(items)| > out.Length
    }

    method PushComma(k: nat) returns (r: Result<(), NostrError>)
      requires Valid()
      modifies this`len, this`absorbed, out
      ensures Valid() && Took(Limit(), old(Received()), Comma(k), r, Received())
    {
      assert Received() + [] == Received();
      if k > 0 {
        r := Write([0x2C]);
      } else {
        r := Ok(());
      }
    }

    method WriteValueItem(tag: Tag, ghost start: Bytes, k: nat) returns (r: Result<(), NostrError>)
      requires k < |tag| && AtItems(start, Strs(tag), k)
      modifies this`len, this`absorbed, out
      ensures ItemTook(start, Strs(tag), k + 1, r)
    {
      hide PrintItems, PrintString, Comma, Received;
      ItemsSoFar(Strs(tag), k);
      var _ :- PushComma(k);
      r := WriteJsonString(tag[k]);
    }

    method WriteTag(tag: Tag) returns (r: Result<(), NostrError>)
      requires Valid()
      modifies this`len, this`absorbed, out
      ensures Valid() && Took(Limit(), old(Received()), Print(Array(Strs(tag))), r, Received())
    {
      hide PrintItems, Received;
      ghost var items := Strs(tag);
      EmptyLayouts();
      assert items[..0] == [] && items[..|items|] == items;
      var _ :- Write([0x5B]);
      ghost var start := Received();
      assert start + [] == start;
      for i := 0 to |tag|
        invariant AtItems(start, items, i)
      {
        var _ :- WriteValueItem(tag, start, i);
      }
      r := Write([0x5D]);
    }

    method WriteTagItem(tags: seq<Tag>, ghost start: Bytes, k: nat) returns (r: Result<(), NostrError>)
      requires k < |tags| && AtItems(start, TagsJson(tags).items, k)
      modifies this`len, this`absorbed, out
      ensures ItemTook(start, TagsJson(tags).items, k + 1, r)
    {
      hide PrintItems, Print, Strs, Comma, Received;
      ItemsSoFar(TagsJson(tags).items, k);
      var _ :- PushComma(k);
      r := WriteTag(tags[k]);
    }

    method WriteTags(tags: seq<Tag>) returns (r: Result<(), NostrError>)
      requires Valid()
      modifies this`len, this`absorbed, out
      ensures Valid() && Took(Limit(), old(Received()), Print(TagsJson(tags)), r, Received())
    {
      hide PrintItems, Strs, Received;
      ghost var items := TagsJson(tags).items;
      EmptyLayouts();
      assert items[..0] == [] && items[..|items|] == items;
      var _ :- Write([0x5B]);
      ghost var start := Received();
      assert start + [] == start;
      for i := 0 to |tags|
        invariant AtItems(start, items, i)
      {
        var _ :- WriteTagItem(tags, start, i);
      }
      r := Write([0x5D]);
    }

    method WriteKeyField(e: UnsignedEvent) returns (r: Result<(), NostrError>)
      requires Valid()
      modifies this`len, this`absorbed, out
      ensures Valid() && Took(Limit(), old(Received()), KeyField(e), r, Received())
    {
      hide PrintString, Received;
      var pubkey := HexOf(e.pubkey);
      var _ :- Write([0x5B]);
      var _ :- Write([0x30]);
      var _ :- Write([0x2C]);
      r := WriteJsonString(pubkey);
    }

    method WriteNumberFields(e: UnsignedEvent) returns (r: Result<(), NostrError>)
      requires Valid()
      modifies this`len, this`absorbed, out
      ensures Valid() && Took(Limit(), old(Received()), NumberFields(e), r, Received())
    {
      hide Digits, Received;
      var _ :- Write([0x2C]);
      var _ :- WriteU64(e.createdAt);
      var _ :- Write([0x2C]);
      r := WriteU64(e.kind);
    }

    method WriteLeadingFields(e: UnsignedEvent) returns (r: Result<(), NostrError>)
      requires Valid()
      modifies this`len, this`absorbed, out
      ensures Valid() && Took(Limit(), old(Received()), KeyField(e) + NumberFields(e), r, Received())
    {
      hide KeyField, NumberFields, Received;
      var _ :- WriteKeyField(e);
      r := WriteNumberFields(e);
    }

    method WriteCanonicalTo(e: UnsignedEvent) returns (r: Result<(), NostrError>)
      requires Valid()
      modifies this`len, this`absorbed, out
      ensures Valid() && Took(Limit(), old(Received()), CanonicalText(e), r, Received())
    {
      hide PrintString, Print, TagsJson, CanonicalText, Received, KeyField, NumberFields;
      CanonicalParts(e);
      var _ :- WriteLeadingFields(e);
      var _ :- Write([0x2C]);
      var _ :- WriteTags(e.tags);
      var _ :- Write([0x2C]);
      var _ :- WriteJsonString(e.content);
      r := Write([0x5D]);
    }
  }

  function KeyField(e: UnsignedEvent): Bytes {
    [0x5B] + [0x30] + [0x2C] + PrintString(Hex.HexText(e.pubkey))
  }

  function NumberFields(e: UnsignedEvent): Bytes {
    [0x2C] + Digits(e.createdAt) + [0x2C] + Digits(e.kind)
  }

  lemma CanonicalParts(e: UnsignedEvent)
    ensures CanonicalText(e)
         == KeyField(e) + NumberFields(e) + [0x2C] + Print(TagsJson(e.tags)) + [0x2C] + PrintString(e.content) + [0x5D]
  {
    hide PrintString, Digits, TagsJson;
    var items := CanonicalItems(e);
    assert Digits(0) == [0x30] by { ZeroDigit(); }
    ItemList(items);
    hide Print;
  }

  /** The text that is hashed: `[0,<key>,<time>,<kind>,<tags>,<content>]` without a blank. */
  lemma CanonicalLayout(e: UnsignedEvent)
    ensures var comma := Utf8.Encode(",");
      CanonicalText(e)
      == Utf8.Encode("[0,") + PrintString(Hex.HexText(e.pubkey)) + comma + Digits(e.createdAt) + comma + Digits(e.kind)
         + comma + Print(TagsJson(e.tags)) + comma + PrintString(e.content) + Utf8.Encode("]")
  {
    hide PrintString, Digits, TagsJson, CanonicalText, Hex.HexText, KeyField, NumberFields, Utf8.Encode;
    CanonicalParts(e);
    hide Print;
    Punctuation();
    assert KeyField(e) + NumberFields(e)
        == [0x5B, 0x30, 0x2C] + PrintString(Hex.HexText(e.pubkey)) + [0x2C] + Digits(e.createdAt) + [0x2C] + Digits(e.kind) by {
      LeadingLayout(e);
    }
  }

  lemma Punctuation()
    ensures Utf8.Encode("[0,") == [0x5B, 0x30, 0x2C] && Utf8.Encode(",") == [0x2C] && Utf8.Encode("]") == [0x5D]
  {
    Utf8.EncodeAscii("[0,");
    Utf8.EncodeAscii(",");
    Utf8.EncodeAscii("]");
  }

  lemma LeadingLayout(e: UnsignedEvent)
    ensures KeyField(e) + NumberFields(e)
         == [0x5B, 0x30, 0x2C] + PrintString(Hex.HexText(e.pubkey)) + [0x2C] + Digits(e.createdAt) + [0x2C] + Digits(e.kind)
  {
    hide PrintString, Digits, Hex.HexText;
    assert [0x5B] + [0x30] + [0x2C] == [0x5B, 0x30, 0x2C];
    assert KeyField(e) + ([0x2C] + Digits(e.createdAt) + [0x2C] + Digits(e.kind))
        == KeyField(e) + [0x2C] + Digits(e.createdAt) + [0x2C] + Digits(e.kind);
  }

  lemma ZeroDigit()
    ensures Digits(0) == [0x30]
  {
  }

  lemma FirstThreeItems(items: seq<JsonValue>)
    requires 3 <= |items|
    ensures PrintItems(items[..3]) == Print(items[0]) + [0x2C] + Print(items[1]) + [0x2C] + Print(items[2])
  {
    hide Print, PrintItems;
    EmptyLayouts();
    assert items[..0] == [];
    ItemsStep(items, 0);
    assert [] + [] + Print(items[0]) == Print(items[0]);
    ItemsStep(items, 1);
    ItemsStep(items, 2);
  }

  lemma ThreeMoreItems(items: seq<JsonValue>, k: nat)
    requires 0 < k && k + 3 <= |items|
    ensures PrintItems(items[..k + 3]) == PrintItems(items[..k])
      + [0x2C] + Print(items[k]) + [0x2C] + Print(items[k + 1]) + [0x2C] + Print(items[k + 2])
  {
    hide Print, PrintItems;
    ItemsStep(items, k);
    ItemsStep(items, k + 1);
    ItemsStep(items, k + 2);
  }

  lemma ItemList(items: seq<JsonValue>)
    requires |items| == 6
    ensures PrintItems(items) == Print(items[0]) + [0x2C] + Print(items[1]) + [0x2C] + Print(items[2])
      + [0x2C] + Print(items[3]) + [0x2C] + Print(items[4]) + [0x2C] + Print(items[5])
  {
    hide Print, PrintItems, Comma;
    FirstThreeItems(items);
    ThreeMoreItems(items, 3);
    assert items[..6] == items;
  }

  /** The canonical text in the caller's buffer, as text; or no room for it. */
  method WriteCanonicalEvent(e: UnsignedEvent, out: array<Byte>) returns (r: Result<string, NostrError>)
    modifies out
    ensures |CanonicalText(e)| <= out.Length ==>
      r.Ok? && Utf8.Encode(r.value) == CanonicalText(e) && out[..|CanonicalText(e)|] == CanonicalText(e)
    ensures |CanonicalText(e)| > out.Length ==> r.Err? && TooSmall(out.Length, r.error)
  {
    hide CanonicalText, Utf8.Decode, Utf8.Encode;
    var sink := new Sink.Buffer(out);
    var _ :- sink.WriteCanonicalTo(e);
    assert [] + CanonicalText(e) == CanonicalText(e);
    assert Utf8.Valid(CanonicalText(e)) by { CanonicalIsText(e); }
    Utf8.EncodeDecode(CanonicalText(e));
    match Utf8.Decode(out[..sink.len])
    case None => return Err(Utf8Error);
    case Some(text) => return Ok(text);
  }

  lemma CanonicalIsText(e: UnsignedEvent)
    ensures Utf8.Valid(CanonicalText(e))
  {
    hide Print, Utf8.Valid;
    JsonRoundTrip.ParsePrint(Array(CanonicalItems(e)));
  }

  /** The id is the digest of exactly the text a buffer would receive. */
  method ComputeEventId(sha256: Bytes -> Bytes32, e: UnsignedEvent) returns (r: Result<Bytes32, NostrError>)
    ensures r == Ok(EventId(sha256, e))
  {
    hide CanonicalText;
    var sink := new Sink.Hash();
    var _ := sink.WriteCanonicalTo(e);
    assert [] + CanonicalText(e) == CanonicalText(e);
    return Ok(sha256(sink.absorbed));
  }
}
