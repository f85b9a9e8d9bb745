/** The text that is hashed into an event id, and why it identifies the event. */
module Canonical {
  import opened Base
  import opened NostrTypes
  import opened Json
  import opened Messages
  import Hex
  import JsonRoundTrip
  import MessageRoundTrip

  function CanonicalItems(e: UnsignedEvent): seq<JsonValue> {
    [Number(0), Str(Hex.HexText(e.pubkey)), Number(e.createdAt), Number(e.kind), TagsJson(e.tags), Str(e.content)]
  }

  /** `[0,pubkey,created_at,kind,tags,content]` without white space. */
  function CanonicalText(e: UnsignedEvent): Bytes {
    Print(Array(CanonicalItems(e)))
  }

  /** The event id for a given digest function. */
  function EventId(sha256: Bytes -> Bytes32, e: UnsignedEvent): Bytes32 {
    sha256(CanonicalText(e))
  }

  /** The event a canonical text stands for, recovered by the message parser. */
  function ReadCanonical(s: Bytes): Result<UnsignedEvent, NostrError> {
    var v :- Parse(s);
    if !v.Array? || |v.items| != 6 then Err(MalformedMessage)
    else
      var keyText :- ExpectString(v.items[1]);
      var pubkey :- Hex.DecodeFixed(32, keyText);
      var createdAt :- ExpectNumber(v.items[2]);
      var kindNumber :- ExpectNumber(v.items[3]);
      var kind :- NumberToU16(kindNumber);
      var tags :- ParseTags(v.items[4]);
      var content :- ExpectString(v.items[5]);
      Ok(UnsignedEvent(pubkey, createdAt, kind, tags, content))
  }

  /** Parsing is a left inverse of canonical serialization ... */
  lemma ReadCanonicalText(e: UnsignedEvent)
    ensures ReadCanonical(CanonicalText(e)) == Ok(e)
  {
    hide Parse, Print, TagsJson, ParseTags, Hex.DecodeFixed;
    JsonRoundTrip.ParsePrint(Array(CanonicalItems(e)));
    Hex.DecodeFixedIff(32, Hex.HexText(e.pubkey), e.pubkey);
    MessageRoundTrip.TagsReadBack(e.tags);
  }

  /** ... so two events with one canonical text are one event. */
  lemma CanonicalInjective(e: UnsignedEvent, f: UnsignedEvent)
    requires CanonicalText(e) == CanonicalText(f)
    ensures e == f
  {
    ReadCanonicalText(e);
    ReadCanonicalText(f);
  }

  /** Two different events share an id only through a collision of the digest itself. */
  lemma SharedIdIsCollision(sha256: Bytes -> Bytes32, e: UnsignedEvent, f: UnsignedEvent)
    requires e != f && EventId(sha256, e) == EventId(sha256, f)
    ensures exists s, t :: s != t && sha256(s) == sha256(t)
  {
    if CanonicalText(e) == CanonicalText(f) {
      CanonicalInjective(e, f);
    }
  }
}
