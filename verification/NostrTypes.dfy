/** The records and errors shared by the Nostr components. */
module NostrTypes {
  import opened Base
  import Utf8

  datatype NostrError =
    | ContentTooLarge(actual: nat, maximum: nat)
    | Crypto
    | EnvelopeTooLarge(actual: nat, maximum: nat)
    | EventIdMismatch
    | HexLength(expected: nat, actual: nat)
    | InvalidSignature
    | InvalidHexChar(index: nat, byte: Byte)
    | InvalidSubscriptionId
    | MalformedMessage
    | MalformedEnvelope
    | MissingRequiredTag(tag: string)
    | NonCanonicalHex(index: nat, byte: Byte)
    | OddHexLength(len: nat)
    | OutputTooSmall(needed: nat, available: nat)
    | PublicKeyMismatch
    | RelayEventStoreFull(capacity: nat)
    | RelayOutputFull(capacity: nat)
    | RelaySubscriptionFull(capacity: nat)
    | StoredStringTooLarge(actual: nat, maximum: nat)
    | SubscriptionIdTooLong(len: nat, maximum: nat)
    | TagCountTooLarge(actual: nat, maximum: nat)
    | TagEmpty
    | TagValueCountTooLarge(actual: nat, maximum: nat)
    | TagValueTooLarge(actual: nat, maximum: nat)
    | UnexpectedKind(expected: nat, actual: nat)
    | UnsupportedMessage
    | Unsupported
    | Utf8Error

  /** A tag is a non-empty list of values; its constructor refuses the empty one. */
  type Tag = values: seq<string> | values != [] witness [""]

  datatype UnsignedEvent = UnsignedEvent(
    pubkey: Bytes32, createdAt: U64, kind: U16, tags: seq<Tag>, content: string)

  datatype Event = Event(
    id: Bytes32, pubkey: Bytes32, createdAt: U64, kind: U16, tags: seq<Tag>, content: string, sig: Bytes64)
  {
    function Unsigned(): UnsignedEvent {
      UnsignedEvent(pubkey, createdAt, kind, tags, content)
    }
  }

  datatype Filter = Filter(
    kinds: seq<U16>, authors: seq<Bytes32>, pTags: seq<Bytes32>,
    since: Option<U64>, until: Option<U64>, limit: Option<U64>)

  const SUBSCRIPTION_ID_MAX_LEN: nat := 64
  const MAX_ENVELOPE_BYTES: nat := 2048
  const MAX_CONTENT_CHARS: nat := 4096
  const MAX_TAGS: nat := 8
  const MAX_TAG_VALUES: nat := 4
  const MAX_TAG_VALUE_CHARS: nat := 128
  const MAX_RELAY_STATUS_CHARS: nat := 256
  const ENVELOPE_KIND: U16 := 9775

  /** Lengths of text are lengths of its UTF-8 form. */
  function ByteLen(text: string): nat {
    |Utf8.Encode(text)|
  }

  function ValidateSubscriptionId(id: string): Result<(), NostrError> {
    if ByteLen(id) == 0 then Err(InvalidSubscriptionId)
    else if ByteLen(id) > SUBSCRIPTION_ID_MAX_LEN then
      Err(SubscriptionIdTooLong(ByteLen(id), SUBSCRIPTION_ID_MAX_LEN))
    else Ok(())
  }

  function ValidateContentLen(content: string): Result<(), NostrError> {
    if ByteLen(content) > MAX_CONTENT_CHARS then
      Err(ContentTooLarge(ByteLen(content), MAX_CONTENT_CHARS))
    else Ok(())
  }
}
