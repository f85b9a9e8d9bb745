/** The bridge message wire form: what the decoder accepts and the encoder writes, proved
    to be inverse bijections, and the cursors that do it. */
module BridgeCodec {
  import opened Base
  import opened BridgeTypes
  import Utf8

  const FIXED_PREFIX_LEN: nat := 1 + 16 + 32 + 1 + 1 + 1
  const FIXED_SUFFIX_LEN: nat := 8 + 1 + 2

  // ---- tags ----

  function NetworkTag(n: Network): Byte {
    match n
    case Fips => 0
    case Rns => 1
    case Nostr => 2
    case Lxmf => 3
    case BitChat => 4
  }

  function NetworkOfTag(tag: Byte): Option<Network> {
    match tag
    case 0 => Some(Fips)
    case 1 => Some(Rns)
    case 2 => Some(Nostr)
    case 3 => Some(Lxmf)
    case 4 => Some(BitChat)
    case _ => None
  }

  function KindTag(kind: EndpointKind): Byte {
    if kind.HyfNode? then 0 else 1
  }

  function KindNetworkTag(kind: EndpointKind): Byte {
    if kind.HyfNode? then 0 else NetworkTag(kind.network)
  }

  function DecodeAuthorKind(kindTag: Byte, networkTag: Byte): Result<EndpointKind, BridgeError> {
    if kindTag == 0 then
      if networkTag != 0 then Err(UnexpectedHyfAuthorNetworkTag(networkTag)) else Ok(HyfNode)
    else if kindTag == 1 then
      match NetworkOfTag(networkTag)
      case None => Err(InvalidForeignNetworkTag(networkTag))
      case Some(n) => if n == Fips || n == Rns then Err(UnsupportedAuthorNetwork(n)) else Ok(Foreign(n))
    else Err(UnknownAuthorKind(kindTag))
  }

  function PayloadKindTag(kind: PayloadKind): Byte {
    if kind.TextUtf8? then 1 else 255
  }

  function DecodePayloadKind(tag: Byte): Result<PayloadKind, BridgeError> {
    if tag == 1 then Ok(TextUtf8) else if tag == 255 then Ok(OpaqueBytes) else Err(UnknownPayloadKind(tag))
  }

  // ---- validation ----

  function ExpectedAuthorIdLen(kind: EndpointKind): Result<nat, BridgeError> {
    match kind
    case HyfNode => Ok(32)
    case Foreign(BitChat) => Ok(8)
    case Foreign(Lxmf) => Ok(16)
    case Foreign(Nostr) => Ok(32)
    case Foreign(n) => Err(UnsupportedAuthorNetwork(n))
  }

  function ValidateAuthorIdLen(kind: EndpointKind, len: nat): Result<(), BridgeError> {
    var expected :- ExpectedAuthorIdLen(kind);
    if len != expected then Err(InvalidAuthorIdLen(len)) else Ok(())
  }

  function ValidatePayload(kind: PayloadKind, payload: Bytes): Result<(), BridgeError> {
    if kind.TextUtf8? && !Utf8.Valid(payload) then Err(InvalidTextUtf8) else Ok(())
  }

  predicate AllZero(s: Bytes) {
    forall i | 0 <= i < |s| :: s[i] == 0
  }

  function ValidateMessage(m: BridgeMessage): Result<(), BridgeError> {
    if m.version != MESSAGE_VERSION_0 then Err(InvalidVersion(m.version))
    else if AllZero(m.roomId) then Err(ZeroRoomId)
    else if AllZero(m.messageId) then Err(ZeroMessageId)
    else
      var _ :- ValidateAuthorIdLen(m.author.kind, |m.author.id|);
      if |m.payload| > PAYLOAD_MAX_LEN then Err(PayloadTooLarge(|m.payload|, PAYLOAD_MAX_LEN))
      else ValidatePayload(m.payloadKind, m.payload)
  }

  function EncodedLen(m: BridgeMessage): Result<nat, BridgeError> {
    var _ :- ValidateMessage(m);
    var len := FIXED_PREFIX_LEN + |m.author.id| + FIXED_SUFFIX_LEN + |m.payload|;
    if len > MESSAGE_MAX_LEN then Err(MessageTooLarge(|m.payload|, MESSAGE_MAX_LEN)) else Ok(len)
  }

  // ---- the wire form ----

  function Head(m: BridgeMessage): Bytes {
    [m.version] + m.roomId + m.messageId
  }

  /** Lengths are cast to the width of their field. */
  function AuthorPart(m: BridgeMessage): Bytes {
    [KindTag(m.author.kind), KindNetworkTag(m.author.kind), |m.author.id| % 0x100] + m.author.id
  }

  function BodyPart(m: BridgeMessage): Bytes {
    BigEndian(m.createdAt, 8) + [PayloadKindTag(m.payloadKind)] + BigEndian(|m.payload| % 0x1_0000, 2) + m.payload
  }

  function EncodeBridge(m: BridgeMessage): Bytes {
    Head(m) + AuthorPart(m) + BodyPart(m)
  }

  datatype Read<T> = Read(value: T, next: nat)

  function ReadSlice(s: Bytes, at: nat, len: nat): (r: Result<Read<Bytes>, BridgeError>)
    ensures r.Ok? <==> at + len <= |s|
    ensures r.Ok? ==> r.value == Read(s[at..at + len], at + len)
  {
    if at + len > |s| then Err(InputTooShort(|s|, at + len)) else Ok(Read(s[at..at + len], at + len))
  }

  function ReadByte(s: Bytes, at: nat): (r: Result<Read<Byte>, BridgeError>)
    ensures r.Ok? ==> at < |s| && r.value == Read(s[at], at + 1)
  {
    var slice :- ReadSlice(s, at, 1);
    Ok(Read(slice.value[0], slice.next))
  }

  function DecodeHead(s: Bytes): Result<Read<BridgeMessage>, BridgeError> {
    var version :- ReadByte(s, 0);
    if version.value != MESSAGE_VERSION_0 then Err(InvalidVersion(version.value))
    else
      var room :- ReadSlice(s, 1, 16);
      if AllZero(room.value) then Err(ZeroRoomId)
      else
        var message :- ReadSlice(s, 17, 32);
        if AllZero(message.value) then Err(ZeroMessageId)
        else Ok(Read(BridgeMessage(version.value, room.value, message.value, Endpoint(HyfNode, []), 0, OpaqueBytes, []), 49))
  }

  function DecodeAuthor(s: Bytes, at: nat): Result<Read<Endpoint>, BridgeError> {
    var kindTag :- ReadByte(s, at);
    var networkTag :- ReadByte(s, kindTag.next);
    var idLen :- ReadByte(s, networkTag.next);
    var kind :- DecodeAuthorKind(kindTag.value, networkTag.value);
    var _ :- ValidateAuthorIdLen(kind, idLen.value);
    var id :- ReadSlice(s, idLen.next, idLen.value);
    Ok(Read(Endpoint(kind, id.value), id.next))
  }

  datatype Body = Body(createdAt: U64, payloadKind: PayloadKind, payload: Bytes)

  function DecodeBody(s: Bytes, at: nat): Result<Body, BridgeError> {
    var created :- ReadSlice(s, at, 8);
    var kindTag :- ReadByte(s, created.next);
    var kind :- DecodePayloadKind(kindTag.value);
    var len :- ReadSlice(s, kindTag.next, 2);
    var payloadLen := FromBigEndian(len.value);
    if payloadLen > PAYLOAD_MAX_LEN then Err(PayloadTooLarge(payloadLen, PAYLOAD_MAX_LEN))
    else
      var payload :- ReadSlice(s, len.next, payloadLen);
      var _ :- ValidatePayload(kind, payload.value);
      if payload.next != |s| then Err(TrailingBytes(|s|, payload.next))
      else Ok(Body(U64Of(created.value), kind, payload.value))
  }

  function DecodeBridge(s: Bytes): Result<BridgeMessage, BridgeError> {
    if |s| > MESSAGE_MAX_LEN then Err(MessageTooLarge(|s|, MESSAGE_MAX_LEN))
    else
      var head :- DecodeHead(s);
      var author :- DecodeAuthor(s, head.next);
      var body :- DecodeBody(s, author.next);
      Ok(head.value.(author := author.value, createdAt := body.createdAt, payloadKind := body.payloadKind,
                     payload := body.payload))
  }

  // ---- lengths ----

  /** The computed length is the length written; every valid message is far below the
      maximum, and no length is truncated by its cast. */
  lemma LengthIsExact(m: BridgeMessage)
    requires ValidateMessage(m).Ok?
    ensures EncodedLen(m) == Ok(|EncodeBridge(m)|) && |EncodeBridge(m)| <= 1119
    ensures |m.author.id| % 0x100 == |m.author.id| && |m.payload| % 0x1_0000 == |m.payload|
  {
  }

  /** The encoder's size limit can never be what fails. */
  lemma NeverTooLarge(m: BridgeMessage)
    ensures EncodedLen(m).Err? ==> EncodedLen(m) == Err(ValidateMessage(m).error) && !EncodedLen(m).error.MessageTooLarge?
  {
  }

  // ---- decode after encode ----

  lemma SliceOf(before: Bytes, piece: Bytes, after: Bytes)
    ensures (before + piece + after)[|before|..|before| + |piece|] == piece
  {
  }

  lemma HeadReadsBack(m: BridgeMessage, rest: Bytes)
    requires ValidateMessage(m).Ok?
    ensures DecodeHead(Head(m) + rest)
         == Ok(Read(BridgeMessage(m.version, m.roomId, m.messageId, Endpoint(HyfNode, []), 0, OpaqueBytes, []), 49))
  {
    var s := Head(m) + rest;
    assert s[0] == m.version;
    assert s[1..17] == m.roomId;
    assert s[17..49] == m.messageId;
  }

  lemma TagsReadBack(kind: EndpointKind)
    requires ExpectedAuthorIdLen(kind).Ok?
    ensures DecodeAuthorKind(KindTag(kind), KindNetworkTag(kind)) == Ok(kind)
  {
  }

  lemma AuthorReadsBack(m: BridgeMessage, before: Bytes, rest: Bytes)
    requires ValidateMessage(m).Ok?
    ensures DecodeAuthor(before + AuthorPart(m) + rest, |before|) == Ok(Read(m.author, |before| + |AuthorPart(m)|))
  {
    hide DecodeAuthorKind, KindTag, KindNetworkTag;
    var s, p := before + AuthorPart(m) + rest, |before|;
    LengthIsExact(m);
    TagsReadBack(m.author.kind);
    SliceOf(before, AuthorPart(m), rest);
    assert forall i | 0 <= i < |AuthorPart(m)| :: s[p + i] == AuthorPart(m)[i];
    assert s[p + 3..p + 3 + |m.author.id|] == m.author.id;
  }

  lemma BodyReadsBack(m: BridgeMessage, before: Bytes)
    requires ValidateMessage(m).Ok?
    ensures DecodeBody(before + BodyPart(m), |before|) == Ok(Body(m.createdAt, m.payloadKind, m.payload))
  {
    hide FromBigEndian, BigEndian, Utf8.Valid;
    var s, p := before + BodyPart(m), |before|;
    var created, len := BigEndian(m.createdAt, 8), BigEndian(|m.payload| % 0x1_0000, 2);
    WidthsOfMachineIntegers();
    FromBigEndianOf(m.createdAt, 8);
    FromBigEndianOf(|m.payload|, 2);
    LengthIsExact(m);
    assert s[p..p + 8] == created;
    assert s[p + 8] == PayloadKindTag(m.payloadKind);
    assert s[p + 9..p + 11] == len;
    assert s[p + 11..p + 11 + |m.payload|] == m.payload;
  }

  // ---- encode after decode ----

  lemma HeadRewrites(s: Bytes)
    requires DecodeHead(s).Ok?
    ensures var read := DecodeHead(s).value;
      && read.next == 49 <= |s| && Head(read.value) == s[..49]
      && read.value.version == MESSAGE_VERSION_0 && !AllZero(read.value.roomId) && !AllZero(read.value.messageId)
  {
    assert s[..49] == [s[0]] + s[1..17] + s[17..49];
  }

  lemma AuthorRewrites(s: Bytes, at: nat)
    requires DecodeAuthor(s, at).Ok?
    ensures var read := DecodeAuthor(s, at).value;
      && at <= read.next <= |s| && ValidateAuthorIdLen(read.value.kind, |read.value.id|) == Ok(())
      && s[at..read.next] == [KindTag(read.value.kind), KindNetworkTag(read.value.kind), |read.value.id| % 0x100] + read.value.id
  {
    var read := DecodeAuthor(s, at).value;
    assert s[at..read.next] == [s[at], s[at + 1], s[at + 2]] + s[at + 3..read.next];
  }

  lemma BodyRewrites(s: Bytes, at: nat)
    requires DecodeBody(s, at).Ok?
    ensures var b := DecodeBody(s, at).value;
      && at <= |s| && |b.payload| <= PAYLOAD_MAX_LEN && ValidatePayload(b.payloadKind, b.payload) == Ok(())
      && s[at..] == BigEndian(b.createdAt, 8) + [PayloadKindTag(b.payloadKind)] + BigEndian(|b.payload| % 0x1_0000, 2) + b.payload
  {
    hide FromBigEndian, BigEndian, Utf8.Valid;
    BigEndianOfFrom(s[at..at + 8]);
    BigEndianOfFrom(s[at + 9..at + 11]);
    assert s[at..] == s[at..at + 8] + [s[at + 8]] + s[at + 9..at + 11] + s[at + 11..];
  }

  /** Decoding and encoding are inverse to one another: the decoder accepts exactly the
      encodings of valid messages, and reads the message back. */
  lemma BridgeWireBijection(s: Bytes, m: BridgeMessage)
    ensures DecodeBridge(s) == Ok(m) <==> ValidateMessage(m).Ok? && s == EncodeBridge(m)
  {
    hide DecodeHead, DecodeAuthor, DecodeBody, Head, AuthorPart, BodyPart;
    if ValidateMessage(m).Ok? && s == EncodeBridge(m) {
      LengthIsExact(m);
      var head, author, body := Head(m), AuthorPart(m), BodyPart(m);
      assert s == head + (author + body);
      HeadReadsBack(m, author + body);
      HeadLength(m);
      AuthorReadsBack(m, head, body);
      BodyReadsBack(m, head + author);
    }
    if DecodeBridge(s) == Ok(m) {
      DecodedIsEncoding(s, m);
    }
  }

  lemma DecodedIsEncoding(s: Bytes, m: BridgeMessage)
    requires DecodeBridge(s) == Ok(m)
    ensures ValidateMessage(m).Ok? && s == EncodeBridge(m)
  {
    hide DecodeHead, DecodeAuthor, DecodeBody;
    HeadRewrites(s);
    AuthorRewrites(s, 49);
    var at := DecodeAuthor(s, 49).value.next;
    BodyRewrites(s, at);
    SamePartsOfHead(DecodeHead(s).value.value, m);
    Reassembled(s, at, m);
  }

  lemma SamePartsOfHead(a: BridgeMessage, b: BridgeMessage)
    requires a.version == b.version && a.roomId == b.roomId && a.messageId == b.messageId
    ensures Head(a) == Head(b)
  {
  }

  lemma HeadLength(m: BridgeMessage)
    ensures |Head(m)| == 49
  {
  }

  lemma Reassembled(s: Bytes, at: nat, m: BridgeMessage)
    requires 49 <= at <= |s|
    requires Head(m) == s[..49] && AuthorPart(m) == s[49..at] && BodyPart(m) == s[at..]
    requires m.version == MESSAGE_VERSION_0 && !AllZero(m.roomId) && !AllZero(m.messageId)
    requires ValidateAuthorIdLen(m.author.kind, |m.author.id|) == Ok(())
    requires |m.payload| <= PAYLOAD_MAX_LEN && ValidatePayload(m.payloadKind, m.payload) == Ok(())
    ensures ValidateMessage(m).Ok? && s == EncodeBridge(m)
  {
    hide AuthorPart, BodyPart, Head, ValidateAuthorIdLen, ValidatePayload, AllZero;
    assert s == s[..49] + s[49..at] + s[at..];
  }
}
