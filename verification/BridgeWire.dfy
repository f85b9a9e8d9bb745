/** The byte layout of bridge messages, with every tag and width written out, and what the
    public BitChat packets that enter and leave look like. */
module BridgeWire {
  import opened Base
  import opened BridgeTypes
  import BitchatBridge
  import BitchatCodec
  import BitchatWire
  import BridgeCodec
  import Utf8

  /** The tags, length and id of each kind of author a message can have. */
  ghost predicate AuthorLaid(s: Bytes, author: Endpoint) {
    match author.kind
    case HyfNode => |author.id| == 32 && s == [0, 0, 32] + author.id
    case Foreign(Nostr) => |author.id| == 32 && s == [1, 2, 32] + author.id
    case Foreign(Lxmf) => |author.id| == 16 && s == [1, 3, 16] + author.id
    case Foreign(BitChat) => |author.id| == 8 && s == [1, 4, 8] + author.id
    case Foreign(_) => false
  }

  ghost predicate BodyLaid(s: Bytes, m: BridgeMessage) {
    && |m.payload| <= 1024 && (m.payloadKind.TextUtf8? ==> Utf8.Valid(m.payload))
    && s == BigEndian(m.createdAt, 8) + [if m.payloadKind.TextUtf8? then 1 else 255] + BigEndian(|m.payload|, 2) + m.payload
  }

  /** Version 0, a room and an id that are not all zeros, the author, and the body. */
  ghost predicate Laid(s: Bytes, m: BridgeMessage) {
    && m.version == 0 && m.roomId != seq(16, _ => 0) && m.messageId != seq(32, _ => 0)
    && |s| >= 52 && s[0] == 0 && s[1..17] == m.roomId && s[17..49] == m.messageId
    && var at := 52 + |m.author.id|;
       at <= |s| && AuthorLaid(s[49..at], m.author) && BodyLaid(s[at..], m)
  }

  lemma ZeroIff(s: Bytes, n: nat)
    requires |s| == n
    ensures BridgeCodec.AllZero(s) <==> s == seq(n, _ => 0)
  {
  }

  lemma AuthorIff(m: BridgeMessage)
    ensures BridgeCodec.ValidateAuthorIdLen(m.author.kind, |m.author.id|).Ok? <==> AuthorLaid(BridgeCodec.AuthorPart(m), m.author)
    ensures |BridgeCodec.AuthorPart(m)| == 3 + |m.author.id|
    ensures forall s :: AuthorLaid(s, m.author) ==> s == BridgeCodec.AuthorPart(m)
  {
  }

  lemma BodyIff(m: BridgeMessage)
    ensures |m.payload| <= PAYLOAD_MAX_LEN && BridgeCodec.ValidatePayload(m.payloadKind, m.payload).Ok?
            <==> BodyLaid(BridgeCodec.BodyPart(m), m)
    ensures forall s :: BodyLaid(s, m) ==> s == BridgeCodec.BodyPart(m)
  {
    hide BigEndian, Utf8.Valid;
  }

  /** The decoder accepts exactly the messages laid out like this. */
  lemma DecodeIff(s: Bytes, m: BridgeMessage)
    ensures BridgeCodec.DecodeBridge(s) == Ok(m) <==> Laid(s, m)
  {
    hide BridgeCodec.DecodeBridge, AuthorLaid, BodyLaid, BridgeCodec.AuthorPart, BridgeCodec.BodyPart, BridgeCodec.AllZero,
      BridgeCodec.ValidateAuthorIdLen, BridgeCodec.ValidatePayload;
    BridgeCodec.BridgeWireBijection(s, m);
    ZeroIff(m.roomId, 16);
    ZeroIff(m.messageId, 32);
    AuthorIff(m);
    BodyIff(m);
    if BridgeCodec.ValidateMessage(m).Ok? && s == BridgeCodec.EncodeBridge(m) {
      Pieces(s, m.roomId, m.messageId, BridgeCodec.AuthorPart(m), BridgeCodec.BodyPart(m));
    }
    if Laid(s, m) {
      var at := 52 + |m.author.id|;
      assert s == [s[0]] + s[1..17] + s[17..49] + s[49..at] + s[at..];
    }
  }

  lemma Pieces(s: Bytes, roomId: Bytes16, messageId: Bytes32, author: Bytes, body: Bytes)
    requires s == [0] + roomId + messageId + author + body
    ensures var at := 49 + |author|;
      && at <= |s| && s[0] == 0 && s[1..17] == roomId && s[17..49] == messageId && s[49..at] == author && s[at..] == body
  {
  }

  // ---- BitChat in and out ----

  /** A public text packet: version 2, type 2, no flags, sender, text, and nothing more. */
  ghost predicate PublicText(raw: Bytes, sender: Bytes8, ttl: Byte, timestamp: U64, text: Bytes) {
    BitchatWire.Laid(raw, BitchatCodec.Packet(BitchatCodec.V2, 0x02, ttl, timestamp,
      BitchatCodec.Flags(false, false, false, false, false), sender, None, None, BitchatCodec.Plain(text), None))
  }

  /** What enters is exactly the public text packets with a non-empty text and a time; the
      sender becomes the author, and room and id are the caller's. */
  lemma IngressIff(raw: Bytes, roomId: Bytes16, messageId: Bytes32, m: BridgeMessage)
    ensures BitchatBridge.Ingress(raw, roomId, messageId) == Ok(m) <==>
      && m.author.kind == Foreign(BitChat) && |m.author.id| == 8
      && m == BridgeMessage(0, roomId, messageId, m.author, m.createdAt, TextUtf8, m.payload)
      && m.createdAt != 0 && m.payload != [] && Utf8.Valid(m.payload)
      && exists ttl :: PublicText(raw, m.author.id, ttl, m.createdAt, m.payload)
  {
    hide BitchatCodec.DecodePacket, BitchatWire.Laid, Utf8.Valid;
    var decoded := BitchatCodec.DecodePacket(raw);
    if BitchatBridge.Ingress(raw, roomId, messageId) == Ok(m) {
      BitchatWire.DecodeIff(raw, decoded.value);
      FlagsAreTold(raw, decoded.value);
      assert PublicText(raw, m.author.id, decoded.value.ttl, m.createdAt, m.payload);
    }
    if |m.author.id| == 8 && exists ttl :: PublicText(raw, m.author.id, ttl, m.createdAt, m.payload) {
      var ttl :| PublicText(raw, m.author.id, ttl, m.createdAt, m.payload);
      BitchatWire.DecodeIff(raw, BitchatCodec.Packet(BitchatCodec.V2, 0x02, ttl, m.createdAt,
        BitchatCodec.Flags(false, false, false, false, false), m.author.id, None, None, BitchatCodec.Plain(m.payload), None));
    }
  }

  lemma FlagsAreTold(raw: Bytes, p: BitchatCodec.Packet)
    requires BitchatWire.Laid(raw, p)
    ensures BitchatWire.FlagsTell(p)
  {
  }

  /** What leaves is the public text packet with the caller's sender and hop budget. */
  lemma EgressMeans(m: BridgeMessage, params: BitchatBridge.EgressParams, available: nat)
    ensures BitchatBridge.Egress(m, params, available).Ok? ==>
      PublicText(BitchatBridge.Egress(m, params, available).value, params.senderId, params.ttl, m.createdAt, m.payload)
  {
    hide BitchatCodec.DecodePacket, BitchatCodec.EncodePacket, BitchatBridge.ValidateEgress;
    if BitchatBridge.Egress(m, params, available).Ok? {
      var p := BitchatBridge.PacketFor(m, params);
      BitchatCodec.EncodedDecodes(p);
      assert BitchatCodec.Canonical(p) == p;
      BitchatWire.DecodeIff(BitchatBridge.Egress(m, params, available).value, p);
    }
  }
}
