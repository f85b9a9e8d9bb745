/** Bridge messages carried as public BitChat packets: the checks in both directions and
    the packet a message becomes. */
module BitchatBridge {
  import opened Base
  import opened BridgeTypes
  import BridgeCodec
  import opened BitchatCodec
  import opened BitchatCursors
  import Utf8

  const PACKET_TYPE_PUBLIC_MESSAGE: Byte := 0x02
  const PACKET_MAX_LEN: nat := 2048

  datatype BitchatBridgeError =
    | BitchatFailure(bitchat: BitchatError)
    | BridgeFailure(bridge: BridgeError)
    | UnsupportedVersion(version: Version)
    | UnsupportedPacketType(packetType: Byte)
    | SignedPacket
    | CompressedPacket
    | DirectedPacket
    | RoutedPacket
    | RsrPacket
    | EmptyPayload
    | InvalidPayloadUtf8
    | TimestampZero
    | UnsupportedBridgePayloadKind(kind: PayloadKind)

  datatype EgressParams = EgressParams(senderId: Bytes8, ttl: Byte)

  // ---- ingress ----

  function ValidateIngress(p: Packet): Result<(), BitchatBridgeError> {
    if p.version != V2 then Err(UnsupportedVersion(p.version))
    else if p.packetType != PACKET_TYPE_PUBLIC_MESSAGE then Err(UnsupportedPacketType(p.packetType))
    else if p.flags.hasSignature || p.signature.Some? then Err(SignedPacket)
    else if p.flags.isCompressed || p.payload.Compressed? then Err(CompressedPacket)
    else if p.flags.hasRecipient || p.recipientId.Some? then Err(DirectedPacket)
    else if p.flags.hasRoute || p.route.Some? then Err(RoutedPacket)
    else if p.flags.isRsr then Err(RsrPacket)
    else if p.timestamp == 0 then Err(TimestampZero)
    else Ok(())
  }

  function Lift<T>(r: Result<T, BitchatError>): Result<T, BitchatBridgeError> {
    if r.Ok? then Ok(r.value) else Err(BitchatFailure(r.error))
  }

  /** The message a raw packet stands for in a given room, under a given id. */
  function Ingress(raw: Bytes, roomId: Bytes16, messageId: Bytes32): Result<BridgeMessage, BitchatBridgeError> {
    var p :- Lift(DecodePacket(raw));
    var _ :- ValidateIngress(p);
    if !p.payload.Plain? then Err(CompressedPacket)
    else if p.payload.bytes == [] then Err(EmptyPayload)
    else if !Utf8.Valid(p.payload.bytes) then Err(InvalidPayloadUtf8)
    else
      Ok(BridgeMessage(MESSAGE_VERSION_0, roomId, messageId, Endpoint(Foreign(BitChat), p.senderId),
                       p.timestamp, TextUtf8, p.payload.bytes))
  }

  // ---- egress ----

  function ValidateEgress(m: BridgeMessage): Result<(), BitchatBridgeError> {
    if m.payloadKind != TextUtf8 then Err(UnsupportedBridgePayloadKind(m.payloadKind))
    else if m.payload == [] then Err(EmptyPayload)
    else if !Utf8.Valid(m.payload) then Err(InvalidPayloadUtf8)
    else if m.createdAt == 0 then Err(TimestampZero)
    else
      var len := BridgeCodec.EncodedLen(m);
      if len.Err? then Err(BridgeFailure(len.error)) else Ok(())
  }

  function PacketFor(m: BridgeMessage, params: EgressParams): Packet {
    Packet(V2, PACKET_TYPE_PUBLIC_MESSAGE, params.ttl, m.createdAt, Flags(false, false, false, false, false),
           params.senderId, None, None, Plain(m.payload), None)
  }

  /** The packet bytes for a message, given the room in the caller's buffer. */
  function Egress(m: BridgeMessage, params: EgressParams, available: nat): Result<Bytes, BitchatBridgeError> {
    var _ :- ValidateEgress(m);
    var p := PacketFor(m, params);
    var needed :- Lift(BitchatCodec.EncodedLen(p));
    if available < needed then Err(BitchatFailure(BitchatError.OutputTooSmall(needed, available)))
    else Ok(EncodePacket(p))
  }

  method WriteEgress(m: BridgeMessage, params: EgressParams, output: array<Byte>) returns (r: Result<nat, BitchatBridgeError>)
    modifies output
    ensures match Egress(m, params, output.Length) {
      case Err(e) => r == Err(e) && output[..] == old(output[..])
      case Ok(packet) => r == Ok(|packet|) && |packet| <= output.Length && output[..|packet|] == packet
        && output[|packet|..] == old(output[|packet|..])
    }
  {
    hide ValidateEgress, EncodePacket, BitchatCodec.EncodedLen;
    LengthIsExact(PacketFor(m, params));
    var _ :- ValidateEgress(m);
    var written := EncodeBitchatPacketV2(PacketFor(m, params), output);
    r := Lift(written);
  }

  /** A message can leave as a packet exactly when it is a valid, non-empty, dated text
      message; the runtime's buffer is always large enough. */
  lemma EgressIff(m: BridgeMessage, params: EgressParams)
    ensures Egress(m, params, PACKET_MAX_LEN).Ok? <==>
      m.payloadKind == TextUtf8 && m.payload != [] && m.createdAt != 0 && BridgeCodec.ValidateMessage(m).Ok?
    ensures Egress(m, params, PACKET_MAX_LEN).Ok? ==> |Egress(m, params, PACKET_MAX_LEN).value| == 24 + |m.payload|
  {
    hide BridgeCodec.ValidateAuthorIdLen, BridgeCodec.AllZero;
    BridgeCodec.NeverTooLarge(m);
    if BridgeCodec.ValidateMessage(m).Ok? {
      BridgeCodec.LengthIsExact(m);
    }
    LengthIsExact(PacketFor(m, params));
  }

  /** Out and back in: the text, its time and the room survive; the author becomes the
      sending peer. */
  lemma EgressThenIngress(m: BridgeMessage, params: EgressParams, available: nat)
    requires Egress(m, params, available).Ok?
    ensures Ingress(Egress(m, params, available).value, m.roomId, m.messageId)
         == Ok(m.(author := Endpoint(Foreign(BitChat), params.senderId)))
  {
    hide DecodePacket, EncodePacket, Utf8.Valid, BridgeCodec.ValidateAuthorIdLen, BridgeCodec.AllZero;
    var p := PacketFor(m, params);
    EncodedDecodes(p);
    assert Canonical(p) == p;
  }

  /** In and back out with the packet's own sender and hop budget: the same bytes. The
      accepted packets are therefore exactly the encodings of public text messages. */
  lemma IngressThenEgress(raw: Bytes, roomId: Bytes16, messageId: Bytes32)
    requires Ingress(raw, roomId, messageId).Ok?
    requires BridgeCodec.ValidateMessage(Ingress(raw, roomId, messageId).value).Ok?
    ensures var p := DecodePacket(raw).value;
      Egress(Ingress(raw, roomId, messageId).value, EgressParams(p.senderId, p.ttl), PACKET_MAX_LEN) == Ok(raw)
  {
    hide DecodePacket, EncodePacket, Utf8.Valid;
    var p := DecodePacket(raw).value;
    var m := Ingress(raw, roomId, messageId).value;
    DecodedRewrites(raw, p);
    EgressIff(m, EgressParams(p.senderId, p.ttl));
    assert PacketFor(m, EgressParams(p.senderId, p.ttl)) == p;
  }
}
