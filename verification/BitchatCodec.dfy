/** BitChat packets: flags, the decoder of both wire versions, and the encoder of version 2,
    which writes exactly what the decoder reads back. */
module BitchatCodec {
  import opened Base

  const V1_HEADER_LEN: nat := 14
  const V2_HEADER_LEN: nat := 16
  const PEER_ID_LEN: nat := 8
  const SIGNATURE_LEN: nat := 64
  const ROUTE_MAX_HOPS: nat := 16
  const CORE_PACKET_MAX_LEN: nat := 2048
  const PAYLOAD_MAX_LEN: nat := 1536

  datatype Version = V1 | V2

  datatype BitchatError =
    | PacketTooShort(actual: nat, minimum: nat)
    | PacketTooLarge(actual: nat, maximum: nat)
    | UnknownVersion(version: Byte)
    | ReservedFlags(flags: Byte)
    | V1RouteFlag
    | PayloadTooLarge(actual: nat, maximum: nat)
    | RouteTooManyHops(actual: nat, maximum: nat)
    | MissingField(field: string, needed: nat, remaining: nat)
    | TrailingBytes(remaining: nat)
    | CompressedOriginalLenMissing(actual: nat, minimum: nat)
    | CompressedOriginalLenZero
    | CompressedOriginalLenTooLarge(actual: nat, maximum: nat)
    | CompressedBodyEmpty
    | OutputTooSmall(needed: nat, available: nat)
    | UnsupportedEncodeVersion(version: Byte)
    | UnsupportedCompressedEncode
    | InvalidRouteByteLength(hopCount: Byte, actual: nat, expected: nat)

  datatype Flags = Flags(hasRecipient: bool, hasSignature: bool, isCompressed: bool, hasRoute: bool, isRsr: bool)

  datatype Route = Route(hopCount: Byte, rawHops: Bytes)

  datatype Payload = Plain(bytes: Bytes) | Compressed(originalLen: nat, compressedBytes: Bytes)

  datatype Packet = Packet(
    version: Version, packetType: Byte, ttl: Byte, timestamp: U64, flags: Flags,
    senderId: Bytes8, recipientId: Option<Bytes8>, route: Option<Route>, payload: Payload, signature: Option<Bytes64>)

  // ---- flags ----

  /** Flags are single bits, so combining different ones is adding them up. */
  function BoolFlag(value: bool, flag: nat): nat {
    if value then flag else 0
  }

  function ToWireByte(f: Flags): Byte {
    BoolFlag(f.hasRecipient, 0x01) + BoolFlag(f.hasSignature, 0x02) + BoolFlag(f.isCompressed, 0x04)
    + BoolFlag(f.hasRoute, 0x08) + BoolFlag(f.isRsr, 0x10)
  }

  function HasFlag(flags: Byte, flag: nat): bool
    requires flag > 0
  {
    var bits: int := flags;
    (bits / flag) % 2 == 1
  }

  function FromWireByte(flags: Byte): Result<Flags, BitchatError> {
    if HasFlag(flags, 0x20) || HasFlag(flags, 0x40) || HasFlag(flags, 0x80) then Err(ReservedFlags(flags))
    else Ok(Flags(HasFlag(flags, 0x01), HasFlag(flags, 0x02), HasFlag(flags, 0x04), HasFlag(flags, 0x08), HasFlag(flags, 0x10)))
  }

  /** Flag sets and accepted flag bytes correspond one to one. */
  lemma FlagsBijection(b: Byte, f: Flags)
    ensures FromWireByte(b) == Ok(f) <==> b == ToWireByte(f)
  {
    hide HasFlag;
    BitsAddUp(b);
    if b == ToWireByte(f) {
      SameSum(b, f);
    }
  }

  /** No other set of flags adds up to the same byte. */
  lemma SameSum(b: Byte, f: Flags)
    requires b == ToWireByte(f)
    ensures FromWireByte(b) == Ok(f)
  {
  }

  /** A byte is the sum of its bits. */
  lemma BitsAddUp(b: Byte)
    ensures b ==
      BoolFlag(HasFlag(b, 0x01), 0x01) + BoolFlag(HasFlag(b, 0x02), 0x02) + BoolFlag(HasFlag(b, 0x04), 0x04)
      + BoolFlag(HasFlag(b, 0x08), 0x08) + BoolFlag(HasFlag(b, 0x10), 0x10) + BoolFlag(HasFlag(b, 0x20), 0x20)
      + BoolFlag(HasFlag(b, 0x40), 0x40) + BoolFlag(HasFlag(b, 0x80), 0x80)
  {
    hide HasFlag, Rest, Bit, BoolFlag;
    BitAt(b, 0x01);
    BitAt(b, 0x02);
    BitAt(b, 0x04);
    BitAt(b, 0x08);
    BitAt(b, 0x10);
    BitAt(b, 0x20);
    BitAt(b, 0x40);
    BitAt(b, 0x80);
    Above(b);
  }

  /** What is left above a flag. */
  function Rest(v: int, flag: nat): int
    requires flag > 0
  {
    v / flag
  }

  function Bit(v: int, flag: int): (bit: nat)
    requires flag > 0
    ensures bit < 2
  {
    Rest(v, flag) % 2
  }

  lemma BitAt(b: Byte, flag: nat)
    requires flag > 0
    ensures BoolFlag(HasFlag(b, flag), flag) == flag * Bit(b, flag)
  {
    var bit := Bit(b, flag);
    assert bit == 0 || bit == 1;
  }

  lemma Above(v: int)
    requires 0 <= v < 0x100
    ensures Rest(v, 1) == v
    ensures Rest(v, 1) == 2 * Rest(v, 2) + Bit(v, 1) && Rest(v, 2) == 2 * Rest(v, 4) + Bit(v, 2)
    ensures Rest(v, 4) == 2 * Rest(v, 8) + Bit(v, 4) && Rest(v, 8) == 2 * Rest(v, 16) + Bit(v, 8)
    ensures Rest(v, 16) == 2 * Rest(v, 32) + Bit(v, 16) && Rest(v, 32) == 2 * Rest(v, 64) + Bit(v, 32)
    ensures Rest(v, 64) == 2 * Rest(v, 128) + Bit(v, 64) && Rest(v, 128) == Bit(v, 128)
  {
    hide Rest, Bit;
    AboveLow(v);
    AboveHigh(v);
  }

  lemma AboveLow(v: int)
    requires 0 <= v < 0x100
    ensures Rest(v, 1) == v
    ensures Rest(v, 1) == 2 * Rest(v, 2) + Bit(v, 1) && Rest(v, 2) == 2 * Rest(v, 4) + Bit(v, 2)
    ensures Rest(v, 4) == 2 * Rest(v, 8) + Bit(v, 4) && Rest(v, 8) == 2 * Rest(v, 16) + Bit(v, 8)
  {
  }

  lemma AboveHigh(v: int)
    requires 0 <= v < 0x100
    ensures Rest(v, 16) == 2 * Rest(v, 32) + Bit(v, 16) && Rest(v, 32) == 2 * Rest(v, 64) + Bit(v, 32)
    ensures Rest(v, 64) == 2 * Rest(v, 128) + Bit(v, 64) && Rest(v, 128) == Bit(v, 128)
  {
  }

  // ---- decoding ----

  datatype Read<+T> = Read(value: T, next: nat)

  function ReadSlice(s: Bytes, at: nat, field: string, len: nat): (r: Result<Read<Bytes>, BitchatError>)
    ensures r.Ok? <==> at + len <= |s|
    ensures r.Ok? ==> r.value == Read(s[at..at + len], at + len)
  {
    if at + len > |s| then Err(MissingField(field, len, if at <= |s| then |s| - at else 0))
    else Ok(Read(s[at..at + len], at + len))
  }

  function ReadByte(s: Bytes, at: nat, field: string): (r: Result<Read<Byte>, BitchatError>)
    ensures r.Ok? ==> at < |s| && r.value == Read(s[at], at + 1)
  {
    var slice :- ReadSlice(s, at, field, 1);
    Ok(Read(slice.value[0], slice.next))
  }

  function DecodeVersion(s: Bytes): Result<Version, BitchatError> {
    if s == [] then Err(PacketTooShort(0, 1))
    else if s[0] == 1 then Ok(V1)
    else if s[0] == 2 then Ok(V2)
    else Err(UnknownVersion(s[0]))
  }

  function FixedHeaderLen(v: Version): nat {
    if v.V1? then V1_HEADER_LEN else V2_HEADER_LEN
  }

  datatype Header = Header(packetType: Byte, ttl: Byte, timestamp: U64, flags: Flags, payloadLen: nat)

  function DecodeHeader(s: Bytes, version: Version): Result<Read<Header>, BitchatError> {
    var _ :- ReadByte(s, 0, "version");
    var packetType :- ReadByte(s, 1, "packet type");
    var ttl :- ReadByte(s, 2, "ttl");
    var timestamp :- ReadSlice(s, 3, "timestamp", 8);
    var flagByte :- ReadByte(s, 11, "flags");
    var flags :- FromWireByte(flagByte.value);
    if version.V1? && flags.hasRoute then Err(V1RouteFlag)
    else
      var len :- ReadSlice(s, 12, "payload length", if version.V1? then 2 else 4);
      var payloadLen := FromBigEndian(len.value);
      if payloadLen > PAYLOAD_MAX_LEN then Err(PayloadTooLarge(payloadLen, PAYLOAD_MAX_LEN))
      else Ok(Read(Header(packetType.value, ttl.value, U64Of(timestamp.value), flags, payloadLen), len.next))
  }

  function DecodeRecipient(s: Bytes, at: nat, present: bool): Result<Read<Option<Bytes8>>, BitchatError> {
    if !present then Ok(Read(None, at))
    else
      var id :- ReadSlice(s, at, "recipient ID", PEER_ID_LEN);
      var value: Bytes8 := id.value;
      Ok(Read(Some(value), id.next))
  }

  function DecodeRoute(s: Bytes, at: nat, version: Version, flags: Flags): Result<Read<Option<Route>>, BitchatError> {
    if !flags.hasRoute then Ok(Read(None, at))
    else if version.V1? then Err(V1RouteFlag)
    else
      var hopCount :- ReadByte(s, at, "route hop count");
      if hopCount.value > ROUTE_MAX_HOPS then Err(RouteTooManyHops(hopCount.value, ROUTE_MAX_HOPS))
      else
        var hops: nat := hopCount.value;
        var raw :- ReadSlice(s, hopCount.next, "route hops", hops * PEER_ID_LEN);
        Ok(Read(Some(Route(hopCount.value, raw.value)), raw.next))
  }

  function PreambleLen(v: Version): nat {
    if v.V1? then 2 else 4
  }

  function DecodePayload(version: Version, flags: Flags, bytes: Bytes): Result<Payload, BitchatError> {
    if !flags.isCompressed then Ok(Plain(bytes))
    else if |bytes| < PreambleLen(version) then Err(CompressedOriginalLenMissing(|bytes|, PreambleLen(version)))
    else
      var originalLen := FromBigEndian(bytes[..PreambleLen(version)]);
      if originalLen == 0 then Err(CompressedOriginalLenZero)
      else if originalLen > PAYLOAD_MAX_LEN then Err(CompressedOriginalLenTooLarge(originalLen, PAYLOAD_MAX_LEN))
      else if bytes[PreambleLen(version)..] == [] then Err(CompressedBodyEmpty)
      else Ok(Compressed(originalLen, bytes[PreambleLen(version)..]))
  }

  function DecodeSignature(s: Bytes, at: nat, present: bool): Result<Read<Option<Bytes64>>, BitchatError> {
    if !present then Ok(Read(None, at))
    else
      var signature :- ReadSlice(s, at, "signature", SIGNATURE_LEN);
      var value: Bytes64 := signature.value;
      Ok(Read(Some(value), signature.next))
  }

  /** Everything after the header. */
  function DecodeRest(s: Bytes, at: nat, version: Version, h: Header): Result<Packet, BitchatError> {
    var sender :- ReadSlice(s, at, "sender ID", PEER_ID_LEN);
    var recipient :- DecodeRecipient(s, sender.next, h.flags.hasRecipient);
    var route :- DecodeRoute(s, recipient.next, version, h.flags);
    var payloadBytes :- ReadSlice(s, route.next, "payload", h.payloadLen);
    var payload :- DecodePayload(version, h.flags, payloadBytes.value);
    var signature :- DecodeSignature(s, payloadBytes.next, h.flags.hasSignature);
    if signature.next < |s| then Err(TrailingBytes(|s| - signature.next))
    else Ok(Packet(version, h.packetType, h.ttl, h.timestamp, h.flags, sender.value, recipient.value, route.value,
                   payload, signature.value))
  }

  function DecodePacket(s: Bytes): Result<Packet, BitchatError> {
    if |s| > CORE_PACKET_MAX_LEN then Err(PacketTooLarge(|s|, CORE_PACKET_MAX_LEN))
    else
      var version :- DecodeVersion(s);
      if |s| < FixedHeaderLen(version) then Err(PacketTooShort(|s|, FixedHeaderLen(version)))
      else
        var header :- DecodeHeader(s, version);
        DecodeRest(s, header.next, version, header.value)
  }

  // ---- encoding ----

  function PlainPayloadLen(p: Packet): Result<nat, BitchatError> {
    if p.version != V2 then Err(UnsupportedEncodeVersion(1))
    else if !p.payload.Plain? then Err(UnsupportedCompressedEncode)
    else if |p.payload.bytes| > PAYLOAD_MAX_LEN then Err(PayloadTooLarge(|p.payload.bytes|, PAYLOAD_MAX_LEN))
    else Ok(|p.payload.bytes|)
  }

  function EncodedRouteLen(route: Option<Route>): (r: Result<nat, BitchatError>)
    ensures r.Ok? ==> r.value == |RouteBytes(route)| <= 1 + ROUTE_MAX_HOPS * PEER_ID_LEN
  {
    if route.None? then Ok(0)
    else
      var hops: nat := route.value.hopCount;
      if hops > ROUTE_MAX_HOPS then Err(RouteTooManyHops(hops, ROUTE_MAX_HOPS))
      else if |route.value.rawHops| != hops * PEER_ID_LEN then
        Err(InvalidRouteByteLength(route.value.hopCount, |route.value.rawHops|, hops * PEER_ID_LEN))
      else Ok(hops * PEER_ID_LEN + 1)
  }

  function EncodedLen(p: Packet): Result<nat, BitchatError> {
    var payloadLen :- PlainPayloadLen(p);
    var routeLen :- EncodedRouteLen(p.route);
    var len := V2_HEADER_LEN + PEER_ID_LEN + (if p.recipientId.Some? then PEER_ID_LEN else 0)
      + routeLen + payloadLen + (if p.signature.Some? then SIGNATURE_LEN else 0);
    if len > CORE_PACKET_MAX_LEN then Err(PacketTooLarge(len, CORE_PACKET_MAX_LEN)) else Ok(len)
  }

  /** The flags that describe the packet's optional parts. */
  function CanonicalFlags(p: Packet): Flags {
    Flags(p.recipientId.Some?, p.signature.Some?, false, p.route.Some?, p.flags.isRsr)
  }

  function Canonical(p: Packet): Packet {
    p.(flags := CanonicalFlags(p))
  }

  function OptBytes(o: Option<Bytes>): Bytes {
    if o.Some? then o.value else []
  }

  function RouteBytes(route: Option<Route>): Bytes {
    if route.Some? then [route.value.hopCount] + route.value.rawHops else []
  }

  function HeaderBytes(p: Packet): Bytes
    requires p.payload.Plain?
  {
    [2, p.packetType, p.ttl] + BigEndian(p.timestamp, 8) + [ToWireByte(CanonicalFlags(p))]
    + BigEndian(|p.payload.bytes| % 0x1_0000_0000, 4)
  }

  function RestBytes(p: Packet): Bytes
    requires p.payload.Plain?
  {
    p.senderId + OptBytes(p.recipientId) + RouteBytes(p.route) + p.payload.bytes + OptBytes(p.signature)
  }

  function EncodePacket(p: Packet): Bytes
    requires p.payload.Plain?
  {
    HeaderBytes(p) + RestBytes(p)
  }

  /** The computed length is the length written, and the packet limit is never what fails:
      it leaves room for the largest packet the other limits allow. */
  lemma LengthIsExact(p: Packet)
    ensures EncodedLen(p).Ok? ==> p.payload.Plain? && EncodedLen(p).value == |EncodePacket(p)| <= 1761
    ensures EncodedLen(p).Ok? ==> |p.payload.bytes| % 0x1_0000_0000 == |p.payload.bytes|
    ensures EncodedLen(p).Err? ==> !EncodedLen(p).error.PacketTooLarge?
  {
  }

  // ---- inverse to one another ----

  lemma HeaderReadsBack(p: Packet, rest: Bytes)
    requires EncodedLen(p).Ok?
    ensures DecodeHeader(HeaderBytes(p) + rest, V2)
         == Ok(Read(Header(p.packetType, p.ttl, p.timestamp, CanonicalFlags(p), |p.payload.bytes|), 16))
  {
    hide FromBigEndian, BigEndian, FromWireByte, ToWireByte, CanonicalFlags;
    LengthIsExact(p);
    var s := HeaderBytes(p) + rest;
    WidthsOfMachineIntegers();
    FromBigEndianOf(p.timestamp, 8);
    FromBigEndianOf(|p.payload.bytes|, 4);
    FlagsBijection(ToWireByte(CanonicalFlags(p)), CanonicalFlags(p));
    assert s[3..11] == BigEndian(p.timestamp, 8);
    assert s[11] == ToWireByte(CanonicalFlags(p));
    assert s[12..16] == BigEndian(|p.payload.bytes| % 0x1_0000_0000, 4);
  }

  /** Where each part after the header starts. */
  lemma RestPieces(p: Packet, before: Bytes)
    requires p.payload.Plain?
    ensures var s := before + RestBytes(p);
      var a := |before|;
      var b := a + 8;
      var c := b + |OptBytes(p.recipientId)|;
      var d := c + |RouteBytes(p.route)|;
      var e := d + |p.payload.bytes|;
      && e + |OptBytes(p.signature)| == |s|
      && s[a..b] == p.senderId && s[b..c] == OptBytes(p.recipientId) && s[c..d] == RouteBytes(p.route)
      && s[d..e] == p.payload.bytes && s[e..] == OptBytes(p.signature)
  {
    hide OptBytes, RouteBytes;
  }

  lemma RouteReadsBack(s: Bytes, at: nat, route: Option<Route>, flags: Flags)
    requires EncodedRouteLen(route).Ok? && flags.hasRoute == route.Some? && at + |RouteBytes(route)| <= |s|
    requires s[at..at + |RouteBytes(route)|] == RouteBytes(route)
    ensures DecodeRoute(s, at, V2, flags) == Ok(Read(route, at + |RouteBytes(route)|))
  {
    if route.Some? {
      var piece := s[at..at + |RouteBytes(route)|];
      assert piece[0] == s[at] && piece[1..] == s[at + 1..at + |RouteBytes(route)|];
      assert RouteBytes(route)[1..] == route.value.rawHops;
    }
  }

  lemma RecipientReadsBack(s: Bytes, at: nat, id: Option<Bytes8>)
    requires at + |OptBytes(id)| <= |s| && s[at..at + |OptBytes(id)|] == OptBytes(id)
    ensures DecodeRecipient(s, at, id.Some?) == Ok(Read(id, at + |OptBytes(id)|))
  {
  }

  lemma SignatureReadsBack(s: Bytes, at: nat, signature: Option<Bytes64>)
    requires at + |OptBytes(signature)| == |s| && s[at..] == OptBytes(signature)
    ensures DecodeSignature(s, at, signature.Some?) == Ok(Read(signature, |s|))
  {
    assert s[at..] == s[at..|s|];
  }

  lemma RestFits(p: Packet)
    requires EncodedLen(p).Ok?
    ensures p.version == V2 && p.payload.Plain? && |p.payload.bytes| <= PAYLOAD_MAX_LEN && EncodedRouteLen(p.route).Ok?
  {
  }

  /** The parts after the header, read one after the other, make up the packet. */
  lemma RestFromParts(s: Bytes, at: nat, h: Header, sender: Bytes8, recipient: Read<Option<Bytes8>>, route: Read<Option<Route>>,
                      signature: Option<Bytes64>)
    requires at + 8 <= |s| && s[at..at + 8] == sender && !h.flags.isCompressed
    requires DecodeRecipient(s, at + 8, h.flags.hasRecipient) == Ok(recipient)
    requires DecodeRoute(s, recipient.next, V2, h.flags) == Ok(route) && route.next + h.payloadLen <= |s|
    requires DecodeSignature(s, route.next + h.payloadLen, h.flags.hasSignature) == Ok(Read(signature, |s|))
    ensures DecodeRest(s, at, V2, h) == Ok(Packet(V2, h.packetType, h.ttl, h.timestamp, h.flags, sender, recipient.value,
              route.value, Plain(s[route.next..route.next + h.payloadLen]), signature))
  {
    hide DecodeRecipient, DecodeRoute, DecodeSignature;
  }

  lemma RestReadsBack(p: Packet, before: Bytes)
    requires EncodedLen(p).Ok?
    ensures DecodeRest(before + RestBytes(p), |before|, V2,
              Header(p.packetType, p.ttl, p.timestamp, CanonicalFlags(p), |p.payload.bytes|)) == Ok(Canonical(p))
  {
    hide RouteBytes, OptBytes, RestBytes, DecodeRest, DecodeRoute, EncodedRouteLen, DecodeRecipient, DecodeSignature, EncodedLen;
    RestFits(p);
    var s := before + RestBytes(p);
    RestPieces(p, before);
    var b := |before| + 8;
    var c := b + |OptBytes(p.recipientId)|;
    var d := c + |RouteBytes(p.route)|;
    var h := Header(p.packetType, p.ttl, p.timestamp, CanonicalFlags(p), |p.payload.bytes|);
    RecipientReadsBack(s, b, p.recipientId);
    RouteReadsBack(s, c, p.route, h.flags);
    SignatureReadsBack(s, d + |p.payload.bytes|, p.signature);
    RestFromParts(s, |before|, h, p.senderId, Read(p.recipientId, c), Read(p.route, d), p.signature);
  }

  /** A packet that encodes decodes to itself with canonical flags. */
  lemma EncodedDecodes(p: Packet)
    requires EncodedLen(p).Ok?
    ensures DecodePacket(EncodePacket(p)) == Ok(Canonical(p))
  {
    hide DecodeHeader, DecodeRest, RestBytes, Canonical, EncodedLen;
    LengthIsExact(p);
    assert EncodePacket(p)[0] == 2;
    HeaderReadsBack(p, RestBytes(p));
    RestReadsBack(p, HeaderBytes(p));
  }

  lemma HeaderRewrites(s: Bytes, h: Header)
    requires |s| >= 16 && s[0] == 2 && DecodeHeader(s, V2) == Ok(Read(h, 16))
    ensures h.payloadLen <= PAYLOAD_MAX_LEN
    ensures s[..16] == [2, h.packetType, h.ttl] + BigEndian(h.timestamp, 8) + [ToWireByte(h.flags)]
                       + BigEndian(h.payloadLen % 0x1_0000_0000, 4)
  {
    hide FromBigEndian, BigEndian, FromWireByte, ToWireByte;
    BigEndianOfFrom(s[3..11]);
    BigEndianOfFrom(s[12..16]);
    WidthsOfMachineIntegers();
    FlagsBijection(s[11], h.flags);
    assert s[..16] == [s[0], s[1], s[2]] + s[3..11] + [s[11]] + s[12..16];
  }

  lemma RouteRewrites(s: Bytes, at: nat, flags: Flags)
    requires at <= |s| && DecodeRoute(s, at, V2, flags).Ok?
    ensures var read := DecodeRoute(s, at, V2, flags).value;
      && flags.hasRoute == read.value.Some? && EncodedRouteLen(read.value).Ok?
      && at <= read.next <= |s| && s[at..read.next] == RouteBytes(read.value)
  {
    var read := DecodeRoute(s, at, V2, flags).value;
    if read.value.Some? {
      assert s[at..read.next] == [s[at]] + s[at + 1..read.next];
    }
  }

  lemma RecipientRewrites(s: Bytes, at: nat, present: bool)
    requires at <= |s| && DecodeRecipient(s, at, present).Ok?
    ensures var read := DecodeRecipient(s, at, present).value;
      present == read.value.Some? && at <= read.next <= |s| && s[at..read.next] == OptBytes(read.value)
  {
  }

  lemma SignatureRewrites(s: Bytes, at: nat, present: bool)
    requires at <= |s| && DecodeSignature(s, at, present).Ok?
    ensures var read := DecodeSignature(s, at, present).value;
      present == read.value.Some? && at <= read.next <= |s| && s[at..read.next] == OptBytes(read.value)
  {
  }

  /** What reading the rest of an uncompressed packet found, and where each part ended. */
  lemma PartsOfRest(s: Bytes, at: nat, h: Header, p: Packet) returns (c: nat, d: nat)
    requires at <= |s| && DecodeRest(s, at, V2, h) == Ok(p) && !h.flags.isCompressed
    ensures at + 8 <= |s| && s[at..at + 8] == p.senderId
    ensures DecodeRecipient(s, at + 8, h.flags.hasRecipient) == Ok(Read(p.recipientId, c))
    ensures DecodeRoute(s, c, V2, h.flags) == Ok(Read(p.route, d)) && d + h.payloadLen <= |s|
    ensures DecodeSignature(s, d + h.payloadLen, h.flags.hasSignature) == Ok(Read(p.signature, |s|))
    ensures p == Packet(V2, h.packetType, h.ttl, h.timestamp, h.flags, p.senderId, p.recipientId, p.route,
              Plain(s[d..d + h.payloadLen]), p.signature)
  {
    hide DecodeRecipient, DecodeRoute;
    c := DecodeRecipient(s, at + 8, h.flags.hasRecipient).value.next;
    d := DecodeRoute(s, c, V2, h.flags).value.next;
  }

  lemma RestRewrites(s: Bytes, at: nat, h: Header, p: Packet)
    requires at <= |s| && DecodeRest(s, at, V2, h) == Ok(p) && !h.flags.isCompressed && h.payloadLen <= PAYLOAD_MAX_LEN
    ensures p.payload.Plain? && |p.payload.bytes| == h.payloadLen
    ensures p == Packet(V2, h.packetType, h.ttl, h.timestamp, h.flags, p.senderId, p.recipientId, p.route, p.payload, p.signature)
    ensures CanonicalFlags(p) == h.flags && EncodedRouteLen(p.route).Ok?
    ensures s[at..] == RestBytes(p)
  {
    hide RouteBytes, OptBytes, DecodeRest, DecodeRoute, EncodedRouteLen, DecodeRecipient, DecodeSignature;
    var c, d := PartsOfRest(s, at, h, p);
    var e := d + h.payloadLen;
    RecipientRewrites(s, at + 8, h.flags.hasRecipient);
    RouteRewrites(s, c, h.flags);
    SignatureRewrites(s, e, h.flags.hasSignature);
    FivePieces(s, at, at + 8, c, d, e);
  }

  lemma FivePieces(s: Bytes, at: nat, b: nat, c: nat, d: nat, e: nat)
    requires at <= b <= c <= d <= e <= |s|
    ensures s[at..] == s[at..b] + s[b..c] + s[c..d] + s[d..e] + s[e..|s|]
  {
  }

  /** Wire bytes are canonical: an accepted uncompressed version 2 packet re-encodes to
      exactly the bytes it came from. */
  lemma DecodedRewrites(s: Bytes, p: Packet)
    requires DecodePacket(s) == Ok(p) && p.version.V2? && !p.flags.isCompressed
    ensures EncodedLen(p).Ok? && p == Canonical(p) && EncodePacket(p) == s
  {
    hide DecodeRest, RestBytes, EncodedRouteLen, BigEndian, FromWireByte, ToWireByte;
    var version := DecodeVersion(s).value;
    var header := DecodeHeader(s, version).value;
    VersionOfRest(s, header.next, version, header.value);
    FlagsOfRest(s, header.next, version, header.value);
    HeaderRewrites(s, header.value);
    RestRewrites(s, 16, header.value, p);
    assert s == s[..16] + s[16..];
  }

  lemma VersionOfRest(s: Bytes, at: nat, version: Version, h: Header)
    ensures DecodeRest(s, at, version, h).Ok? ==> DecodeRest(s, at, version, h).value.version == version
  {
  }

  lemma FlagsOfRest(s: Bytes, at: nat, version: Version, h: Header)
    ensures DecodeRest(s, at, version, h).Ok? ==> DecodeRest(s, at, version, h).value.flags == h.flags
  {
  }

  /** Among canonical packets, decoding and encoding are inverse to one another. */
  lemma BitchatWireBijection(s: Bytes, p: Packet)
    requires p.version.V2? && p.payload.Plain?
    ensures DecodePacket(s) == Ok(p) && !p.flags.isCompressed <==> EncodedLen(p).Ok? && p == Canonical(p) && s == EncodePacket(p)
  {
    hide DecodePacket, EncodePacket, EncodedLen;
    if DecodePacket(s) == Ok(p) && !p.flags.isCompressed {
      DecodedRewrites(s, p);
    }
    if EncodedLen(p).Ok? && p == Canonical(p) && s == EncodePacket(p) {
      EncodedDecodes(p);
    }
  }
}
