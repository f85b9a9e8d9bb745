/** The byte layout of BitChat packets, both versions, plain and compressed: what the decoder
    accepts, stated by positions in the packet. */
module BitchatWire {
  import opened Base
  import opened BitchatCodec

  /** A payload on the wire; a compressed one is led by its original length, in two bytes in
      version 1 and four in version 2. */
  function PayloadBytes(version: Version, payload: Payload): Bytes {
    match payload
    case Plain(bytes) => bytes
    case Compressed(originalLen, body) => BigEndian(originalLen, if version.V1? then 2 else 4) + body
  }

  /** One bit for each flag, from the lowest: recipient, signature, compression, route, RSR. */
  function FlagByte(f: Flags): nat {
    var bits := [f.hasRecipient, f.hasSignature, f.isCompressed, f.hasRoute, f.isRsr];
    (if bits[0] then 1 else 0) + (if bits[1] then 2 else 0) + (if bits[2] then 4 else 0) + (if bits[3] then 8 else 0)
    + (if bits[4] then 16 else 0)
  }

  /** Version, type, hops, time, flags and payload length, in this order; version 1 has a
      shorter length field and no routes. */
  ghost predicate HeaderLaid(s: Bytes, version: Version, h: Header) {
    var end := if version.V1? then 14 else 16;
    && |s| >= end && s[0] == (if version.V1? then 1 else 2) && s[1] == h.packetType && s[2] == h.ttl
    && s[3..11] == BigEndian(h.timestamp, 8) && s[11] == FlagByte(h.flags)
    && s[12..end] == BigEndian(h.payloadLen, end - 12) && h.payloadLen <= 1536
    && (version.V1? ==> !h.flags.hasRoute)
  }

  /** What the flags announce is there, and nothing else. */
  ghost predicate FlagsTell(p: Packet) {
    && (p.flags.hasRecipient <==> p.recipientId.Some?) && (p.flags.hasSignature <==> p.signature.Some?)
    && (p.flags.hasRoute <==> p.route.Some?) && (p.flags.isCompressed <==> p.payload.Compressed?)
  }

  ghost predicate WithinLimits(p: Packet) {
    && (p.route.Some? ==> p.route.value.hopCount <= 16 && |p.route.value.rawHops| == 8 * p.route.value.hopCount)
    && (p.payload.Compressed? ==> 0 < p.payload.originalLen <= 1536 && p.payload.compressedBytes != [])
  }

  function HeaderOf(p: Packet): Header {
    Header(p.packetType, p.ttl, p.timestamp, p.flags, |PayloadBytes(p.version, p.payload)|)
  }

  /** Sender, recipient, route, payload and signature follow one another to the end. */
  ghost predicate RestLaid(s: Bytes, at: nat, p: Packet) {
    && at <= |s|
    && s[at..] == p.senderId + OptBytes(p.recipientId) + RouteBytes(p.route) + PayloadBytes(p.version, p.payload) + OptBytes(p.signature)
  }

  ghost predicate Laid(s: Bytes, p: Packet) {
    && |s| <= 2048 && HeaderLaid(s, p.version, HeaderOf(p)) && FlagsTell(p) && WithinLimits(p)
    && RestLaid(s, if p.version.V1? then 14 else 16, p)
  }

  // ---- header ----

  lemma HeaderIff(s: Bytes, version: Version, h: Header)
    requires |s| >= FixedHeaderLen(version) && s[0] == (if version.V1? then 1 else 2)
    ensures DecodeHeader(s, version) == Ok(Read(h, FixedHeaderLen(version))) <==> HeaderLaid(s, version, h)
    ensures DecodeHeader(s, version).Ok? ==> DecodeHeader(s, version).value.next == FixedHeaderLen(version)
  {
    hide FromBigEndian, BigEndian, FromWireByte, ToWireByte, FlagByte;
    FlagByteIs(h.flags);
    WidthsOfMachineIntegers();
    var end := FixedHeaderLen(version);
    FlagsBijection(s[11], h.flags);
    NumberIff(s[3..11], h.timestamp);
    NumberIff(s[12..end], h.payloadLen);
  }

  lemma FlagByteIs(f: Flags)
    ensures FlagByte(f) == ToWireByte(f)
  {
  }

  lemma NumberIff(s: Bytes, n: nat)
    requires |s| == 2 || |s| == 4 || |s| == 8
    ensures FromBigEndian(s) == n && n < Pow256(|s|) <==> s == BigEndian(n, |s|) && n < Pow256(|s|)
    ensures FromBigEndian(s) < Pow256(|s|)
  {
    BigEndianOfFrom(s);
    if n < Pow256(|s|) {
      FromBigEndianOf(n, |s|);
    }
  }

  // ---- payload ----

  lemma PayloadIff(version: Version, flags: Flags, bytes: Bytes, payload: Payload)
    ensures DecodePayload(version, flags, bytes) == Ok(payload) <==>
      && bytes == PayloadBytes(version, payload) && (flags.isCompressed <==> payload.Compressed?)
      && (payload.Compressed? ==> 0 < payload.originalLen <= 1536 && payload.compressedBytes != [])
  {
    hide FromBigEndian, BigEndian;
    WidthsOfMachineIntegers();
    var n := PreambleLen(version);
    if |bytes| >= n {
      NumberIff(bytes[..n], FromBigEndian(bytes[..n]));
      assert bytes == bytes[..n] + bytes[n..];
    }
    if payload.Compressed? && bytes == PayloadBytes(version, payload) && payload.originalLen <= 1536 {
      assert bytes[..n] == BigEndian(payload.originalLen, n) && bytes[n..] == payload.compressedBytes;
      NumberIff(bytes[..n], payload.originalLen);
    }
  }

  // ---- rest ----

  lemma RouteIs(s: Bytes, at: nat, version: Version, flags: Flags)
    requires at <= |s| && (version.V1? ==> !flags.hasRoute) && DecodeRoute(s, at, version, flags).Ok?
    ensures var read := DecodeRoute(s, at, version, flags).value;
      && (flags.hasRoute <==> read.value.Some?) && EncodedRouteLen(read.value).Ok?
      && at <= read.next <= |s| && s[at..read.next] == RouteBytes(read.value)
  {
    if version.V2? {
      RouteRewrites(s, at, flags);
    }
  }

  lemma RouteFound(s: Bytes, at: nat, version: Version, route: Option<Route>, flags: Flags)
    requires EncodedRouteLen(route).Ok? && flags.hasRoute == route.Some? && at + |RouteBytes(route)| <= |s|
    requires (version.V1? ==> !flags.hasRoute) && s[at..at + |RouteBytes(route)|] == RouteBytes(route)
    ensures DecodeRoute(s, at, version, flags) == Ok(Read(route, at + |RouteBytes(route)|))
  {
    if version.V2? {
      RouteReadsBack(s, at, route, flags);
    }
  }

  lemma RouteLimits(route: Option<Route>)
    ensures EncodedRouteLen(route).Ok? <==>
      (route.Some? ==> route.value.hopCount <= 16 && |route.value.rawHops| == 8 * route.value.hopCount)
  {
  }

  lemma RestParts(s: Bytes, at: nat, version: Version, h: Header, p: Packet) returns (c: nat, d: nat)
    requires at <= |s| && DecodeRest(s, at, version, h) == Ok(p)
    ensures at + 8 <= |s| && s[at..at + 8] == p.senderId
    ensures DecodeRecipient(s, at + 8, h.flags.hasRecipient) == Ok(Read(p.recipientId, c))
    ensures DecodeRoute(s, c, version, h.flags) == Ok(Read(p.route, d)) && d + h.payloadLen <= |s|
    ensures DecodePayload(version, h.flags, s[d..d + h.payloadLen]) == Ok(p.payload)
    ensures DecodeSignature(s, d + h.payloadLen, h.flags.hasSignature) == Ok(Read(p.signature, |s|))
    ensures p == Packet(version, h.packetType, h.ttl, h.timestamp, h.flags, p.senderId, p.recipientId, p.route, p.payload, p.signature)
  {
    hide DecodeRecipient, DecodeRoute, DecodePayload;
    c := DecodeRecipient(s, at + 8, h.flags.hasRecipient).value.next;
    d := DecodeRoute(s, c, version, h.flags).value.next;
  }

  lemma RestOfParts(s: Bytes, at: nat, version: Version, h: Header, p: Packet, c: nat, d: nat)
    requires at + 8 <= |s| && s[at..at + 8] == p.senderId
    requires DecodeRecipient(s, at + 8, h.flags.hasRecipient) == Ok(Read(p.recipientId, c))
    requires DecodeRoute(s, c, version, h.flags) == Ok(Read(p.route, d)) && d + h.payloadLen <= |s|
    requires DecodePayload(version, h.flags, s[d..d + h.payloadLen]) == Ok(p.payload)
    requires DecodeSignature(s, d + h.payloadLen, h.flags.hasSignature) == Ok(Read(p.signature, |s|))
    requires p == Packet(version, h.packetType, h.ttl, h.timestamp, h.flags, p.senderId, p.recipientId, p.route, p.payload, p.signature)
    ensures DecodeRest(s, at, version, h) == Ok(p)
  {
    hide DecodeRecipient, DecodeRoute, DecodePayload, DecodeSignature;
  }

  lemma DecodedIsLaid(s: Bytes, at: nat, h: Header, p: Packet)
    requires at <= |s| && (p.version.V1? ==> !h.flags.hasRoute) && DecodeRest(s, at, p.version, h) == Ok(p)
    ensures h == HeaderOf(p) && FlagsTell(p) && WithinLimits(p) && RestLaid(s, at, p)
  {
    hide RouteBytes, OptBytes, PayloadBytes, DecodeRest, DecodeRoute, DecodePayload, EncodedRouteLen, DecodeRecipient, DecodeSignature;
    var c, d := RestParts(s, at, p.version, h, p);
    var e := d + h.payloadLen;
    RecipientRewrites(s, at + 8, h.flags.hasRecipient);
    RouteIs(s, c, p.version, h.flags);
    RouteLimits(p.route);
    PayloadIff(p.version, h.flags, s[d..e], p.payload);
    SignatureRewrites(s, e, h.flags.hasSignature);
    FivePieces(s, at, at + 8, c, d, e);
  }

  /** Where each part after the header starts. */
  lemma LaidPieces(s: Bytes, at: nat, sender: Bytes, recipient: Bytes, route: Bytes, payload: Bytes, signature: Bytes)
    requires at <= |s| && s[at..] == sender + recipient + route + payload + signature
    ensures var b := at + |sender|;
      var c := b + |recipient|;
      var d := c + |route|;
      var e := d + |payload|;
      && e + |signature| == |s|
      && s[at..b] == sender && s[b..c] == recipient && s[c..d] == route && s[d..e] == payload && s[e..] == signature
  {
    var t := s[at..];
    var b := |sender|;
    var c := b + |recipient|;
    var d := c + |route|;
    var e := d + |payload|;
    assert t[..b] == sender && t[b..c] == recipient && t[c..d] == route && t[d..e] == payload && t[e..] == signature;
  }

  lemma LaidDecodes(s: Bytes, at: nat, p: Packet)
    requires FlagsTell(p) && WithinLimits(p) && RestLaid(s, at, p) && (p.version.V1? ==> p.route.None?)
    ensures DecodeRest(s, at, p.version, HeaderOf(p)) == Ok(p)
  {
    hide RouteBytes, OptBytes, PayloadBytes, DecodeRest, DecodeRoute, DecodePayload, EncodedRouteLen, DecodeRecipient, DecodeSignature;
    var recipient, route, payload := OptBytes(p.recipientId), RouteBytes(p.route), PayloadBytes(p.version, p.payload);
    LaidPieces(s, at, p.senderId, recipient, route, payload, OptBytes(p.signature));
    var c := at + 8 + |recipient|;
    var d := c + |route|;
    RouteLimits(p.route);
    RecipientReadsBack(s, at + 8, p.recipientId);
    RouteFound(s, c, p.version, p.route, p.flags);
    PayloadIff(p.version, p.flags, payload, p.payload);
    SignatureReadsBack(s, d + |payload|, p.signature);
    RestOfParts(s, at, p.version, HeaderOf(p), p, c, d);
  }

  /** The decoder accepts exactly the packets laid out like this, and reads each as what is
      laid out; so every accepted packet has one spelling, in either version. */
  lemma DecodeIff(s: Bytes, p: Packet)
    ensures DecodePacket(s) == Ok(p) <==> Laid(s, p)
  {
    hide DecodeHeader, DecodeRest, HeaderLaid, RestLaid, FlagsTell, WithinLimits;
    if DecodePacket(s) == Ok(p) {
      var version := DecodeVersion(s).value;
      var header := DecodeHeader(s, version).value;
      HeaderIff(s, version, header.value);
      VersionOfRest(s, header.next, version, header.value);
      HeaderRoutes(s, version, header.value);
      DecodedIsLaid(s, header.next, header.value, p);
    }
    if Laid(s, p) {
      LaidStart(s, p);
      HeaderIff(s, p.version, HeaderOf(p));
      LaidDecodes(s, FixedHeaderLen(p.version), p);
    }
  }

  /** What is refused before anything after the header is looked at, and why. */
  lemma HeaderErrors(s: Bytes)
    ensures |s| > 2048 ==> DecodePacket(s) == Err(PacketTooLarge(|s|, 2048))
    ensures s == [] ==> DecodePacket(s) == Err(PacketTooShort(0, 1))
    ensures 0 < |s| <= 2048 && s[0] !in {1, 2} ==> DecodePacket(s) == Err(UnknownVersion(s[0]))
    ensures 0 < |s| < 14 && s[0] == 1 ==> DecodePacket(s) == Err(PacketTooShort(|s|, 14))
    ensures 0 < |s| < 16 && s[0] == 2 ==> DecodePacket(s) == Err(PacketTooShort(|s|, 16))
    ensures 16 <= |s| <= 2048 && s[0] in {1, 2} && s[11] >= 0x20 ==> DecodePacket(s) == Err(ReservedFlags(s[11]))
    ensures 16 <= |s| <= 2048 && s[0] == 1 && s[11] < 0x20 && s[11] / 8 % 2 == 1 ==> DecodePacket(s) == Err(V1RouteFlag)
    ensures 16 <= |s| <= 2048 && s[0] == 2 && s[11] < 0x20 && FromBigEndian(s[12..16]) > 1536 ==>
      DecodePacket(s) == Err(PayloadTooLarge(FromBigEndian(s[12..16]), 1536))
    ensures 16 <= |s| <= 2048 && s[0] == 1 && s[11] < 0x20 && s[11] / 8 % 2 == 0 && FromBigEndian(s[12..14]) > 1536 ==>
      DecodePacket(s) == Err(PayloadTooLarge(FromBigEndian(s[12..14]), 1536))
  {
    hide FromBigEndian, DecodeRest, HasFlag;
    if |s| >= 16 {
      HighBits(s[11]);
    }
  }

  lemma HighBits(b: Byte)
    ensures HasFlag(b, 0x20) || HasFlag(b, 0x40) || HasFlag(b, 0x80) <==> b >= 0x20
    ensures HasFlag(b, 0x08) <==> b / 8 % 2 == 1
  {
  }

  /** Why a packet cannot be encoded: it is not plain version 2, its payload is too long, or
      its route is too long or not made of whole hops. */
  lemma EncodeErrors(p: Packet)
    ensures p.version.V1? ==> EncodedLen(p) == Err(UnsupportedEncodeVersion(1))
    ensures p.version.V2? && p.payload.Compressed? ==> EncodedLen(p) == Err(UnsupportedCompressedEncode)
    ensures p.version.V2? && p.payload.Plain? && |p.payload.bytes| > 1536 ==> EncodedLen(p) == Err(PayloadTooLarge(|p.payload.bytes|, 1536))
    ensures p.version.V2? && p.payload.Plain? && |p.payload.bytes| <= 1536 ==>
      (EncodedLen(p).Ok? <==> p.route.Some? ==> p.route.value.hopCount <= 16 && |p.route.value.rawHops| == 8 * p.route.value.hopCount)
    ensures p.version.V2? && p.payload.Plain? && |p.payload.bytes| <= 1536 && EncodedLen(p).Err? ==>
      EncodedLen(p).error ==
        if p.route.value.hopCount > 16 then RouteTooManyHops(p.route.value.hopCount, 16)
        else InvalidRouteByteLength(p.route.value.hopCount, |p.route.value.rawHops|, 8 * p.route.value.hopCount)
  {
  }

  lemma HeaderRoutes(s: Bytes, version: Version, h: Header)
    requires HeaderLaid(s, version, h)
    ensures version.V1? ==> !h.flags.hasRoute
  {
  }

  lemma LaidStart(s: Bytes, p: Packet)
    requires Laid(s, p)
    ensures |s| >= FixedHeaderLen(p.version) && s[0] == (if p.version.V1? then 1 else 2)
    ensures p.version.V1? ==> p.route.None?
  {
  }
}
