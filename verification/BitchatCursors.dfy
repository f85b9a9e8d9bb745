/** The BitChat codec's cursors and the decode and encode procedures over them. */
module BitchatCursors {
  import opened Base
  import opened BitchatCodec

  class DecodeCursor {
    const input: Bytes
    var position: nat

    constructor (input: Bytes)
      ensures this.input == input && position == 0
    {
      this.input, position := input, 0;
    }

    method Slice(field: string, len: nat) returns (r: Result<Bytes, BitchatError>)
      modifies this`position
      ensures match ReadSlice(input, old(position), field, len) {
        case Err(e) => r == Err(e) && position == old(position)
        case Ok(read) => r == Ok(read.value) && position == read.next
      }
    {
      var end := position + len;
      if end > |input| {
        return Err(MissingField(field, len, if position <= |input| then |input| - position else 0));
      }
      r := Ok(input[position..end]);
      position := end;
    }

    method U8(field: string) returns (r: Result<Byte, BitchatError>)
      modifies this`position
      ensures match ReadByte(input, old(position), field) {
        case Err(e) => r == Err(e) && position == old(position)
        case Ok(read) => r == Ok(read.value) && position == read.next
      }
    {
      var slice :- Slice(field, 1);
      return Ok(slice[0]);
    }
  }

  method DecodeBitchatPacket(input: Bytes) returns (r: Result<Packet, BitchatError>)
    ensures r == DecodePacket(input)
  {
    hide DecodeHeader, DecodeRest;
    if |input| > CORE_PACKET_MAX_LEN {
      return Err(PacketTooLarge(|input|, CORE_PACKET_MAX_LEN));
    }
    var version :- DecodeVersion(input);
    if |input| < FixedHeaderLen(version) {
      return Err(PacketTooShort(|input|, FixedHeaderLen(version)));
    }
    var cursor := new DecodeCursor(input);
    var header :- DecodeHeaderAt(cursor, version);
    r := DecodeRestAt(cursor, version, header);
  }

  method DecodeHeaderAt(cursor: DecodeCursor, version: Version) returns (r: Result<Header, BitchatError>)
    requires cursor.position == 0
    modifies cursor`position
    ensures match DecodeHeader(cursor.input, version) {
      case Err(e) => r == Err(e)
      case Ok(read) => r == Ok(read.value) && cursor.position == read.next
    }
  {
    hide FromBigEndian, FromWireByte;
    var _ :- cursor.U8("version");
    var packetType :- cursor.U8("packet type");
    var ttl :- cursor.U8("ttl");
    var timestamp :- cursor.Slice("timestamp", 8);
    var flagByte :- cursor.U8("flags");
    var flags :- FromWireByte(flagByte);
    if version.V1? && flags.hasRoute {
      return Err(V1RouteFlag);
    }
    var len :- cursor.Slice("payload length", if version.V1? then 2 else 4);
    var payloadLen := FromBigEndian(len);
    if payloadLen > PAYLOAD_MAX_LEN {
      return Err(PayloadTooLarge(payloadLen, PAYLOAD_MAX_LEN));
    }
    return Ok(Header(packetType, ttl, U64Of(timestamp), flags, payloadLen));
  }

  method DecodeRouteAt(cursor: DecodeCursor, version: Version, flags: Flags) returns (r: Result<Option<Route>, BitchatError>)
    modifies cursor`position
    ensures match DecodeRoute(cursor.input, old(cursor.position), version, flags) {
      case Err(e) => r == Err(e)
      case Ok(read) => r == Ok(read.value) && cursor.position == read.next
    }
  {
    if !flags.hasRoute {
      return Ok(None);
    }
    if version.V1? {
      return Err(V1RouteFlag);
    }
    var hopCount :- cursor.U8("route hop count");
    if hopCount > ROUTE_MAX_HOPS {
      return Err(RouteTooManyHops(hopCount, ROUTE_MAX_HOPS));
    }
    var hops: nat := hopCount;
    var raw :- cursor.Slice("route hops", hops * PEER_ID_LEN);
    return Ok(Some(Route(hopCount, raw)));
  }

  method DecodeRestAt(cursor: DecodeCursor, version: Version, h: Header) returns (r: Result<Packet, BitchatError>)
    modifies cursor`position
    ensures r == DecodeRest(cursor.input, old(cursor.position), version, h)
  {
    hide DecodeRoute, DecodePayload;
    var sender :- cursor.Slice("sender ID", PEER_ID_LEN);
    var recipient: Option<Bytes8> := None;
    if h.flags.hasRecipient {
      var id :- cursor.Slice("recipient ID", PEER_ID_LEN);
      recipient := Some(id);
    }
    var route :- DecodeRouteAt(cursor, version, h.flags);
    var payloadBytes :- cursor.Slice("payload", h.payloadLen);
    var payload :- DecodePayload(version, h.flags, payloadBytes);
    var signature: Option<Bytes64> := None;
    if h.flags.hasSignature {
      var bytes :- cursor.Slice("signature", SIGNATURE_LEN);
      signature := Some(bytes);
    }
    if cursor.position < |cursor.input| {
      return Err(TrailingBytes(|cursor.input| - cursor.position));
    }
    return Ok(Packet(version, h.packetType, h.ttl, h.timestamp, h.flags, sender, recipient, route, payload, signature));
  }

  class EncodeCursor {
    const output: array<Byte>
    var position: nat

    /** The first `position` bytes are `done`; the rest is as it was. */
    ghost predicate Wrote(before: Bytes, done: Bytes)
      reads this, output
    {
      && |before| == output.Length && position == |done| <= output.Length
      && output[..position] == done && output[position..] == before[position..]
    }

    constructor (output: array<Byte>)
      ensures this.output == output && Wrote(output[..], [])
    {
      this.output, position := output, 0;
    }

    /** Checked at every write. */
    method Write(bytes: Bytes, ghost before: Bytes, ghost done: Bytes) returns (r: Result<(), BitchatError>)
      requires Wrote(before, done)
      modifies this`position, output
      ensures if |done| + |bytes| > output.Length then
          r == Err(OutputTooSmall(|done| + |bytes|, output.Length)) && Wrote(before, done)
        else r == Ok(()) && Wrote(before, done + bytes)
    {
      var end := position + |bytes|;
      if end > output.Length {
        return Err(OutputTooSmall(end, output.Length));
      }
      forall i | position <= i < end {
        output[i] := bytes[i - position];
      }
      assert output[..end] == done + bytes;
      assert output[end..] == before[end..] by {
        assert forall i | end <= i < output.Length :: output[i] == old(output[position..])[i - position];
      }
      position := end;
      return Ok(());
    }
  }

  /** Once the computed length fits, no single write can fail: what is returned is the
      computed length. */
  method EncodeBitchatPacketV2(p: Packet, output: array<Byte>) returns (r: Result<nat, BitchatError>)
    modifies output
    ensures match EncodedLen(p) {
      case Err(e) => r == Err(e) && output[..] == old(output[..])
      case Ok(needed) =>
        if output.Length < needed then r == Err(OutputTooSmall(needed, output.Length)) && output[..] == old(output[..])
        else p.payload.Plain? && r == Ok(needed) && output[..needed] == EncodePacket(p) && output[needed..] == old(output[needed..])
    }
  {
    hide HeaderBytes, RestBytes, PlainPayloadLen, EncodedRouteLen;
    var needed :- EncodedLen(p);
    if output.Length < needed {
      return Err(OutputTooSmall(needed, output.Length));
    }
    assert p.payload.Plain? && needed == |EncodePacket(p)| by { LengthIsExact(p); }
    ghost var before := output[..];
    var cursor := new EncodeCursor(output);
    WriteHeader(cursor, p, before);
    WriteRest(cursor, p, before, HeaderBytes(p));
    return Ok(cursor.position);
  }

  method WriteHeader(cursor: EncodeCursor, p: Packet, ghost before: Bytes)
    requires p.payload.Plain? && cursor.Wrote(before, []) && |HeaderBytes(p)| <= cursor.output.Length
    modifies cursor`position, cursor.output
    ensures cursor.Wrote(before, HeaderBytes(p))
  {
    hide BigEndian, ToWireByte, EncodeCursor.Wrote;
    var timestamp, len := BigEndian(p.timestamp, 8), BigEndian(|p.payload.bytes| % 0x1_0000_0000, 4);
    ghost var done := [2];
    var _ := cursor.Write([2], before, []);
    assert [] + [2] == done;
    var _ := cursor.Write([p.packetType], before, done);
    done := done + [p.packetType];
    var _ := cursor.Write([p.ttl], before, done);
    done := done + [p.ttl];
    var _ := cursor.Write(timestamp, before, done);
    done := done + timestamp;
    var _ := cursor.Write([ToWireByte(CanonicalFlags(p))], before, done);
    done := done + [ToWireByte(CanonicalFlags(p))];
    var _ := cursor.Write(len, before, done);
    assert done + len == HeaderBytes(p);
  }

  method WriteOptional(cursor: EncodeCursor, bytes: Option<Bytes>, ghost before: Bytes, ghost done: Bytes)
    requires cursor.Wrote(before, done) && |done| + |OptBytes(bytes)| <= cursor.output.Length
    modifies cursor`position, cursor.output
    ensures cursor.Wrote(before, done + OptBytes(bytes))
  {
    hide EncodeCursor.Wrote;
    assert done + [] == done;
    if bytes.Some? {
      var _ := cursor.Write(bytes.value, before, done);
    }
  }

  method WriteRoute(cursor: EncodeCursor, route: Option<Route>, ghost before: Bytes, ghost done: Bytes)
    requires cursor.Wrote(before, done) && |done| + |RouteBytes(route)| <= cursor.output.Length
    modifies cursor`position, cursor.output
    ensures cursor.Wrote(before, done + RouteBytes(route))
  {
    hide EncodeCursor.Wrote;
    assert done + [] == done;
    if route.Some? {
      var _ := cursor.Write([route.value.hopCount], before, done);
      var _ := cursor.Write(route.value.rawHops, before, done + [route.value.hopCount]);
      assert done + [route.value.hopCount] + route.value.rawHops == done + RouteBytes(route);
    }
  }

  method WriteRest(cursor: EncodeCursor, p: Packet, ghost before: Bytes, ghost start: Bytes)
    requires p.payload.Plain? && cursor.Wrote(before, start) && |start + RestBytes(p)| <= cursor.output.Length
    modifies cursor`position, cursor.output
    ensures cursor.Wrote(before, start + RestBytes(p))
  {
    hide EncodeCursor.Wrote, OptBytes, RouteBytes;
    ghost var done := start + p.senderId;
    var _ := cursor.Write(p.senderId, before, start);
    WriteOptional(cursor, p.recipientId, before, done);
    done := done + OptBytes(p.recipientId);
    WriteRoute(cursor, p.route, before, done);
    done := done + RouteBytes(p.route);
    var _ := cursor.Write(p.payload.bytes, before, done);
    done := done + p.payload.bytes;
    WriteOptional(cursor, p.signature, before, done);
    done := done + OptBytes(p.signature);
    assert done == start + RestBytes(p);
  }
}
