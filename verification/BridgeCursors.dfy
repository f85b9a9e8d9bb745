/** The bridge codec's cursors and the decode and encode procedures over them. */
module BridgeCursors {
  import opened Base
  import opened BridgeTypes
  import opened BridgeCodec
  import Utf8

  class ReadCursor {
    const input: Bytes
    var index: nat

    constructor (input: Bytes)
      ensures this.input == input && index == 0
    {
      this.input, index := input, 0;
    }

    method Slice(len: nat) returns (r: Result<Bytes, BridgeError>)
      modifies this`index
      ensures match ReadSlice(input, old(index), len) {
        case Err(e) => r == Err(e) && index == old(index)
        case Ok(read) => r == Ok(read.value) && index == read.next
      }
    {
      var end := index + len;
      if end > |input| {
        return Err(InputTooShort(|input|, end));
      }
      r := Ok(input[index..end]);
      index := end;
    }

    method U8() returns (r: Result<Byte, BridgeError>)
      modifies this`index
      ensures match ReadByte(input, old(index)) {
        case Err(e) => r == Err(e) && index == old(index)
        case Ok(read) => r == Ok(read.value) && index == read.next
      }
    {
      var slice :- Slice(1);
      return Ok(slice[0]);
    }

    method Finish() returns (r: Result<(), BridgeError>)
      ensures r == if index != |input| then Err(TrailingBytes(|input|, index)) else Ok(())
    {
      return if index != |input| then Err(TrailingBytes(|input|, index)) else Ok(());
    }
  }

  method DecodeBridgeMessage(input: Bytes) returns (r: Result<BridgeMessage, BridgeError>)
    ensures r == DecodeBridge(input)
  {
    hide FromBigEndian, Utf8.Valid, AllZero, DecodeAuthorKind, ValidateAuthorIdLen, DecodePayloadKind, ValidatePayload;
    if |input| > MESSAGE_MAX_LEN {
      return Err(MessageTooLarge(|input|, MESSAGE_MAX_LEN));
    }
    var cursor := new ReadCursor(input);
    var version :- cursor.U8();
    if version != MESSAGE_VERSION_0 {
      return Err(InvalidVersion(version));
    }
    var roomId :- cursor.Slice(16);
    if AllZero(roomId) {
      return Err(ZeroRoomId);
    }
    var messageId :- cursor.Slice(32);
    if AllZero(messageId) {
      return Err(ZeroMessageId);
    }
    var author :- DecodeAuthorAt(cursor);
    var body :- DecodeBodyAt(cursor);
    return Ok(BridgeMessage(version, roomId, messageId, author, body.createdAt, body.payloadKind, body.payload));
  }

  method DecodeAuthorAt(cursor: ReadCursor) returns (r: Result<Endpoint, BridgeError>)
    modifies cursor`index
    ensures match DecodeAuthor(cursor.input, old(cursor.index)) {
      case Err(e) => r == Err(e)
      case Ok(read) => r == Ok(read.value) && cursor.index == read.next
    }
  {
    hide DecodeAuthorKind, ValidateAuthorIdLen;
    var kindTag :- cursor.U8();
    var networkTag :- cursor.U8();
    var idLen :- cursor.U8();
    var kind :- DecodeAuthorKind(kindTag, networkTag);
    var _ :- ValidateAuthorIdLen(kind, idLen);
    var id :- cursor.Slice(idLen);
    return Ok(Endpoint(kind, id));
  }

  method DecodeBodyAt(cursor: ReadCursor) returns (r: Result<Body, BridgeError>)
    modifies cursor`index
    ensures r == DecodeBody(cursor.input, old(cursor.index))
  {
    hide FromBigEndian, DecodePayloadKind, ValidatePayload;
    var created :- cursor.Slice(8);
    var kindTag :- cursor.U8();
    var kind :- DecodePayloadKind(kindTag);
    var lenBytes :- cursor.Slice(2);
    var payloadLen := FromBigEndian(lenBytes);
    if payloadLen > PAYLOAD_MAX_LEN {
      return Err(PayloadTooLarge(payloadLen, PAYLOAD_MAX_LEN));
    }
    var payload :- cursor.Slice(payloadLen);
    var _ :- ValidatePayload(kind, payload);
    var _ :- cursor.Finish();
    return Ok(Body(U64Of(created), kind, payload));
  }

  /** Writes without looking at the end of the buffer: callers must have made sure. */
  class WriteCursor {
    const output: array<Byte>
    var index: nat

    /** From `at` on, `done` has replaced what was in the buffer; nothing else changed. */
    ghost predicate Wrote(before: Bytes, at: nat, done: Bytes)
      reads this, output
    {
      && |before| == output.Length && index == at + |done| <= output.Length
      && output[..at] == before[..at] && output[at..index] == done && output[index..] == before[index..]
    }

    constructor (output: array<Byte>)
      ensures this.output == output && Wrote(output[..], 0, [])
    {
      this.output, index := output, 0;
    }

    method Write(value: Bytes, ghost before: Bytes, ghost at: nat, ghost done: Bytes)
      requires Wrote(before, at, done) && at + |done| + |value| <= output.Length
      modifies this`index, output
      ensures Wrote(before, at, done + value)
    {
      var end := index + |value|;
      forall i | index <= i < end {
        output[i] := value[i - index];
      }
      assert output[at..end] == done + value;
      assert output[end..] == before[end..] by {
        assert forall i | end <= i < output.Length :: output[i] == old(output[index..])[i - index];
      }
      index := end;
    }
  }

  method EncodeBridgeMessage(m: BridgeMessage, output: array<Byte>) returns (r: Result<nat, BridgeError>)
    modifies output
    ensures match EncodedLen(m) {
      case Err(e) => r == Err(e) && output[..] == old(output[..])
      case Ok(required) =>
        if output.Length < required then r == Err(OutputTooSmall(output.Length, required)) && output[..] == old(output[..])
        else r == Ok(required) && output[..required] == EncodeBridge(m) && output[required..] == old(output[required..])
    }
  {
    hide ValidateMessage, BigEndian, AuthorPart, BodyPart;
    var required :- EncodedLen(m);
    if output.Length < required {
      return Err(OutputTooSmall(output.Length, required));
    }
    assert required == |EncodeBridge(m)| by { LengthIsExact(m); }
    ghost var before := output[..];
    var cursor := new WriteCursor(output);
    cursor.Write([m.version], before, 0, []);
    cursor.Write(m.roomId, before, 0, [] + [m.version]);
    cursor.Write(m.messageId, before, 0, [] + [m.version] + m.roomId);
    assert [] + [m.version] + m.roomId + m.messageId == Head(m);
    WriteAuthor(cursor, m, before, 0, Head(m));
    WriteBody(cursor, m, before, 0, Head(m) + AuthorPart(m));
    assert output[0..required] == output[..required];
    return Ok(required);
  }

  lemma AuthorPieces(m: BridgeMessage, done: Bytes)
    ensures done + [KindTag(m.author.kind)] + [KindNetworkTag(m.author.kind)] + [|m.author.id| % 0x100] + m.author.id
         == done + AuthorPart(m)
  {
  }

  method WriteAuthor(cursor: WriteCursor, m: BridgeMessage, ghost before: Bytes, ghost at: nat, ghost done: Bytes)
    requires cursor.Wrote(before, at, done) && at + |done| + |AuthorPart(m)| <= cursor.output.Length
    modifies cursor`index, cursor.output
    ensures cursor.Wrote(before, at, done + AuthorPart(m))
  {
    hide WriteCursor.Wrote, AuthorPart;
    assert |AuthorPart(m)| == 3 + |m.author.id| by { AuthorPieces(m, []); }
    ghost var tags := [KindTag(m.author.kind)];
    match m.author.kind {
      case HyfNode =>
        cursor.Write([0], before, at, done);
        cursor.Write([0], before, at, done + tags);
      case Foreign(network) =>
        cursor.Write([1], before, at, done);
        cursor.Write([NetworkTag(network)], before, at, done + tags);
    }
    ghost var both := done + tags + [KindNetworkTag(m.author.kind)];
    cursor.Write([|m.author.id| % 0x100], before, at, both);
    cursor.Write(m.author.id, before, at, both + [|m.author.id| % 0x100]);
    AuthorPieces(m, done);
  }

  method WriteBody(cursor: WriteCursor, m: BridgeMessage, ghost before: Bytes, ghost at: nat, ghost done: Bytes)
    requires cursor.Wrote(before, at, done) && at + |done| + |BodyPart(m)| <= cursor.output.Length
    modifies cursor`index, cursor.output
    ensures cursor.Wrote(before, at, done + BodyPart(m))
  {
    hide BigEndian, WriteCursor.Wrote;
    var created, len := BigEndian(m.createdAt, 8), BigEndian(|m.payload| % 0x1_0000, 2);
    cursor.Write(created, before, at, done);
    cursor.Write([PayloadKindTag(m.payloadKind)], before, at, done + created);
    cursor.Write(len, before, at, done + created + [PayloadKindTag(m.payloadKind)]);
    cursor.Write(m.payload, before, at, done + created + [PayloadKindTag(m.payloadKind)] + len);
    assert done + created + [PayloadKindTag(m.payloadKind)] + len + m.payload == done + BodyPart(m);
  }
}
