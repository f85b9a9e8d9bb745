/** The protocol-neutral message the bridges exchange. */
module BridgeTypes {
  import opened Base

  datatype Network = Fips | Rns | Nostr | Lxmf | BitChat

  datatype EndpointKind = HyfNode | Foreign(network: Network)

  datatype Endpoint = Endpoint(kind: EndpointKind, id: Bytes)

  datatype PayloadKind = TextUtf8 | OpaqueBytes

  datatype BridgeMessage = BridgeMessage(
    version: Byte, roomId: Bytes16, messageId: Bytes32, author: Endpoint,
    createdAt: U64, payloadKind: PayloadKind, payload: Bytes)

  datatype BridgeError =
    | InvalidVersion(version: Byte)
    | ZeroRoomId
    | ZeroMessageId
    | UnknownAuthorKind(tag: Byte)
    | UnexpectedHyfAuthorNetworkTag(tag: Byte)
    | InvalidForeignNetworkTag(tag: Byte)
    | UnsupportedAuthorNetwork(network: Network)
    | InvalidAuthorIdLen(len: nat)
    | UnknownPayloadKind(tag: Byte)
    | InvalidTextUtf8
    | PayloadTooLarge(actual: nat, maximum: nat)
    | MessageTooLarge(actual: nat, maximum: nat)
    | InputTooShort(actual: nat, minimum: nat)
    | TrailingBytes(actual: nat, expected: nat)
    | OutputTooSmall(actual: nat, required: nat)
    | HyfWire

  const MESSAGE_VERSION_0: Byte := 0
  const PAYLOAD_MAX_LEN: nat := 1024
  const MESSAGE_MAX_LEN: nat := 1536

  datatype Protocol = HyfProtocol | BitChatProtocol | LxmfProtocol | NostrProtocol

  datatype MessageKey = MessageKey(roomId: Bytes16, messageId: Bytes32)
}
