/** Which signed events count as envelopes and as bridge messages, and what the events made
    of them look like, tag by tag. */
module EventMeaning {
  import opened Base
  import opened NostrTypes
  import opened Signing
  import BridgeCodec
  import BridgeTypes
  import BridgeWire
  import Canonical
  import GatewayPoll
  import Hex
  import NostrBridge
  import Relay
  import Utf8

  // ---- signatures ----

  /** The id is the digest of the canonical text, and the signature verifies on it. */
  ghost predicate Genuine(c: Crypto, e: Event) {
    e.id == c.sha256(Canonical.CanonicalText(e.Unsigned())) && c.schnorr(e.pubkey, e.id, e.sig) == Verified
  }

  lemma VerifyIff(c: Crypto, e: Event)
    ensures VerifyEvent(c, e).Ok? <==> Genuine(c, e)
    ensures VerifyEvent(c, e) == Err(EventIdMismatch) <==> e.id != c.sha256(Canonical.CanonicalText(e.Unsigned()))
    ensures VerifyEvent(c, e) == Err(InvalidSignature) ==> c.schnorr(e.pubkey, e.id, e.sig) == BadSignature
    ensures VerifyEvent(c, e) == Err(NostrError.Crypto) ==> c.schnorr(e.pubkey, e.id, e.sig) == BadKey
  {
    hide Canonical.CanonicalText;
  }

  // ---- envelopes ----

  ghost predicate NamesSomeone(tag: Tag) {
    |tag| >= 2 && tag[0] == "p" && |tag[1]| > 0
  }

  ghost predicate IsEnvelope(c: Crypto, e: Event, bytes: Bytes) {
    && Genuine(c, e) && e.kind == 9775 && (exists i | 0 <= i < |e.tags| :: NamesSomeone(e.tags[i]))
    && e.content == Hex.HexText(bytes) && |bytes| <= 2048 && c.envelopeOk(bytes)
  }

  lemma ContentIff(content: string, available: nat, bytes: Bytes)
    ensures DecodeContent(content, available) == Ok(bytes) <==>
      content == Hex.HexText(bytes) && |bytes| <= available && |bytes| <= 2048
  {
    hide Hex.HexText, Hex.DecodeLowerHex, Utf8.Encode;
    HexDecodes(bytes, available);
    if Hex.DecodeLowerHex(Utf8.Encode(content), available) == Ok(bytes) {
      NostrBridge.AcceptedHex(content, available, bytes);
    }
  }

  /** Exactly these events decode as envelopes, into any buffer that can hold the bytes. */
  lemma EnvelopeIff(c: Crypto, e: Event, available: nat, bytes: Bytes)
    ensures VerifyAndDecode(c, e, available) == Ok(bytes) <==> IsEnvelope(c, e, bytes) && |bytes| <= available
    ensures Genuine(c, e) && e.kind != 9775 ==> VerifyAndDecode(c, e, available) == Err(UnexpectedKind(9775, e.kind))
  {
    hide VerifyEvent, Genuine, DecodeContent, Hex.HexText;
    VerifyIff(c, e);
    ContentIff(e.content, available, bytes);
    RecipientIff(e.tags);
    hide HasRecipientTag;
  }

  lemma RecipientIff(tags: seq<Tag>)
    ensures HasRecipientTag(tags) <==> exists i | 0 <= i < |tags| :: NamesSomeone(tags[i])
  {
    if i :| 0 <= i < |tags| && tags[i][0] == "p" && |tags[i]| > 1 && tags[i][1] != "" {
      assert NamesSomeone(tags[i]);
    }
    if i :| 0 <= i < |tags| && NamesSomeone(tags[i]) {
      assert tags[i][0] == "p" && |tags[i]| > 1 && tags[i][1] != "";
    }
  }

  /** What the relay lets in: envelopes it can decode, or genuine events of the asked kind. */
  lemma ProfileIff(c: Crypto, e: Event, available: nat, profile: PublishProfile)
    ensures ValidateProfile(c, e, available, profile).Ok? <==>
      match profile {
        case HyfEnvelope => exists bytes :: IsEnvelope(c, e, bytes) && |bytes| <= available
        case SignedKind(kind) => Genuine(c, e) && e.kind == kind
      }
    ensures profile.SignedKind? && Genuine(c, e) && e.kind != profile.kind ==>
      ValidateProfile(c, e, available, profile) == Err(UnexpectedKind(profile.kind, e.kind))
  {
    hide VerifyEvent, VerifyAndDecode, IsEnvelope;
    VerifyIff(c, e);
    var decoded := VerifyAndDecode(c, e, available);
    forall bytes ensures decoded == Ok(bytes) <==> IsEnvelope(c, e, bytes) && |bytes| <= available {
      EnvelopeIff(c, e, available, bytes);
    }
    if decoded.Ok? {
      assert IsEnvelope(c, e, decoded.value);
    }
  }

  /** What a poll makes of a queued event: the envelope's bytes at the event's own time, if the
      time in milliseconds is a machine word; otherwise an error, which blames the caller's
      buffer only when nothing else is wrong. */
  lemma SeenIff(c: Crypto, id: string, e: Event, room: nat)
    ensures var seen := GatewayPoll.Seen(c, Relay.EventOutput(id, e), room);
      var at := 1000 * (e.createdAt as int);
      && (forall bytes :: (exists t :: seen == Ok(Some(GatewayPoll.Frame(t, bytes)))) <==>
                          IsEnvelope(c, e, bytes) && |bytes| <= room && at < 0x1_0000_0000_0000_0000)
      && (seen.Ok? ==> seen.value.Some? && seen.value.value.Frame? && seen.value.value.receivedAt as int == at)
  {
    hide VerifyAndDecode, IsEnvelope;
    var decoded := VerifyAndDecode(c, e, room);
    forall bytes ensures decoded == Ok(bytes) <==> IsEnvelope(c, e, bytes) && |bytes| <= room {
      EnvelopeIff(c, e, room, bytes);
    }
    forall bytes ensures (exists t :: GatewayPoll.Seen(c, Relay.EventOutput(id, e), room) == Ok(Some(GatewayPoll.Frame(t, bytes)))) <==>
                         IsEnvelope(c, e, bytes) && |bytes| <= room && 1000 * (e.createdAt as int) < 0x1_0000_0000_0000_0000 {
      var at := 1000 * (e.createdAt as int);
      if at < 0x1_0000_0000_0000_0000 && decoded == Ok(bytes) {
        assert GatewayPoll.Seen(c, Relay.EventOutput(id, e), room) == Ok(Some(GatewayPoll.Frame(at, bytes)));
      }
    }
  }

  /** The event an envelope is sent in. */
  lemma EnvelopeShape(c: Crypto, signer: Signer, bytes: Bytes, secret: Bytes32, recipient: Bytes32, createdAt: U64)
    ensures var r := EnvelopeEvent(c, signer, bytes, secret, recipient, createdAt);
      && (r.Ok? ==>
            && signer.publicKey(secret) == Ok(r.value.pubkey) && signer.signId(secret, r.value.id) == Ok(r.value.sig)
            && r.value.id == c.sha256(Canonical.CanonicalText(r.value.Unsigned()))
            && r.value.kind == 9775 && r.value.createdAt == createdAt && r.value.content == Hex.HexText(bytes)
            && r.value.tags == [["p", Hex.HexText(recipient)], ["t", "hyf"], ["alt", "hyf gateway envelope"]])
      && (|bytes| > 2048 ==> r == Err(EnvelopeTooLarge(|bytes|, 2048)))
      && (|bytes| <= 2048 && signer.publicKey(secret).Ok? && (forall id :: signer.signId(secret, id).Ok?) ==> r.Ok?)
  {
    hide Canonical.CanonicalText, Hex.HexText;
    HexDecodes(bytes, 0);
  }

  // ---- bridge messages ----

  ghost predicate IsCommunity(tag: Tag) {
    |tag| == 2 && tag[0] == "community"
  }

  /** The first two-valued "community" tag names `value`. */
  ghost predicate FirstCommunity(tags: seq<Tag>, value: string) {
    exists i | 0 <= i < |tags| :: CommunityAt(tags, i, value)
  }

  ghost predicate CommunityAt(tags: seq<Tag>, i: nat, value: string)
    requires i < |tags|
  {
    IsCommunity(tags[i]) && tags[i][1] == value && forall j | 0 <= j < i :: !IsCommunity(tags[j])
  }

  lemma {:induction false} CommunityIff(tags: seq<Tag>, roomId: Bytes16)
    ensures NostrBridge.RequireCommunity(tags) == Ok(roomId) <==> FirstCommunity(tags, Hex.HexText(roomId))
  {
    hide Hex.DecodeFixed, Hex.HexText;
    if tags != [] {
      var rest := tags[1..];
      CommunityIff(rest, roomId);
      if |tags[0]| == 2 && tags[0][0] == "community" {
        Hex.DecodeFixedIff(16, tags[0][1], roomId);
        assert IsCommunity(tags[0]);
        if tags[0][1] == Hex.HexText(roomId) {
          assert CommunityAt(tags, 0, Hex.HexText(roomId));
        }
        if i :| 0 <= i < |tags| && CommunityAt(tags, i, Hex.HexText(roomId)) {
          assert i == 0;
        }
      } else {
        if i :| 0 <= i < |rest| && CommunityAt(rest, i, Hex.HexText(roomId)) {
          assert forall j | 0 < j <= i + 1 :: tags[j] == rest[j - 1];
          assert CommunityAt(tags, i + 1, Hex.HexText(roomId));
        }
        if i :| 0 <= i < |tags| && CommunityAt(tags, i, Hex.HexText(roomId)) {
          assert forall j | 0 <= j <= i - 1 :: rest[j] == tags[j + 1];
          assert CommunityAt(rest, i - 1, Hex.HexText(roomId));
        }
      }
    }
  }

  ghost predicate IsBridge(c: Crypto, e: Event, raw: Bytes, m: BridgeTypes.BridgeMessage) {
    && Genuine(c, e) && e.kind == 9109
    && ["hyf", "bridge", "v0"] in e.tags && ["alt", "HYF bridge message"] in e.tags
    && FirstCommunity(e.tags, Hex.HexText(m.roomId))
    && e.content == Hex.HexText(raw) && BridgeWire.Laid(raw, m)
    && (m.author.kind == BridgeTypes.Foreign(BridgeTypes.Nostr) ==> m.author.id == e.pubkey)
  }

  lemma RequireIff(tags: seq<Tag>, expected: Tag, name: string)
    ensures NostrBridge.RequireTag(tags, expected, name).Ok? <==> expected in tags
  {
  }

  /** Exactly these events are read as bridge messages. */
  lemma BridgeIff(c: Crypto, e: Event, available: nat, raw: Bytes, m: BridgeTypes.BridgeMessage)
    ensures NostrBridge.OfEvent(c, e, available) == Ok(NostrBridge.Ingress(raw, m)) <==>
      IsBridge(c, e, raw, m) && |raw| <= available
  {
    hide VerifyEvent, Genuine, Hex.HexText, Hex.DecodeLowerHex, NostrBridge.RequireTag, NostrBridge.RequireCommunity,
      FirstCommunity, BridgeCodec.DecodeBridge, BridgeWire.Laid, Utf8.Encode;
    VerifyIff(c, e);
    RequireIff(e.tags, ["hyf", "bridge", "v0"], "hyf");
    RequireIff(e.tags, ["alt", "HYF bridge message"], "alt");
    CommunityIff(e.tags, m.roomId);
    BridgeWire.DecodeIff(raw, m);
    HexDecodes(raw, available);
    if Hex.DecodeLowerHex(Utf8.Encode(e.content), available) == Ok(raw) {
      NostrBridge.AcceptedHex(e.content, available, raw);
    }
  }

  /** The event a bridge message leaves in. */
  lemma BridgeShape(c: Crypto, signer: Signer, raw: Bytes, secret: Bytes32, createdAt: U64)
    ensures var r := NostrBridge.ToEvent(c, signer, raw, secret, createdAt);
      r.Ok? ==>
        && BridgeCodec.DecodeBridge(raw).Ok?
        && signer.publicKey(secret) == Ok(r.value.pubkey) && signer.signId(secret, r.value.id) == Ok(r.value.sig)
        && r.value.id == c.sha256(Canonical.CanonicalText(r.value.Unsigned()))
        && r.value.kind == 9109 && r.value.createdAt == createdAt && r.value.content == Hex.HexText(raw)
        && r.value.tags == [["hyf", "bridge", "v0"], ["community", Hex.HexText(BridgeCodec.DecodeBridge(raw).value.roomId)],
                            ["alt", "HYF bridge message"]]
  {
    hide Canonical.CanonicalText, Hex.HexText, BridgeCodec.DecodeBridge;
  }
}
