/** Verification of events and of the envelopes they carry, for given digest, signature
    and envelope checks. */
module Signing {
  import opened Base
  import opened NostrTypes
  import Canonical
  import Hex
  import Utf8

  datatype Verdict = Verified | BadKey | BadSignature

  /** What the model does not look into: SHA-256, the Schnorr verification of a signature on
      an id under a key, and whether bytes decode as an envelope. */
  datatype Crypto = Crypto(
    sha256: Bytes -> Bytes32,
    schnorr: (Bytes32, Bytes32, Bytes64) -> Verdict,
    envelopeOk: Bytes -> bool)

  datatype PublishProfile = HyfEnvelope | SignedKind(kind: U16)

  function VerifyEvent(c: Crypto, e: Event): Result<(), NostrError> {
    if e.id != Canonical.EventId(c.sha256, e.Unsigned()) then Err(EventIdMismatch)
    else
      match c.schnorr(e.pubkey, e.id, e.sig)
      case Verified => Ok(())
      case BadKey => Err(NostrError.Crypto)
      case BadSignature => Err(InvalidSignature)
  }

  predicate HasRecipientTag(tags: seq<Tag>) {
    exists i | 0 <= i < |tags| :: tags[i][0] == "p" && |tags[i]| > 1 && tags[i][1] != ""
  }

  function DecodeContent(content: string, available: nat): Result<Bytes, NostrError> {
    var _ :- ValidateContentLen(content);
    Hex.DecodeLowerHex(Utf8.Encode(content), available)
  }

  /** The envelope bytes of an event, decoded into a buffer of the given size. */
  function VerifyAndDecode(c: Crypto, e: Event, available: nat): Result<Bytes, NostrError> {
    var _ :- VerifyEvent(c, e);
    if e.kind != ENVELOPE_KIND then Err(UnexpectedKind(ENVELOPE_KIND, e.kind))
    else if !HasRecipientTag(e.tags) then Err(MissingRequiredTag("p"))
    else
      var bytes :- DecodeContent(e.content, available);
      if c.envelopeOk(bytes) then Ok(bytes) else Err(MalformedEnvelope)
  }

  function ValidateProfile(c: Crypto, e: Event, available: nat, profile: PublishProfile): Result<(), NostrError> {
    match profile
    case HyfEnvelope =>
      var _ :- VerifyAndDecode(c, e, available);
      Ok(())
    case SignedKind(kind) =>
      var _ :- VerifyEvent(c, e);
      if e.kind != kind then Err(UnexpectedKind(kind, e.kind)) else Ok(())
  }
  // ---- signing ----

  /** Deriving public keys and signing ids, for a given secret. */
  datatype Signer = Signer(
    publicKey: Bytes32 -> Result<Bytes32, NostrError>,
    signId: (Bytes32, Bytes32) -> Result<Bytes64, NostrError>)

  /** What is signed under a secret verifies under its public key. */
  ghost predicate Honest(c: Crypto, signer: Signer) {
    forall secret: Bytes32, id: Bytes32 :: signer.publicKey(secret).Ok? && signer.signId(secret, id).Ok? ==>
      c.schnorr(signer.publicKey(secret).value, id, signer.signId(secret, id).value) == Verified
  }

  function SignEvent(c: Crypto, signer: Signer, e: UnsignedEvent, secret: Bytes32): Result<Event, NostrError> {
    var pubkey :- signer.publicKey(secret);
    if e.pubkey != pubkey then Err(PublicKeyMismatch)
    else
      var id := Canonical.EventId(c.sha256, e);
      var sig :- signer.signId(secret, id);
      var _ :- ValidateContentLen(e.content);
      Ok(Event(id, e.pubkey, e.createdAt, e.kind, e.tags, e.content, sig))
  }

  /** Signed events verify and keep every field. */
  lemma SignedVerifies(c: Crypto, signer: Signer, e: UnsignedEvent, secret: Bytes32)
    requires Honest(c, signer) && SignEvent(c, signer, e, secret).Ok?
    ensures VerifyEvent(c, SignEvent(c, signer, e, secret).value) == Ok(())
    ensures SignEvent(c, signer, e, secret).value.Unsigned() == e
  {
    hide Canonical.EventId;
  }

  // ---- envelopes as events ----

  /** The signed event that carries an envelope's bytes to a recipient. */
  function EnvelopeEvent(c: Crypto, signer: Signer, bytes: Bytes, secret: Bytes32, recipient: Bytes32, createdAt: U64)
    : Result<Event, NostrError>
  {
    if |bytes| > MAX_ENVELOPE_BYTES then Err(EnvelopeTooLarge(|bytes|, MAX_ENVELOPE_BYTES))
    else
      var tags: seq<Tag> := [["p", Hex.HexText(recipient)], ["t", "hyf"], ["alt", "hyf gateway envelope"]];
      var pubkey :- signer.publicKey(secret);
      var content := Hex.HexText(bytes);
      var _ :- ValidateContentLen(content);
      SignEvent(c, signer, UnsignedEvent(pubkey, createdAt, ENVELOPE_KIND, tags, content), secret)
  }

  lemma HexDecodes(bytes: Bytes, available: nat)
    ensures ByteLen(Hex.HexText(bytes)) == 2 * |bytes|
    ensures Hex.DecodeLowerHex(Utf8.Encode(Hex.HexText(bytes)), available)
         == if available < |bytes| then Err(OutputTooSmall(|bytes|, available)) else Ok(bytes)
  {
    hide Hex.HexText, Utf8.Encode, Hex.DecodePairs, Hex.PairSpells;
    Hex.HexTextBytes(bytes);
    Hex.DecodePairsOfHex(bytes, Utf8.Encode(Hex.HexText(bytes)), 0);
    assert bytes[0..] == bytes;
  }

  /** Any envelope that fits goes into an event and comes out of it unchanged, into any
      buffer that can hold it; a shorter buffer is reported as such. */
  lemma EnvelopeRoundTrip(c: Crypto, signer: Signer, bytes: Bytes, secret: Bytes32, recipient: Bytes32, createdAt: U64, available: nat)
    requires Honest(c, signer) && EnvelopeEvent(c, signer, bytes, secret, recipient, createdAt).Ok?
    ensures var e := EnvelopeEvent(c, signer, bytes, secret, recipient, createdAt).value;
      VerifyAndDecode(c, e, available) ==
        if available < |bytes| then Err(OutputTooSmall(|bytes|, available))
        else if c.envelopeOk(bytes) then Ok(bytes)
        else Err(MalformedEnvelope)
  {
    hide VerifyEvent, SignEvent, Hex.HexText, Hex.DecodeLowerHex;
    var e := EnvelopeEvent(c, signer, bytes, secret, recipient, createdAt).value;
    HexDecodes(bytes, available);
    assert |Hex.HexText(recipient)| == 64;
    var tags: seq<Tag> := [["p", Hex.HexText(recipient)], ["t", "hyf"], ["alt", "hyf gateway envelope"]];
    var unsigned := UnsignedEvent(signer.publicKey(secret).value, createdAt, ENVELOPE_KIND, tags, Hex.HexText(bytes));
    SignedVerifies(c, signer, unsigned, secret);
    assert e.Unsigned() == unsigned;
    assert e.tags == tags && e.tags[0][0] == "p";
  }
}
