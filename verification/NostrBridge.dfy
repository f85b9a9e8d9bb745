/** Bridge messages carried as signed Nostr events, and the event text they leave as. */
module NostrBridge {
  import opened Base
  import opened NostrTypes
  import opened BridgeTypes
  import opened Signing
  import opened Json
  import opened JsonLayout
  import BridgeCodec
  import Hex
  import JsonPieces
  import JsonRoundTrip
  import MessageRoundTrip
  import Messages
  import Utf8

  const BRIDGE_EVENT_KIND: U16 := 9109
  const HYF_TAG: seq<string> := ["hyf", "bridge", "v0"]
  const ALT_TAG: seq<string> := ["alt", "HYF bridge message"]
  const EVENT_JSON_MAX_LEN: nat := 6144
  const CONTENT_CAPACITY: nat := 2 * MESSAGE_MAX_LEN

  datatype NostrBridgeError =
    | NostrFailure(nostr: NostrError)
    | BridgeFailure(bridge: BridgeError)
    | WrongKind(actual: U16)
    | MissingTag(tag: string)
    | CommunityTagMismatch
    | NostrAuthorPubkeyMismatch

  function OfNostr<T>(r: Result<T, NostrError>): Result<T, NostrBridgeError> {
    if r.Ok? then Ok(r.value) else Err(NostrFailure(r.error))
  }

  function OfBridge<T>(r: Result<T, BridgeError>): Result<T, NostrBridgeError> {
    if r.Ok? then Ok(r.value) else Err(BridgeFailure(r.error))
  }

  // ---- messages into events ----

  function EncodeContent(raw: Bytes): Result<string, NostrBridgeError> {
    var _ :- OfBridge(BridgeCodec.DecodeBridge(raw));
    if 2 * |raw| > CONTENT_CAPACITY then Err(NostrFailure(NostrError.OutputTooSmall(2 * |raw|, CONTENT_CAPACITY)))
    else Ok(Hex.HexText(raw))
  }

  function BridgeTags(roomId: Bytes16): seq<Tag> {
    [HYF_TAG, ["community", Hex.HexText(roomId)], ALT_TAG]
  }

  function ToEvent(c: Crypto, signer: Signer, raw: Bytes, secret: Bytes32, createdAt: U64): Result<Event, NostrBridgeError> {
    var m :- OfBridge(BridgeCodec.DecodeBridge(raw));
    var content :- EncodeContent(raw);
    var pubkey :- OfNostr(signer.publicKey(secret));
    var _ :- OfNostr(ValidateContentLen(content));
    OfNostr(SignEvent(c, signer, UnsignedEvent(pubkey, createdAt, BRIDGE_EVENT_KIND, BridgeTags(m.roomId), content), secret))
  }

  // ---- events into messages ----

  function RequireTag(tags: seq<Tag>, expected: seq<string>, name: string): Result<(), NostrBridgeError> {
    if exists i | 0 <= i < |tags| :: tags[i] == expected then Ok(()) else Err(MissingTag(name))
  }

  /** The first two-valued "community" tag decides. */
  function RequireCommunity(tags: seq<Tag>): (r: Result<Bytes, NostrBridgeError>)
    ensures r.Ok? ==> |r.value| == 16
  {
    if tags == [] then Err(MissingTag("community"))
    else if |tags[0]| == 2 && tags[0][0] == "community" then OfNostr(Hex.DecodeFixed(16, tags[0][1]))
    else RequireCommunity(tags[1..])
  }

  predicate AuthorRule(pubkey: Bytes32, m: BridgeMessage) {
    m.author.kind == Foreign(Nostr) ==> m.author.id == pubkey
  }

  function DecodeContent(content: string, available: nat): Result<Bytes, NostrBridgeError> {
    var raw :- OfNostr(Hex.DecodeLowerHex(Utf8.Encode(content), available));
    var _ :- OfBridge(BridgeCodec.DecodeBridge(raw));
    Ok(raw)
  }

  datatype Ingress = Ingress(raw: Bytes, message: BridgeMessage)

  function OfEvent(c: Crypto, e: Event, available: nat): Result<Ingress, NostrBridgeError> {
    var _ :- OfNostr(VerifyEvent(c, e));
    if e.kind != BRIDGE_EVENT_KIND then Err(WrongKind(e.kind))
    else
      var _ :- RequireTag(e.tags, HYF_TAG, "hyf");
      var _ :- RequireTag(e.tags, ALT_TAG, "alt");
      var community :- RequireCommunity(e.tags);
      var raw :- DecodeContent(e.content, available);
      var m :- OfBridge(BridgeCodec.DecodeBridge(raw));
      if community != m.roomId then Err(CommunityTagMismatch)
      else if !AuthorRule(e.pubkey, m) then Err(NostrAuthorPubkeyMismatch)
      else Ok(Ingress(raw, m))
  }

  // ---- round trip ----

  lemma BridgeTagsPresent(roomId: Bytes16)
    ensures RequireTag(BridgeTags(roomId), HYF_TAG, "hyf") == Ok(()) && RequireTag(BridgeTags(roomId), ALT_TAG, "alt") == Ok(())
    ensures RequireCommunity(BridgeTags(roomId)) == Ok(roomId)
  {
    hide Hex.HexText, Hex.DecodeFixed;
    var tags := BridgeTags(roomId);
    assert tags[0] == HYF_TAG && tags[2] == ALT_TAG;
    assert |tags[0]| == 3 && |tags[1]| == 2 && tags[1][0] == "community";
    assert RequireCommunity(tags) == RequireCommunity(tags[1..]);
    assert tags[1..][0] == tags[1];
    Hex.DecodeFixedIff(16, Hex.HexText(roomId), roomId);
  }

  lemma RawSize(raw: Bytes, m: BridgeMessage)
    requires BridgeCodec.DecodeBridge(raw) == Ok(m)
    ensures |raw| <= 1119
  {
    hide BridgeCodec.DecodeBridge, BridgeCodec.ValidateMessage, BridgeCodec.EncodeBridge, BridgeCodec.EncodedLen;
    BridgeCodec.BridgeWireBijection(raw, m);
    BridgeCodec.LengthIsExact(m);
  }

  /** Every valid bridge message becomes an event, unless key derivation or signing fail. */
  lemma ToEventShape(c: Crypto, signer: Signer, raw: Bytes, secret: Bytes32, createdAt: U64)
    ensures ToEvent(c, signer, raw, secret, createdAt).Ok? ==>
      && BridgeCodec.DecodeBridge(raw).Ok? && signer.publicKey(secret).Ok?
      && var e, m := ToEvent(c, signer, raw, secret, createdAt).value, BridgeCodec.DecodeBridge(raw).value;
      && e.Unsigned() == UnsignedEvent(signer.publicKey(secret).value, createdAt, BRIDGE_EVENT_KIND, BridgeTags(m.roomId), Hex.HexText(raw))
      && (Honest(c, signer) ==> VerifyEvent(c, e) == Ok(()))
    ensures BridgeCodec.DecodeBridge(raw).Ok? && signer.publicKey(secret).Ok? && (forall id :: signer.signId(secret, id).Ok?) ==>
      ToEvent(c, signer, raw, secret, createdAt).Ok?
  {
    hide BridgeCodec.DecodeBridge, Hex.HexText, VerifyEvent, BridgeTags, Honest;
    if BridgeCodec.DecodeBridge(raw).Ok? && signer.publicKey(secret).Ok? {
      var m := BridgeCodec.DecodeBridge(raw).value;
      RawSize(raw, m);
      HexDecodes(raw, 0);
      var unsigned := UnsignedEvent(signer.publicKey(secret).value, createdAt, BRIDGE_EVENT_KIND, BridgeTags(m.roomId), Hex.HexText(raw));
      if SignEvent(c, signer, unsigned, secret).Ok? && Honest(c, signer) {
        SignedVerifies(c, signer, unsigned, secret);
      }
    }
  }

  /** Into an event and back: the same bytes, exactly when a Nostr author signs as itself. */
  lemma BridgeEventRoundTrip(c: Crypto, signer: Signer, raw: Bytes, secret: Bytes32, createdAt: U64, available: nat)
    requires |raw| <= available
    ensures ToEvent(c, signer, raw, secret, createdAt).Ok? ==> BridgeCodec.DecodeBridge(raw).Ok?
    ensures Honest(c, signer) && ToEvent(c, signer, raw, secret, createdAt).Ok? ==>
      var e, m := ToEvent(c, signer, raw, secret, createdAt).value, BridgeCodec.DecodeBridge(raw).value;
      OfEvent(c, e, available) == if AuthorRule(e.pubkey, m) then Ok(Ingress(raw, m)) else Err(NostrAuthorPubkeyMismatch)
  {
    hide BridgeCodec.DecodeBridge, Hex.HexText, Hex.DecodeLowerHex, VerifyEvent, BridgeTags, RequireTag, RequireCommunity, ToEvent, Honest, AuthorRule;
    ToEventShape(c, signer, raw, secret, createdAt);
    HexDecodes(raw, available);
    if ToEvent(c, signer, raw, secret, createdAt).Ok? {
      BridgeTagsPresent(BridgeCodec.DecodeBridge(raw).value.roomId);
    }
  }

  /** What an accepted event proves: its signature holds, its content is the raw message, and
      its community tag names the message's room. */
  lemma AcceptedEventMeans(c: Crypto, e: Event, available: nat)
    ensures OfEvent(c, e, available).Ok? ==>
      var got := OfEvent(c, e, available).value;
      && VerifyEvent(c, e).Ok? && e.kind == BRIDGE_EVENT_KIND
      && e.content == Hex.HexText(got.raw) && BridgeCodec.DecodeBridge(got.raw) == Ok(got.message)
      && got.raw == BridgeCodec.EncodeBridge(got.message) && AuthorRule(e.pubkey, got.message)
      && RequireCommunity(e.tags) == Ok(got.message.roomId)
  {
    hide BridgeCodec.DecodeBridge, BridgeCodec.EncodeBridge, BridgeCodec.ValidateMessage, Hex.HexText, VerifyEvent, RequireTag,
      RequireCommunity, AuthorRule;
    if OfEvent(c, e, available).Ok? {
      var got := OfEvent(c, e, available).value;
      BridgeCodec.BridgeWireBijection(got.raw, got.message);
      AcceptedHex(e.content, available, got.raw);
    }
  }

  lemma AcceptedHex(content: string, available: nat, raw: Bytes)
    requires Hex.DecodeLowerHex(Utf8.Encode(content), available) == Ok(raw)
    ensures content == Hex.HexText(raw)
  {
    var s := Utf8.Encode(content);
    assert Hex.DecodePairs(s, 0) == Ok(raw);
    hide Hex.DecodePairs;
    assert Hex.DecodeFixed(|raw|, content) == Ok(raw) by {
      SameDecoding(s, available, |raw|, raw);
    }
    Hex.DecodeFixedIff(|raw|, content, raw);
  }

  lemma SameDecoding(s: Bytes, available: nat, n: nat, raw: Bytes)
    requires Hex.DecodeLowerHex(s, available) == Ok(raw) && n == |raw|
    ensures |s| == 2 * n && Hex.DecodeLowerHex(s, n) == Ok(raw)
  {
  }

  // ---- the event text ----

  /** Text whose characters stand for themselves inside quotes. */
  predicate Unescaped(text: string) {
    forall i | 0 <= i < |text| :: 0x20 <= text[i] as int < 0x80 && text[i] != '"' && text[i] != '\\'
  }

  lemma {:induction false} UnescapedLength(text: string)
    requires Unescaped(text)
    ensures |Escape(text)| == |text|
  {
    if text != [] {
      UnescapedLength(text[1..]);
    }
  }

  lemma NibbleStands(v: nat)
    requires v < 16
    ensures var ch := Hex.NibbleChar(v); 0x20 <= ch as int < 0x80 && ch != '"' && ch != '\\'
  {
  }

  lemma HexIsUnescaped(bytes: Bytes)
    ensures Unescaped(Hex.HexText(bytes)) && |PrintString(Hex.HexText(bytes))| == 2 * |bytes| + 2
  {
    hide Hex.HexText, Hex.NibbleChar;
    var text := Hex.HexText(bytes);
    forall i | 0 <= i < |text| ensures 0x20 <= text[i] as int < 0x80 && text[i] != '"' && text[i] != '\\' {
      var b: int := bytes[i / 2];
      assert i == 2 * (i / 2) || i == 2 * (i / 2) + 1;
      NibbleStands(b / 16);
      NibbleStands(b % 16);
    }
    UnescapedLength(text);
  }

  lemma StringLength(text: string)
    requires Unescaped(text)
    ensures |PrintString(text)| == |text| + 2
  {
    UnescapedLength(text);
  }

  lemma MemberLength(name: string, v: JsonValue)
    requires Unescaped(name)
    ensures |PrintMember(Member(name, v))| == |name| + 3 + |Print(v)|
  {
    hide Print;
    StringLength(name);
  }

  lemma ThreeItems(a: JsonValue, b: JsonValue, c: JsonValue)
    ensures |Print(Array([a, b, c]))| == |Print(a)| + |Print(b)| + |Print(c)| + 4
  {
    assert [a, b, c][1..] == [b, c] && [b, c][1..] == [c];
    assert PrintItems([b, c]) == Print(b) + [0x2C] + PrintItems([c]);
    assert PrintItems([a, b, c]) == Print(a) + [0x2C] + PrintItems([b, c]);
  }

  lemma TwoItems(a: JsonValue, b: JsonValue)
    ensures |Print(Array([a, b]))| == |Print(a)| + |Print(b)| + 3
  {
    assert [a, b][1..] == [b];
    assert PrintItems([a, b]) == Print(a) + [0x2C] + PrintItems([b]);
  }

  lemma HyfTagLength()
    ensures |Print(Array(Messages.Strs(HYF_TAG)))| == 21
  {
    hide Print;
    assert Messages.Strs(HYF_TAG) == [Str("hyf"), Str("bridge"), Str("v0")];
    ThreeItems(Str("hyf"), Str("bridge"), Str("v0"));
    PrintedStr("hyf");
    PrintedStr("bridge");
    PrintedStr("v0");
  }

  lemma CommunityTagLength(roomId: Bytes16)
    ensures |Print(Array(Messages.Strs(["community", Hex.HexText(roomId)])))| == 48
  {
    hide Print, Hex.HexText;
    assert Messages.Strs(["community", Hex.HexText(roomId)]) == [Str("community"), Str(Hex.HexText(roomId))];
    TwoItems(Str("community"), Str(Hex.HexText(roomId)));
    PrintedStr("community");
    HexIsUnescaped(roomId);
    PrintedStr(Hex.HexText(roomId));
  }

  lemma AltTagLength()
    ensures |Print(Array(Messages.Strs(ALT_TAG)))| == 28
  {
    hide Print;
    assert Messages.Strs(ALT_TAG) == [Str("alt"), Str("HYF bridge message")];
    TwoItems(Str("alt"), Str("HYF bridge message"));
    PrintedStr("alt");
    PrintedStr("HYF bridge message");
  }

  lemma TagsLength(roomId: Bytes16)
    ensures |Print(Messages.TagsJson(BridgeTags(roomId)))| == 101
  {
    hide Print, Hex.HexText, Messages.Strs;
    var community := ["community", Hex.HexText(roomId)];
    var a, b, c := Array(Messages.Strs(HYF_TAG)), Array(Messages.Strs(community)), Array(Messages.Strs(ALT_TAG));
    assert Messages.TagsJson(BridgeTags(roomId)) == Array([a, b, c]);
    ThreeItems(a, b, c);
    HyfTagLength();
    CommunityTagLength(roomId);
    AltTagLength();
  }

  lemma PrintedStr(text: string)
    requires Unescaped(text)
    ensures |Print(Str(text))| == |text| + 2
  {
    StringLength(text);
  }

  lemma {:induction false} MembersLength(members: seq<Member>, k: nat, total: nat)
    requires k < |members| && |PrintMembers(members[..k])| <= total
    ensures |PrintMembers(members[..k + 1])| <= total + 1 + |PrintMember(members[k])|
  {
    hide PrintMembers, PrintMember;
    MembersStep(members, k);
  }

  /** The text of a bridge event always fits the buffer it is written to, with the largest
      message and numbers. */
  lemma EventTextFits(c: Crypto, signer: Signer, raw: Bytes, secret: Bytes32, createdAt: U64)
    ensures ToEvent(c, signer, raw, secret, createdAt).Ok? ==>
      |Print(Messages.EventJson(ToEvent(c, signer, raw, secret, createdAt).value))| <= EVENT_JSON_MAX_LEN
  {
    hide ToEvent, Print, Messages.EventJson, BridgeCodec.DecodeBridge, Hex.HexText, BridgeTags, Honest, VerifyEvent;
    ToEventShape(c, signer, raw, secret, createdAt);
    if ToEvent(c, signer, raw, secret, createdAt).Ok? {
      var e := ToEvent(c, signer, raw, secret, createdAt).value;
      var m := BridgeCodec.DecodeBridge(raw).value;
      RawSize(raw, m);
      EventTextLength(e, raw, m.roomId);
    }
  }

  lemma EventTextLength(e: Event, raw: Bytes, roomId: Bytes16)
    requires |raw| <= MESSAGE_MAX_LEN && e.content == Hex.HexText(raw) && e.tags == BridgeTags(roomId)
    ensures |Print(Messages.EventJson(e))| <= EVENT_JSON_MAX_LEN
  {
    hide Print, PrintMember, PrintMembers, Messages.EventMembers, Hex.HexText, BridgeTags;
    EventPartsLength(e, raw, roomId);
    SevenMembers(Messages.EventMembers(e));
  }

  lemma SevenMembers(members: seq<Member>)
    requires |members| == 7
    requires |PrintMember(members[0])| == 71 && |PrintMember(members[1])| == 75
    requires |PrintMember(members[2])| <= 33 && |PrintMember(members[3])| <= 27
    requires |PrintMember(members[4])| == 108 && |PrintMember(members[5])| <= 3084 && |PrintMember(members[6])| == 136
    ensures |Print(Object(members))| <= 3543
  {
    hide Print, PrintMember, PrintMembers;
    EmptyLayouts();
    assert members[..0] == [];
    MembersLength(members, 0, 0);
    MembersLength(members, 1, 72);
    MembersLength(members, 2, 148);
    MembersLength(members, 3, 182);
    MembersLength(members, 4, 210);
    MembersLength(members, 5, 319);
    MembersLength(members, 6, 3404);
    assert members[..7] == members;
    JsonPieces.ObjectLength(members);
  }

  lemma EventPartsLength(e: Event, raw: Bytes, roomId: Bytes16)
    requires |raw| <= MESSAGE_MAX_LEN && e.content == Hex.HexText(raw) && e.tags == BridgeTags(roomId)
    ensures var members := Messages.EventMembers(e);
      && |members| == 7
      && |PrintMember(members[0])| == 71 && |PrintMember(members[1])| == 75
      && |PrintMember(members[2])| <= 33 && |PrintMember(members[3])| <= 27
      && |PrintMember(members[4])| == 108 && |PrintMember(members[5])| <= 3084 && |PrintMember(members[6])| == 136
  {
    hide PrintMember, Print, Hex.HexText, Messages.TagsJson, BridgeTags;
    HexMembersLength(e, raw);
    NumberMemberLength("created_at", e.createdAt);
    NumberMemberLength("kind", e.kind);
    TagsMemberLength(roomId);
  }

  lemma HexMembersLength(e: Event, raw: Bytes)
    requires |raw| <= MESSAGE_MAX_LEN
    ensures |PrintMember(Member("id", Str(Hex.HexText(e.id))))| == 71
    ensures |PrintMember(Member("pubkey", Str(Hex.HexText(e.pubkey))))| == 75
    ensures |PrintMember(Member("content", Str(Hex.HexText(raw))))| <= 3084
    ensures |PrintMember(Member("sig", Str(Hex.HexText(e.sig))))| == 136
  {
    hide PrintMember, Hex.HexText;
    HexMember("id", e.id);
    HexMember("pubkey", e.pubkey);
    HexMember("content", raw);
    HexMember("sig", e.sig);
  }

  lemma TagsMemberLength(roomId: Bytes16)
    ensures |PrintMember(Member("tags", Messages.TagsJson(BridgeTags(roomId))))| == 108
  {
    hide PrintMember, Print, Messages.TagsJson, BridgeTags;
    TagsLength(roomId);
    MemberLength("tags", Messages.TagsJson(BridgeTags(roomId)));
  }

  lemma HexMember(name: string, bytes: Bytes)
    requires Unescaped(name)
    ensures |PrintMember(Member(name, Str(Hex.HexText(bytes))))| == |name| + 2 * |bytes| + 5
  {
    hide Hex.HexText, PrintString, PrintMember;
    HexIsUnescaped(bytes);
    MemberLength(name, Str(Hex.HexText(bytes)));
  }

  lemma NumberMemberLength(name: string, n: U64)
    requires Unescaped(name)
    ensures |PrintMember(Member(name, Number(n)))| <= |name| + 23
  {
    hide PrintMember;
    U64Fits(n);
    MemberLength(name, Number(n));
  }

  /** Reading the event text back gives the event. */
  lemma EventTextReadsBack(e: Event)
    ensures Parse(Print(Messages.EventJson(e))).Ok? && Messages.ParseEvent(Parse(Print(Messages.EventJson(e))).value) == Ok(e)
  {
    hide Print, Parse, Messages.EventJson, Messages.ParseEvent;
    JsonRoundTrip.ParsePrint(Messages.EventJson(e));
    MessageRoundTrip.EventReadsBack(e);
  }
}
