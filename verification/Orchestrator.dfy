/** The bridge orchestrator on values: one raw message in, an envelope and one output per
    selected protocol out, or nothing at all. */
module Orchestrator {
  import opened Base
  import opened BridgeTypes
  import opened Policy
  import opened NostrTypes
  import opened Signing
  import BitchatBridge
  import BridgeCodec
  import Dedupe
  import Json
  import Messages
  import NostrBridge

  datatype LxmfError = LxmfRefused(code: nat) | LxmfTooLarge(actual: nat, maximum: nat)

  datatype RuntimeError =
    | BitchatError(bitchat: BitchatBridge.BitchatBridgeError)
    | BridgeErr(bridge: BridgeError)
    | DedupeCapacityZero
    | LxmfErr(lxmf: LxmfError)
    | NostrErr(nostr: NostrBridge.NostrBridgeError)
    | CommandsTooSmall(actual: nat, required: nat)

  datatype WrapParams = WrapParams(sourceNode: Bytes32, createdAt: U64, expiresAt: U64, hopLimit: Byte)

  /** The envelope a bridge message travels in, addressed to its room. */
  datatype Envelope = Envelope(messageId: Bytes32, source: Bytes32, community: Bytes16, createdAt: U64, expiresAt: U64,
                               hopLimit: Byte, payload: Bytes)

  datatype NostrParams = NostrParams(secret: Bytes32, createdAt: U64)

  datatype Params = Params(wrap: WrapParams, bitchat: Option<BitchatBridge.EgressParams>, lxmf: bool, nostr: Option<NostrParams>)

  /** What the model does not look into: cryptography, envelope validation, and the LXMF
      encoder with its parameters applied. */
  datatype Env = Env(crypto: Crypto, signer: Signer, envelopeOk: Envelope -> bool,
                     lxmf: BridgeMessage -> Result<Bytes, LxmfError>, lxmfMax: nat)

  datatype DropReason = DuplicateMessage | UnsupportedProfile

  /** What a command tells its receiver to do, with the bytes themselves. */
  datatype Action =
    | EmitEnvelope(envelope: Envelope)
    | EmitPacket(protocol: Protocol, bytes: Bytes)
    | Drop(key: MessageKey, reason: DropReason)

  function KeyOf(m: BridgeMessage): MessageKey {
    MessageKey(m.roomId, m.messageId)
  }

  function Wrap(env: Env, raw: Bytes, params: WrapParams): Result<Envelope, RuntimeError> {
    var decoded := BridgeCodec.DecodeBridge(raw);
    if decoded.Err? then Err(BridgeErr(decoded.error))
    else
      var m := decoded.value;
      var envelope := Envelope(m.messageId, params.sourceNode, m.roomId, params.createdAt, params.expiresAt, params.hopLimit, raw);
      if env.envelopeOk(envelope) then Ok(envelope) else Err(BridgeErr(HyfWire))
  }

  /** A protocol's encoding of the message; None where there is no profile for it. */
  function EgressBytes(env: Env, m: BridgeMessage, raw: Bytes, params: Params, p: Protocol): Result<Option<Bytes>, RuntimeError> {
    match p
    case BitChatProtocol =>
      if params.bitchat.None? then Ok(None)
      else
        (match BitchatBridge.Egress(m, params.bitchat.value, BitchatBridge.PACKET_MAX_LEN)
         case Err(e) => Err(BitchatError(e))
         case Ok(bytes) => Ok(Some(bytes)))
    case LxmfProtocol =>
      if !params.lxmf then Ok(None)
      else
        (match env.lxmf(m)
         case Err(e) => Err(LxmfErr(e))
         case Ok(bytes) => if |bytes| > env.lxmfMax then Err(LxmfErr(LxmfTooLarge(|bytes|, env.lxmfMax))) else Ok(Some(bytes)))
    case NostrProtocol =>
      if params.nostr.None? then Ok(None)
      else
        (match NostrBridge.ToEvent(env.crypto, env.signer, raw, params.nostr.value.secret, params.nostr.value.createdAt)
         case Err(e) => Err(NostrErr(e))
         case Ok(event) => Ok(Some(Json.Print(Messages.EventJson(event)))))
    case HyfProtocol => Ok(None)
  }

  /** The plans for the first `k` selected protocols; the first failure stops. */
  function Plans(env: Env, m: BridgeMessage, raw: Bytes, params: Params, selected: seq<Protocol>, k: nat)
    : (r: Result<seq<Option<Bytes>>, RuntimeError>)
    requires k <= |selected|
    ensures r.Ok? ==> |r.value| == k
  {
    if k == 0 then Ok([])
    else
      var before :- Plans(env, m, raw, params, selected, k - 1);
      var last :- EgressBytes(env, m, raw, params, selected[k - 1]);
      Ok(before + [last])
  }

  function ActionFor(key: MessageKey, p: Protocol, plan: Option<Bytes>): Action {
    if plan.Some? then EmitPacket(p, plan.value) else Drop(key, UnsupportedProfile)
  }

  function Actions(key: MessageKey, selected: seq<Protocol>, plans: seq<Option<Bytes>>): (actions: seq<Action>)
    requires |plans| == |selected|
    ensures |actions| == |selected|
  {
    seq(|selected|, i requires 0 <= i < |selected| => ActionFor(key, selected[i], plans[i]))
  }

  function EnsureCapacity(commands: nat, required: nat): Result<(), RuntimeError> {
    if commands < required then Err(CommandsTooSmall(commands, required)) else Ok(())
  }

  /** Planned first, committed last: the window of the dedupe ring of capacity `n` changes
      only when everything else has succeeded. */
  function Emit(env: Env, n: nat, window: seq<MessageKey>, policy: RoutePolicy, origin: Protocol, raw: Bytes, params: Params, commands: nat)
    : (seq<MessageKey>, Result<seq<Action>, RuntimeError>)
  {
    var decoded := BridgeCodec.DecodeBridge(raw);
    if decoded.Err? then (window, Err(BridgeErr(decoded.error)))
    else if KeyOf(decoded.value) in window then
      var room := EnsureCapacity(commands, 1);
      (window, if room.Err? then Err(room.error) else Ok([Drop(KeyOf(decoded.value), DuplicateMessage)]))
    else Dispatch(env, n, window, policy, origin, raw, decoded.value, params, commands)
  }

  function Dispatch(env: Env, n: nat, window: seq<MessageKey>, policy: RoutePolicy, origin: Protocol, raw: Bytes, m: BridgeMessage,
                    params: Params, commands: nat)
    : (seq<MessageKey>, Result<seq<Action>, RuntimeError>)
  {
    var selected := Selected(policy, origin);
    var planned := Prepare(env, selected, raw, m, params, commands);
    if planned.Err? then (window, Err(planned.error))
    else
      var (next, r) := Dedupe.Offer(n, window, KeyOf(m));
      if r.Err? then (next, Err(DedupeCapacityZero))
      else (next, Ok([EmitEnvelope(planned.value.envelope)] + Actions(KeyOf(m), selected, planned.value.plans)))
  }

  /** A BitChat packet, put into a room under an id the caller chooses. */
  function FromBitchat(env: Env, n: nat, window: seq<MessageKey>, policy: RoutePolicy, raw: Bytes, roomId: Bytes16, messageId: Bytes32,
                       params: Params, commands: nat)
    : (seq<MessageKey>, Result<seq<Action>, RuntimeError>)
  {
    match BitchatBridge.Ingress(raw, roomId, messageId)
    case Err(e) => (window, Err(BitchatError(e)))
    case Ok(m) =>
      var len := BridgeCodec.EncodedLen(m);
      if len.Err? then (window, Err(BridgeErr(len.error)))
      else Emit(env, n, window, policy, BitChatProtocol, BridgeCodec.EncodeBridge(m), params, commands)
  }

  function FromNostr(env: Env, n: nat, window: seq<MessageKey>, policy: RoutePolicy, e: Event, params: Params, commands: nat)
    : (seq<MessageKey>, Result<seq<Action>, RuntimeError>)
  {
    match NostrBridge.OfEvent(env.crypto, e, MESSAGE_MAX_LEN)
    case Err(error) => (window, Err(NostrErr(error)))
    case Ok(ingress) => Emit(env, n, window, policy, NostrProtocol, ingress.raw, params, commands)
  }

  datatype Prepared = Prepared(envelope: Envelope, plans: seq<Option<Bytes>>)

  function Prepare(env: Env, selected: seq<Protocol>, raw: Bytes, m: BridgeMessage, params: Params, commands: nat)
    : (r: Result<Prepared, RuntimeError>)
    ensures r.Ok? ==> |r.value.plans| == |selected| && 1 + |selected| <= commands
  {
    var _ :- EnsureCapacity(commands, 1 + |selected|);
    var envelope :- Wrap(env, raw, params.wrap);
    var plans :- Plans(env, m, raw, params, selected, |selected|);
    Ok(Prepared(envelope, plans))
  }

  // ---- what a call guarantees ----

  lemma {:induction false} PlansAreEncodings(env: Env, m: BridgeMessage, raw: Bytes, params: Params, selected: seq<Protocol>, k: nat)
    requires k <= |selected| && Plans(env, m, raw, params, selected, k).Ok?
    ensures forall i | 0 <= i < k ::
      EgressBytes(env, m, raw, params, selected[i]) == Ok(Plans(env, m, raw, params, selected, k).value[i])
  {
    hide EgressBytes;
    if k > 0 {
      PlansAreEncodings(env, m, raw, params, selected, k - 1);
    }
  }

  /** All or nothing, and faithful: an error leaves the window alone; otherwise a known key
      yields one drop, and a new one the envelope around exactly the raw message followed by
      each selected protocol's own encoding, once each, in order. */
  lemma EmitMeans(env: Env, n: nat, window: seq<MessageKey>, policy: RoutePolicy, origin: Protocol, raw: Bytes, params: Params, commands: nat)
    requires |window| <= n
    ensures var (next, r) := Emit(env, n, window, policy, origin, raw, params, commands);
      && (r.Err? ==> next == window)
      && (r.Ok? ==>
            && BridgeCodec.DecodeBridge(raw).Ok?
            && var m := BridgeCodec.DecodeBridge(raw).value;
               var selected := Selected(policy, origin);
               if KeyOf(m) in window then next == window && r.value == [Drop(KeyOf(m), DuplicateMessage)]
               else
                 && n > 0 && next == Dedupe.Offer(n, window, KeyOf(m)).0
                 && |r.value| == 1 + |selected| <= commands
                 && r.value[0].EmitEnvelope? && r.value[0].envelope.payload == raw && env.envelopeOk(r.value[0].envelope)
                 && r.value[0].envelope.community == m.roomId && r.value[0].envelope.messageId == m.messageId
                 && r.value[0].envelope.source == params.wrap.sourceNode && r.value[0].envelope.hopLimit == params.wrap.hopLimit
                 && r.value[0].envelope.createdAt == params.wrap.createdAt && r.value[0].envelope.expiresAt == params.wrap.expiresAt
                 && forall i | 0 <= i < |selected| ::
                      && EgressBytes(env, m, raw, params, selected[i]).Ok?
                      && r.value[i + 1] == ActionFor(KeyOf(m), selected[i], EgressBytes(env, m, raw, params, selected[i]).value))
  {
    hide BridgeCodec.DecodeBridge, Selected, EgressBytes;
    var decoded := BridgeCodec.DecodeBridge(raw);
    if decoded.Ok? && KeyOf(decoded.value) !in window {
      var selected := Selected(policy, origin);
      if Prepare(env, selected, raw, decoded.value, params, commands).Ok? {
        PlansAreEncodings(env, decoded.value, raw, params, selected, |selected|);
      }
    }
  }

  /** Messages are told apart by room and id, and by nothing else. */
  lemma KeyTells(a: BridgeMessage, b: BridgeMessage)
    ensures KeyOf(a) == KeyOf(b) <==> a.roomId == b.roomId && a.messageId == b.messageId
  {
  }

  /** What each protocol's output is, and where there is none. */
  lemma EgressMeans(env: Env, m: BridgeMessage, raw: Bytes, params: Params, p: Protocol)
    ensures var r := EgressBytes(env, m, raw, params, p);
      && (r == Ok(None) <==>
            || p == HyfProtocol || (p == BitChatProtocol && params.bitchat.None?) || (p == LxmfProtocol && !params.lxmf)
            || (p == NostrProtocol && params.nostr.None?))
      && (p == LxmfProtocol && params.lxmf ==>
            && (r.Ok? <==> env.lxmf(m).Ok? && |env.lxmf(m).value| <= env.lxmfMax)
            && (r.Ok? ==> r.value == Some(env.lxmf(m).value))
            && (env.lxmf(m).Err? ==> r == Err(LxmfErr(env.lxmf(m).error))))
      && (p == BitChatProtocol && params.bitchat.Some? ==>
            var packet := BitchatBridge.Egress(m, params.bitchat.value, 2048);
            r == if packet.Ok? then Ok(Some(packet.value)) else Err(BitchatError(packet.error)))
      && (p == NostrProtocol && params.nostr.Some? ==>
            var event := NostrBridge.ToEvent(env.crypto, env.signer, raw, params.nostr.value.secret, params.nostr.value.createdAt);
            r == if event.Ok? then Ok(Some(Json.Print(Messages.EventJson(event.value)))) else Err(NostrErr(event.error)))
  {
    hide BitchatBridge.Egress, NostrBridge.ToEvent, Json.Print, Messages.EventJson;
  }

  ghost predicate AllEncode(env: Env, m: BridgeMessage, raw: Bytes, params: Params, selected: seq<Protocol>) {
    forall i | 0 <= i < |selected| :: EgressBytes(env, m, raw, params, selected[i]).Ok?
  }

  /** Exactly when a call succeeds: for a known message, with room for one command; for a new
      one, with room for all, a valid envelope, an encoding for each selected protocol, and a
      ring that can hold its key. */
  lemma EmitSucceedsIff(env: Env, n: nat, window: seq<MessageKey>, policy: RoutePolicy, origin: Protocol, raw: Bytes, params: Params, commands: nat)
    ensures Emit(env, n, window, policy, origin, raw, params, commands).1.Ok? <==>
      && BridgeCodec.DecodeBridge(raw).Ok?
      && var m, selected := BridgeCodec.DecodeBridge(raw).value, Selected(policy, origin);
         if KeyOf(m) in window then commands >= 1
         else
           && commands >= 1 + |selected| && n > 0 && AllEncode(env, m, raw, params, selected)
           && env.envelopeOk(Envelope(m.messageId, params.wrap.sourceNode, m.roomId, params.wrap.createdAt, params.wrap.expiresAt,
                                      params.wrap.hopLimit, raw))
    ensures BridgeCodec.DecodeBridge(raw).Err? ==>
      Emit(env, n, window, policy, origin, raw, params, commands).1 == Err(BridgeErr(BridgeCodec.DecodeBridge(raw).error))
    ensures BridgeCodec.DecodeBridge(raw).Ok? ==>
      var needed := if KeyOf(BridgeCodec.DecodeBridge(raw).value) in window then 1 else 1 + |Selected(policy, origin)|;
      commands < needed ==> Emit(env, n, window, policy, origin, raw, params, commands).1 == Err(CommandsTooSmall(commands, needed))
  {
    hide BridgeCodec.DecodeBridge, Selected, EgressBytes, Plans, AllEncode;
    var decoded := BridgeCodec.DecodeBridge(raw);
    if decoded.Ok? {
      PlansSucceedIff(env, decoded.value, raw, params, Selected(policy, origin), |Selected(policy, origin)|);
      AllOf(env, decoded.value, raw, params, Selected(policy, origin));
    }
  }

  lemma AllOf(env: Env, m: BridgeMessage, raw: Bytes, params: Params, selected: seq<Protocol>)
    ensures AllEncode(env, m, raw, params, selected) <==>
      forall i | 0 <= i < |selected| :: EgressBytes(env, m, raw, params, selected[i]).Ok?
  {
    hide EgressBytes;
  }

  lemma {:induction false} PlansSucceedIff(env: Env, m: BridgeMessage, raw: Bytes, params: Params, selected: seq<Protocol>, k: nat)
    requires k <= |selected|
    ensures Plans(env, m, raw, params, selected, k).Ok? <==>
      forall i | 0 <= i < k :: EgressBytes(env, m, raw, params, selected[i]).Ok?
  {
    hide EgressBytes;
    if k > 0 {
      PlansSucceedIff(env, m, raw, params, selected, k - 1);
    }
  }

  /** No output goes back where the message came from unless echo is allowed, and none is
      sent twice. */
  lemma NoEchoNoRepeat(env: Env, n: nat, window: seq<MessageKey>, policy: RoutePolicy, origin: Protocol, raw: Bytes, params: Params, commands: nat)
    requires |window| <= n
    ensures Emit(env, n, window, policy, origin, raw, params, commands).1.Ok? ==>
      var actions := Emit(env, n, window, policy, origin, raw, params, commands).1.value;
      && (forall i | 0 <= i < |actions| && actions[i].EmitPacket? :: actions[i].protocol == origin ==> policy.allowEcho)
      && (forall i, j | 0 <= i < j < |actions| && actions[i].EmitPacket? && actions[j].EmitPacket? ::
            actions[i].protocol != actions[j].protocol)
  {
    hide Selected, EgressBytes, BridgeCodec.DecodeBridge, Emit;
    EmitMeans(env, n, window, policy, origin, raw, params, commands);
    SelectionMeans(policy, origin);
    if Emit(env, n, window, policy, origin, raw, params, commands).1.Ok? {
      var actions := Emit(env, n, window, policy, origin, raw, params, commands).1.value;
      var selected := Selected(policy, origin);
      assert origin in selected ==> policy.allowEcho;
      forall i | 0 <= i < |actions| && actions[i].EmitPacket? ensures 0 < i <= |selected| && actions[i].protocol == selected[i - 1] {
        if i > 0 {
          assert i - 1 + 1 == i;
          assert actions[i - 1 + 1] == actions[i];
        }
      }
    }
  }

  // ---- what receivers make of the outputs ----

  /** The text sent to Nostr parses to an event that reads back as the very raw message,
      unless a Nostr author's message was signed under another key. */
  lemma NostrOutputReadsBack(env: Env, m: BridgeMessage, raw: Bytes, params: Params, text: Bytes, available: nat)
    requires |raw| <= available
    ensures EgressBytes(env, m, raw, params, NostrProtocol) == Ok(Some(text)) ==>
      Json.Parse(text).Ok? && Messages.ParseEvent(Json.Parse(text).value).Ok?
    ensures EgressBytes(env, m, raw, params, NostrProtocol) == Ok(Some(text)) && Honest(env.crypto, env.signer)
            && BridgeCodec.DecodeBridge(raw) == Ok(m) ==>
      var e := Messages.ParseEvent(Json.Parse(text).value).value;
      NostrBridge.OfEvent(env.crypto, e, available) ==
        if NostrBridge.AuthorRule(e.pubkey, m) then Ok(NostrBridge.Ingress(raw, m)) else Err(NostrBridge.NostrAuthorPubkeyMismatch)
  {
    hide Json.Parse, Json.Print, Messages.ParseEvent, Messages.EventJson, NostrBridge.OfEvent, NostrBridge.ToEvent, Honest,
      BridgeCodec.DecodeBridge;
    if EgressBytes(env, m, raw, params, NostrProtocol) == Ok(Some(text)) {
      var nostr := params.nostr.value;
      NostrBridge.BridgeEventRoundTrip(env.crypto, env.signer, raw, nostr.secret, nostr.createdAt, available);
      NostrBridge.EventTextReadsBack(NostrBridge.ToEvent(env.crypto, env.signer, raw, nostr.secret, nostr.createdAt).value);
    }
  }

  /** The packet sent to BitChat reads back as the message, from the bridge's own peer. */
  lemma BitchatOutputReadsBack(env: Env, m: BridgeMessage, raw: Bytes, params: Params, packet: Bytes)
    requires EgressBytes(env, m, raw, params, BitChatProtocol) == Ok(Some(packet))
    ensures BitchatBridge.Ingress(packet, m.roomId, m.messageId)
         == Ok(m.(author := Endpoint(Foreign(BitChat), params.bitchat.value.senderId)))
  {
    hide BitchatBridge.Ingress, BitchatBridge.Egress;
    BitchatBridge.EgressThenIngress(m, params.bitchat.value, BitchatBridge.PACKET_MAX_LEN);
  }

  // ---- runs ----

  datatype Delivery = Delivery(origin: Protocol, raw: Bytes, params: Params, commands: nat)

  function EnvelopeKeys(raw: Bytes, r: Result<seq<Action>, RuntimeError>): seq<MessageKey> {
    var decoded := BridgeCodec.DecodeBridge(raw);
    if r.Ok? && r.value != [] && r.value[0].EmitEnvelope? && decoded.Ok? then [KeyOf(decoded.value)] else []
  }

  /** The window at the end of a run, and the keys whose envelopes were emitted. */
  function RunEmits(env: Env, n: nat, window: seq<MessageKey>, policy: RoutePolicy, run: seq<Delivery>): (seq<MessageKey>, seq<MessageKey>)
    decreases |run|
  {
    if run == [] then (window, [])
    else
      var d := run[0];
      var (next, r) := Emit(env, n, window, policy, d.origin, d.raw, d.params, d.commands);
      var (last, emitted) := RunEmits(env, n, next, policy, run[1..]);
      (last, EnvelopeKeys(d.raw, r) + emitted)
  }

  lemma EmitOffers(env: Env, n: nat, window: seq<MessageKey>, policy: RoutePolicy, d: Delivery)
    requires |window| <= n
    ensures var (next, r) := Emit(env, n, window, policy, d.origin, d.raw, d.params, d.commands);
      && (EnvelopeKeys(d.raw, r) == [] ==> next == window)
      && (EnvelopeKeys(d.raw, r) != [] ==>
            var key := EnvelopeKeys(d.raw, r)[0];
            EnvelopeKeys(d.raw, r) == [key] && key !in window && (next, Ok(true)) == Dedupe.Offer(n, window, key))
  {
    hide BridgeCodec.DecodeBridge, Selected, EgressBytes, Emit;
    EmitMeans(env, n, window, policy, d.origin, d.raw, d.params, d.commands);
    var r := Emit(env, n, window, policy, d.origin, d.raw, d.params, d.commands).1;
    if r.Ok? && KeyOf(BridgeCodec.DecodeBridge(d.raw).value) !in window {
      assert r.value[0].EmitEnvelope?;
      assert EnvelopeKeys(d.raw, r) == [KeyOf(BridgeCodec.DecodeBridge(d.raw).value)];
    }
  }

  /** A message from Nostr is emitted as if it had arrived raw from Nostr, and one from BitChat
      as the message its packet stands for. */
  lemma IngressMeans(env: Env, n: nat, window: seq<MessageKey>, policy: RoutePolicy, params: Params, commands: nat)
    ensures forall e, raw, m | NostrBridge.OfEvent(env.crypto, e, MESSAGE_MAX_LEN) == Ok(NostrBridge.Ingress(raw, m)) ::
      FromNostr(env, n, window, policy, e, params, commands) == Emit(env, n, window, policy, NostrProtocol, raw, params, commands)
    ensures forall e | NostrBridge.OfEvent(env.crypto, e, MESSAGE_MAX_LEN).Err? ::
      FromNostr(env, n, window, policy, e, params, commands).0 == window
      && FromNostr(env, n, window, policy, e, params, commands).1.Err?
    ensures forall packet, room, id, m | BitchatBridge.Ingress(packet, room, id) == Ok(m) && BridgeCodec.ValidateMessage(m).Ok? ::
      FromBitchat(env, n, window, policy, packet, room, id, params, commands)
      == Emit(env, n, window, policy, BitChatProtocol, BridgeCodec.EncodeBridge(m), params, commands)
    ensures forall packet, room, id | BitchatBridge.Ingress(packet, room, id).Err? ::
      FromBitchat(env, n, window, policy, packet, room, id, params, commands).0 == window
      && FromBitchat(env, n, window, policy, packet, room, id, params, commands).1.Err?
  {
    hide NostrBridge.OfEvent, BitchatBridge.Ingress, Emit, BridgeCodec.EncodeBridge, BridgeCodec.ValidateMessage;
    forall m | BridgeCodec.ValidateMessage(m).Ok? ensures BridgeCodec.EncodedLen(m).Ok? {
      BridgeCodec.LengthIsExact(m);
    }
  }

  /** Over any run of deliveries, from whatever protocols and with whatever failures in
      between: the window is the last `n` messages whose envelope was emitted, and the same
      message's envelope is emitted again only after at least `n` others. */
  lemma {:induction false} OncePerWindow(env: Env, n: nat, history: seq<MessageKey>, policy: RoutePolicy, run: seq<Delivery>)
    requires Dedupe.Spaced(n, history)
    ensures var (last, emitted) := RunEmits(env, n, Dedupe.LastOf(n, history), policy, run);
      last == Dedupe.LastOf(n, history + emitted) && Dedupe.Spaced(n, history + emitted)
    decreases |run|
  {
    hide Emit, EnvelopeKeys, Dedupe.Spaced, Dedupe.Offer;
    assert history + [] == history;
    if run != [] {
      var d, window := run[0], Dedupe.LastOf(n, history);
      EmitOffers(env, n, window, policy, d);
      var (next, r) := Emit(env, n, window, policy, d.origin, d.raw, d.params, d.commands);
      var keys := EnvelopeKeys(d.raw, r);
      if keys != [] {
        Dedupe.OfferExtends(n, history, keys[0]);
      }
      OncePerWindow(env, n, history + keys, policy, run[1..]);
      var (last, emitted) := RunEmits(env, n, next, policy, run[1..]);
      assert history + keys + emitted == history + (keys + emitted);
    }
  }
}
