/** The orchestrator as it runs: shared scratch buffers are filled while planning, commands
    refer to slices of them, and the dedupe ring is touched last. */
module OrchestratorDriver {
  import opened Base
  import opened BridgeTypes
  import opened Policy
  import opened Orchestrator
  import BitchatBridge
  import BitchatCodec
  import BridgeCodec
  import BridgeCursors
  import BridgeEventText
  import Dedupe
  import Hex
  import Json
  import Messages
  import NostrBridge
  import NostrTypes
  import Signing
  import Utf8

  datatype Slice = Slice(buffer: array<Byte>, len: nat)

  datatype Command =
    | EmitHyfEnvelope(header: Envelope, payload: Slice)
    | EmitBytes(protocol: Protocol, packet: Slice)
    | DropCommand(key: MessageKey, reason: DropReason)

  datatype Plan = Encoded(len: nat) | NoProfile

  /** One buffer per protocol, and one for the bridge message itself. */
  class Scratch {
    const bridgeMessage: array<Byte>
    const bitchatPacket: array<Byte>
    const lxmfMessage: array<Byte>
    const nostrEventJson: array<Byte>

    constructor (lxmfMax: nat)
      ensures Sized(lxmfMax) && fresh(bridgeMessage) && fresh(bitchatPacket) && fresh(lxmfMessage) && fresh(nostrEventJson)
    {
      bridgeMessage := new Byte[MESSAGE_MAX_LEN](_ => 0);
      bitchatPacket := new Byte[BitchatBridge.PACKET_MAX_LEN](_ => 0);
      lxmfMessage := new Byte[lxmfMax](_ => 0);
      nostrEventJson := new Byte[NostrBridge.EVENT_JSON_MAX_LEN](_ => 0);
    }

    ghost predicate Sized(lxmfMax: nat) {
      && bridgeMessage.Length == MESSAGE_MAX_LEN && bitchatPacket.Length == BitchatBridge.PACKET_MAX_LEN
      && lxmfMessage.Length == lxmfMax && nostrEventJson.Length == NostrBridge.EVENT_JSON_MAX_LEN
      && bridgeMessage != bitchatPacket && bridgeMessage != lxmfMessage && bridgeMessage != nostrEventJson
      && bitchatPacket != lxmfMessage && bitchatPacket != nostrEventJson && lxmfMessage != nostrEventJson
    }

    /** The buffer a protocol's output is written to. */
    function BufferOf(p: Protocol): array<Byte> {
      match p
      case BitChatProtocol => bitchatPacket
      case LxmfProtocol => lxmfMessage
      case NostrProtocol => nostrEventJson
      case HyfProtocol => bridgeMessage
    }

    ghost function Outputs(): set<object> {
      {bitchatPacket, lxmfMessage, nostrEventJson}
    }

    lemma BuffersDiffer(lxmfMax: nat, p: Protocol, q: Protocol)
      requires Sized(lxmfMax) && p != q
      ensures BufferOf(p) != BufferOf(q)
    {
    }
  }

  /** What a slice of a buffer holds now. */
  ghost predicate Holds(buffer: array<Byte>, len: nat, bytes: Bytes)
    reads buffer
  {
    len <= buffer.Length && len == |bytes| && buffer[..len] == bytes
  }

  /** The plan describes these bytes, given what the protocol's buffer contains. */
  ghost predicate PlanHeld(contents: Bytes, p: Protocol, plan: Plan, bytes: Option<Bytes>) {
    match bytes
    case None => plan == NoProfile
    case Some(b) => plan.Encoded? && p != HyfProtocol && plan.len == |b| <= |contents| && contents[..plan.len] == b
  }

  ghost predicate PlanHolds(scratch: Scratch, p: Protocol, plan: Plan, bytes: Option<Bytes>)
    reads scratch.BufferOf(p)
  {
    PlanHeld(scratch.BufferOf(p)[..], p, plan, bytes)
  }

  ghost function ReadBy(command: Command): set<object> {
    match command
    case EmitHyfEnvelope(_, s) => {s.buffer}
    case EmitBytes(_, s) => {s.buffer}
    case DropCommand(_, _) => {}
  }

  /** A command, read through the buffer it refers to, is the action it stands for. */
  ghost predicate Resolves(command: Command, action: Action)
    reads ReadBy(command)
  {
    match command
    case EmitHyfEnvelope(header, s) =>
      action == EmitEnvelope(header) && Holds(s.buffer, s.len, header.payload)
    case EmitBytes(p, s) =>
      action.EmitPacket? && action.protocol == p && Holds(s.buffer, s.len, action.bytes)
    case DropCommand(key, reason) => action == Drop(key, reason)
  }

  class BridgeOrchestrator {
    const env: Env
    const dedupe: Dedupe.BridgeDedupeSet
    const policy: RoutePolicy

    ghost predicate Valid()
      reads this, dedupe, dedupe.keys
    {
      dedupe.Valid()
    }

    constructor (env: Env, n: nat, policy: RoutePolicy)
      ensures Valid() && fresh(dedupe) && fresh(dedupe.keys) && dedupe.keys.Length == n && dedupe.Window() == []
      ensures this.env == env && this.policy == policy
    {
      this.env, this.policy := env, policy;
      dedupe := new Dedupe.BridgeDedupeSet(n);
    }

    /** Encodes for one protocol into that protocol's buffer; the others keep their bytes. */
    method PlanOne(m: BridgeMessage, raw: Bytes, params: Params, p: Protocol, scratch: Scratch) returns (r: Result<Plan, RuntimeError>)
      requires scratch.Sized(env.lxmfMax)
      modifies scratch.BufferOf(p)
      ensures match EgressBytes(env, m, raw, params, p) {
        case Err(e) => r == Err(e)
        case Ok(bytes) => r.Ok? && PlanHolds(scratch, p, r.value, bytes)
      }
      ensures p == HyfProtocol ==> scratch.BufferOf(p)[..] == old(scratch.BufferOf(p)[..])
    {
      hide BitchatBridge.Egress, NostrBridge.ToEvent, Json.Print, Messages.EventJson;
      match p {
        case BitChatProtocol =>
          if params.bitchat.None? {
            return Ok(NoProfile);
          }
          var written := BitchatBridge.WriteEgress(m, params.bitchat.value, scratch.bitchatPacket);
          r := if written.Ok? then Ok(Encoded(written.value)) else Err(BitchatError(written.error));
        case LxmfProtocol =>
          if !params.lxmf {
            return Ok(NoProfile);
          }
          var encoded := env.lxmf(m);
          if encoded.Err? {
            return Err(LxmfErr(encoded.error));
          }
          var bytes := encoded.value;
          if |bytes| > scratch.lxmfMessage.Length {
            return Err(LxmfErr(LxmfTooLarge(|bytes|, scratch.lxmfMessage.Length)));
          }
          forall i | 0 <= i < |bytes| {
            scratch.lxmfMessage[i] := bytes[i];
          }
          r := Ok(Encoded(|bytes|));
        case NostrProtocol =>
          if params.nostr.None? {
            return Ok(NoProfile);
          }
          var written := BridgeEventText.WriteEventJson(env.crypto, env.signer, raw, params.nostr.value.secret,
                                                    params.nostr.value.createdAt, scratch.nostrEventJson);
          r := if written.Ok? then Ok(Encoded(written.value)) else Err(NostrErr(written.error));
        case HyfProtocol =>
          r := Ok(NoProfile);
      }
    }

    ghost predicate PlansHold(scratch: Scratch, selected: seq<Protocol>, plans: seq<Plan>, bytes: seq<Option<Bytes>>)
      requires |selected| <= |plans|
      reads scratch.bridgeMessage, scratch.Outputs()
    {
      |bytes| <= |selected| && forall i | 0 <= i < |bytes| :: PlanHolds(scratch, selected[i], plans[i], bytes[i])
    }

    lemma PlansKept(scratch: Scratch, selected: seq<Protocol>, plans: seq<Plan>, next: seq<Plan>, bytes: seq<Option<Bytes>>, last: Option<Bytes>)
      requires |selected| <= |plans| == |next| && |bytes| < |selected|
      requires PlansHold(scratch, selected, plans, bytes) && next == plans[|bytes| := next[|bytes|]]
      requires PlanHolds(scratch, selected[|bytes|], next[|bytes|], last)
      ensures PlansHold(scratch, selected, next, bytes + [last])
    {
      hide PlanHolds;
      var all := bytes + [last];
      forall i | 0 <= i < |all| ensures PlanHolds(scratch, selected[i], next[i], all[i]) {
        assert i < |bytes| ==> next[i] == plans[i] && all[i] == bytes[i];
      }
    }

    /** Each selected protocol's plan, in order. Because no protocol is selected twice, an
        earlier plan's buffer is never written again. */
    method PlanAll(m: BridgeMessage, raw: Bytes, params: Params, selected: seq<Protocol>, plans: array<Plan>, scratch: Scratch)
      returns (r: Result<(), RuntimeError>)
      requires scratch.Sized(env.lxmfMax) && Distinct(selected) && |selected| <= plans.Length
      modifies plans, scratch.bridgeMessage, scratch.Outputs()
      ensures scratch.bridgeMessage[..] == old(scratch.bridgeMessage[..])
      ensures match Plans(env, m, raw, params, selected, |selected|) {
        case Err(e) => r == Err(e)
        case Ok(bytes) => r == Ok(()) && PlansHold(scratch, selected, plans[..], bytes)
      }
    {
      hide EgressBytes, PlanHeld;
      for index := 0 to |selected|
        invariant scratch.bridgeMessage[..] == old(scratch.bridgeMessage[..])
        invariant Plans(env, m, raw, params, selected, index).Ok?
        invariant PlansHold(scratch, selected, plans[..], Plans(env, m, raw, params, selected, index).value)
      {
        ghost var before := Plans(env, m, raw, params, selected, index).value;
        var p := selected[index];
        ghost var was := plans[..];
        assert forall i | 0 <= i < index :: PlanHolds(scratch, selected[i], was[i], before[i]);
        label Planning:
        var plan := PlanOne(m, raw, params, p, scratch);
        forall i | 0 <= i < index ensures PlanHolds(scratch, selected[i], was[i], before[i]) {
          scratch.BuffersDiffer(env.lxmfMax, selected[i], p);
          assert old@Planning(scratch.BufferOf(selected[i])[..]) == scratch.BufferOf(selected[i])[..];
        }
        if plan.Err? {
          PlansFail(m, raw, params, selected, index);
          return Err(plan.error);
        }
        plans[index] := plan.value;
        PlansKept(scratch, selected, was, plans[..], before, EgressBytes(env, m, raw, params, p).value);
      }
      return Ok(());
    }

    lemma {:induction false} PlansFail(m: BridgeMessage, raw: Bytes, params: Params, selected: seq<Protocol>, k: nat)
      requires k < |selected| && Plans(env, m, raw, params, selected, k).Ok?
      requires EgressBytes(env, m, raw, params, selected[k]).Err?
      ensures Plans(env, m, raw, params, selected, |selected|) == Err(EgressBytes(env, m, raw, params, selected[k]).error)
      decreases |selected|
    {
      hide EgressBytes;
      PlansFailUpTo(m, raw, params, selected, k, |selected|);
    }

    lemma {:induction false} PlansFailUpTo(m: BridgeMessage, raw: Bytes, params: Params, selected: seq<Protocol>, k: nat, upTo: nat)
      requires k < upTo <= |selected| && Plans(env, m, raw, params, selected, k).Ok?
      requires EgressBytes(env, m, raw, params, selected[k]).Err?
      ensures Plans(env, m, raw, params, selected, upTo) == Err(EgressBytes(env, m, raw, params, selected[k]).error)
    {
      hide EgressBytes;
      if k < upTo - 1 {
        PlansFailUpTo(m, raw, params, selected, k, upTo - 1);
      }
    }

    static function CommandFor(key: MessageKey, scratch: Scratch, p: Protocol, plan: Plan): Command {
      match plan
      case Encoded(len) => EmitBytes(p, Slice(scratch.BufferOf(p), len))
      case NoProfile => DropCommand(key, UnsupportedProfile)
    }

    static lemma PlanResolves(key: MessageKey, scratch: Scratch, p: Protocol, plan: Plan, bytes: Option<Bytes>)
      requires PlanHolds(scratch, p, plan, bytes)
      ensures Resolves(CommandFor(key, scratch, p, plan), ActionFor(key, p, bytes))
    {
    }

    ghost predicate AllResolve(commands: seq<Command>, actions: seq<Action>, count: nat)
      requires count <= |commands| && count <= |actions|
      reads set i, o | 0 <= i < count && o in ReadBy(commands[i]) :: o
    {
      forall i | 0 <= i < count :: Resolves(commands[i], actions[i])
    }

    /** The envelope first, then one command for each plan. */
    method Commit(key: MessageKey, envelope: Envelope, rawLen: nat, selected: array<Protocol>, count: nat, plans: array<Plan>,
                  ghost bytes: seq<Option<Bytes>>, scratch: Scratch, commands: array<Command>)
      returns (written: nat)
      requires count <= selected.Length && count <= plans.Length && 1 + count <= commands.Length && |bytes| == count
      requires Holds(scratch.bridgeMessage, rawLen, envelope.payload)
      requires PlansHold(scratch, selected[..count], plans[..], bytes)
      modifies commands
      ensures written == 1 + count
      ensures AllResolve(commands[..], [EmitEnvelope(envelope)] + Actions(key, selected[..count], bytes), 1 + count)
      ensures commands[1 + count..] == old(commands[1 + count..])
    {
      hide PlanHolds, ActionFor;
      ghost var actions := [EmitEnvelope(envelope)] + Actions(key, selected[..count], bytes);
      ghost var target: object := commands;
      assert target !in {scratch.bridgeMessage as object} + scratch.Outputs();
      commands[0] := EmitHyfEnvelope(envelope, Slice(scratch.bridgeMessage, rawLen));
      written := 1;
      for i := 0 to count
        invariant written == 1 + i
        invariant forall j | 0 <= j < written :: Resolves(commands[j], actions[j])
        invariant commands[1 + count..] == old(commands[1 + count..])
        invariant PlansHold(scratch, selected[..count], plans[..], bytes)
      {
        assert PlanHolds(scratch, selected[..count][i], plans[..][i], bytes[i]);
        PlanResolves(key, scratch, selected[i], plans[i], bytes[i]);
        assert actions[1 + i] == ActionFor(key, selected[..count][i], bytes[i]);
        commands[written] := CommandFor(key, scratch, selected[i], plans[i]);
        written := written + 1;
      }
    }

    /** Everything that can fail before the ring is touched: room for the commands, the
        envelope, the selection and the plans. */
    method PrepareAll(m: BridgeMessage, raw: Bytes, origin: Protocol, params: Params, scratch: Scratch, room: nat,
                      selected: array<Protocol>, plans: array<Plan>)
      returns (r: Result<Envelope, RuntimeError>, count: nat, ghost bytes: seq<Option<Bytes>>)
      requires scratch.Sized(env.lxmfMax) && selected.Length == plans.Length == |policy.egress|
      modifies selected, plans, scratch.bridgeMessage, scratch.Outputs()
      ensures scratch.bridgeMessage[..] == old(scratch.bridgeMessage[..])
      ensures r.Ok? ==> r.value.payload == raw
      ensures match Prepare(env, Selected(policy, origin), raw, m, params, room) {
        case Err(e) => r == Err(e)
        case Ok(prepared) =>
          && r == Ok(prepared.envelope) && bytes == prepared.plans && count == |Selected(policy, origin)| <= selected.Length && selected[..count] == Selected(policy, origin)
          && PlansHold(scratch, selected[..count], plans[..], bytes)
      }
    {
      hide Plans, Selected, PlanHolds, BridgeCodec.DecodeBridge;
      SelectionMeans(policy, origin);
      SelectedFits(origin);
      count := SelectedEgressCount(policy, origin);
      if room < 1 + count {
        return Err(CommandsTooSmall(room, 1 + count)), count, [];
      }
      var envelope := Wrap(env, raw, params.wrap);
      if envelope.Err? {
        return envelope, count, [];
      }
      var chosen := SelectEgress(policy, origin, selected);
      var planned := PlanAll(m, raw, params, selected[..count], plans, scratch);
      if planned.Err? {
        return Err(planned.error), count, [];
      }
      return envelope, count, Plans(env, m, raw, params, Selected(policy, origin), count).value;
    }

    lemma SelectedFits(origin: Protocol)
      ensures |Selected(policy, origin)| <= |policy.egress|
    {
      SelectedPrefix(policy, origin, |policy.egress|);
    }

    /** The commands written, read through the shared buffers after everything has been
        written, are the actions of Emit; on failure the ring and the commands are as before. */
    method EmitBridgeMessage(origin: Protocol, rawLen: nat, params: Params, scratch: Scratch, commands: array<Command>)
      returns (r: Result<nat, RuntimeError>)
      requires Valid() && scratch.Sized(env.lxmfMax) && rawLen <= scratch.bridgeMessage.Length
      modifies dedupe, dedupe.keys, commands, scratch.bridgeMessage, scratch.Outputs()
      ensures Valid() && scratch.bridgeMessage[..] == old(scratch.bridgeMessage[..])
      ensures var (window, spec) := Emit(env, dedupe.keys.Length, old(dedupe.Window()), policy, origin,
                                         old(scratch.bridgeMessage[..rawLen]), params, commands.Length);
        && dedupe.Window() == window
        && match spec {
             case Err(e) => r == Err(e) && commands[..] == old(commands[..])
             case Ok(actions) =>
               && r == Ok(|actions|) && |actions| <= commands.Length && AllResolve(commands[..], actions, |actions|)
               && commands[|actions|..] == old(commands[|actions|..])
           }
    {
      hide BridgeCodec.DecodeBridge, Dispatch, Dedupe.BridgeDedupeSet.Valid, Dedupe.BridgeDedupeSet.Window;
      var raw := scratch.bridgeMessage[..rawLen];
      var decoded := BridgeCursors.DecodeBridgeMessage(raw);
      if decoded.Err? {
        return Err(BridgeErr(decoded.error));
      }
      var key := KeyOf(decoded.value);
      var known := dedupe.Contains(key);
      if known {
        if commands.Length < 1 {
          return Err(CommandsTooSmall(commands.Length, 1));
        }
        commands[0] := DropCommand(key, DuplicateMessage);
        return Ok(1);
      }
      r := DispatchMessage(decoded.value, origin, rawLen, params, scratch, commands);
    }

    /** A message with a new key. */
    method DispatchMessage(m: BridgeMessage, origin: Protocol, rawLen: nat, params: Params, scratch: Scratch, commands: array<Command>)
      returns (r: Result<nat, RuntimeError>)
      requires Valid() && scratch.Sized(env.lxmfMax) && rawLen <= scratch.bridgeMessage.Length
      modifies dedupe, dedupe.keys, commands, scratch.bridgeMessage, scratch.Outputs()
      ensures Valid() && scratch.bridgeMessage[..] == old(scratch.bridgeMessage[..])
      ensures var (window, spec) := Dispatch(env, dedupe.keys.Length, old(dedupe.Window()), policy, origin,
                                             old(scratch.bridgeMessage[..rawLen]), m, params, commands.Length);
        && dedupe.Window() == window
        && match spec {
             case Err(e) => r == Err(e) && commands[..] == old(commands[..])
             case Ok(actions) =>
               && r == Ok(|actions|) && |actions| <= commands.Length && AllResolve(commands[..], actions, |actions|)
               && commands[|actions|..] == old(commands[|actions|..])
           }
    {
      hide PlansHold, Prepare, Selected, Actions, AllResolve, KeyOf, Scratch.Sized, Dedupe.Offer, Dedupe.BridgeDedupeSet.Valid, Dedupe.BridgeDedupeSet.Window;
      var raw := scratch.bridgeMessage[..rawLen];
      var selected := new Protocol[|policy.egress|](_ => HyfProtocol);
      var plans := new Plan[|policy.egress|](_ => NoProfile);
      ghost var bytes;
      var envelope, count;
      envelope, count, bytes := PrepareAll(m, raw, origin, params, scratch, commands.Length, selected, plans);
      if envelope.Err? {
        return Err(envelope.error);
      }
      var inserted := dedupe.Insert(KeyOf(m));
      if inserted.Err? {
        return Err(DedupeCapacityZero);
      }
      assert scratch.bridgeMessage[..rawLen] == raw;
      var written := Commit(KeyOf(m), envelope.value, rawLen, selected, count, plans, bytes, scratch, commands);
      return Ok(written);
    }

    // ---- ingress ----

    method IngestBitchat(raw: Bytes, roomId: Bytes16, messageId: Bytes32, params: Params, scratch: Scratch, commands: array<Command>)
      returns (r: Result<nat, RuntimeError>)
      requires Valid() && scratch.Sized(env.lxmfMax)
      modifies dedupe, dedupe.keys, commands, scratch.bridgeMessage, scratch.Outputs()
      ensures Valid()
      ensures Emitted(FromBitchat(env, dedupe.keys.Length, old(dedupe.Window()), policy, raw, roomId, messageId, params, commands.Length),
                      r, old(commands[..]), commands[..])
    {
      hide Emit, BitchatBridge.Ingress, BridgeCodec.EncodeBridge, BridgeCodec.EncodedLen, Dedupe.BridgeDedupeSet.Valid, Dedupe.BridgeDedupeSet.Window;
      var ingress := BitchatBridge.Ingress(raw, roomId, messageId);
      if ingress.Err? {
        return Err(BitchatError(ingress.error));
      }
      RawFits(ingress.value);
      var encoded := BridgeCursors.EncodeBridgeMessage(ingress.value, scratch.bridgeMessage);
      if encoded.Err? {
        return Err(BridgeErr(encoded.error));
      }
      r := EmitBridgeMessage(BitChatProtocol, encoded.value, params, scratch, commands);
    }

    static lemma RawFits(m: BridgeMessage)
      ensures BridgeCodec.EncodedLen(m).Ok? ==> BridgeCodec.EncodedLen(m).value <= MESSAGE_MAX_LEN
      ensures BridgeCodec.EncodedLen(m).Ok? ==> BridgeCodec.EncodedLen(m).value == |BridgeCodec.EncodeBridge(m)|
    {
      hide BridgeCodec.ValidateMessage, BridgeCodec.EncodeBridge;
      if BridgeCodec.EncodedLen(m).Ok? {
        BridgeCodec.LengthIsExact(m);
      }
    }

    /** What a caller sees of an emission: the new window, the result, and commands that
        resolve to its actions, or untouched commands on failure. */
    ghost predicate Emitted(spec: (seq<MessageKey>, Result<seq<Action>, RuntimeError>), r: Result<nat, RuntimeError>,
                            before: seq<Command>, commands: seq<Command>)
      requires dedupe.Valid()
      reads this, dedupe, dedupe.keys, set i, o | 0 <= i < |commands| && o in ReadBy(commands[i]) :: o
    {
      && dedupe.Window() == spec.0
      && match spec.1
         case Err(e) => r == Err(e) && commands == before
         case Ok(actions) =>
           && r == Ok(|actions|) && |actions| <= |commands| == |before| && AllResolve(commands, actions, |actions|)
           && commands[|actions|..] == before[|actions|..]
    }

    /** The message of a verified event, left in the scratch buffer. */
    method ReadEvent(e: NostrTypes.Event, output: array<Byte>) returns (r: Result<nat, NostrBridge.NostrBridgeError>)
      modifies output
      ensures match NostrBridge.OfEvent(env.crypto, e, output.Length) {
        case Err(error) => r == Err(error)
        case Ok(ingress) => r == Ok(|ingress.raw|) && |ingress.raw| <= output.Length && output[..|ingress.raw|] == ingress.raw
      }
    {
      hide Signing.VerifyEvent, NostrBridge.RequireTag, NostrBridge.RequireCommunity, Hex.DecodeLowerHex, BridgeCodec.DecodeBridge,
        NostrBridge.AuthorRule;
      var _ :- NostrBridge.OfNostr(Signing.VerifyEvent(env.crypto, e));
      if e.kind != NostrBridge.BRIDGE_EVENT_KIND {
        return Err(NostrBridge.WrongKind(e.kind));
      }
      var _ :- NostrBridge.RequireTag(e.tags, NostrBridge.HYF_TAG, "hyf");
      var _ :- NostrBridge.RequireTag(e.tags, NostrBridge.ALT_TAG, "alt");
      var community :- NostrBridge.RequireCommunity(e.tags);
      var decodedHex := Hex.DecodeLowerHexTo(Utf8.Encode(e.content), output);
      var len :- NostrBridge.OfNostr(decodedHex);
      var decoded := BridgeCursors.DecodeBridgeMessage(output[..len]);
      var m :- NostrBridge.OfBridge(decoded);
      if community != m.roomId {
        return Err(NostrBridge.CommunityTagMismatch);
      }
      if !NostrBridge.AuthorRule(e.pubkey, m) {
        return Err(NostrBridge.NostrAuthorPubkeyMismatch);
      }
      return Ok(len);
    }

    method IngestNostr(e: NostrTypes.Event, params: Params, scratch: Scratch, commands: array<Command>)
      returns (r: Result<nat, RuntimeError>)
      requires Valid() && scratch.Sized(env.lxmfMax)
      modifies dedupe, dedupe.keys, commands, scratch.bridgeMessage, scratch.Outputs()
      ensures Valid()
      ensures Emitted(FromNostr(env, dedupe.keys.Length, old(dedupe.Window()), policy, e, params, commands.Length),
                      r, old(commands[..]), commands[..])
    {
      hide Emit, NostrBridge.OfEvent, Dedupe.BridgeDedupeSet.Valid, Dedupe.BridgeDedupeSet.Window;
      var ingress := ReadEvent(e, scratch.bridgeMessage);
      if ingress.Err? {
        return Err(NostrErr(ingress.error));
      }
      r := EmitBridgeMessage(NostrProtocol, ingress.value, params, scratch, commands);
    }
  }
}
