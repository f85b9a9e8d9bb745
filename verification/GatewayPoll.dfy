/** The gateway's side of the relay: polling its queue one output at a time, and sending
    link bytes as published events. */
module GatewayPoll {
  import opened Base
  import opened NostrTypes
  import opened Relay
  import opened RelayRuns
  import opened Signing
  import opened Stored
  import Canonical
  import Hex
  import RelayDriver
  import Utf8

  const FRAME_BUFFER_LEN: nat := 2048

  datatype LinkErrorKind = LinkDown | Protocol | BufferTooSmall | FrameTooLarge | Backpressure

  /** A frame with its time, or a control output shown as it is. */
  datatype GatewayOutput = Frame(receivedAt: U64, bytes: Bytes) | Control(output: Output)

  // ---- polling ----

  function ReceiveError(e: NostrError): LinkErrorKind {
    if e.OutputTooSmall? then BufferTooSmall else Protocol
  }

  /** Control text is copied into buffers of the same limits. */
  function ControlFits(out: Output): Result<(), NostrError> {
    match out
    case EoseOutput(id) => CheckText(SUBSCRIPTION_ID_MAX_LEN, id)
    case ClosedOutput(id, status) =>
      var _ :- CheckText(SUBSCRIPTION_ID_MAX_LEN, id);
      CheckStatus(status)
    case OkOutput(_, _, status) => CheckStatus(status)
    case NoticeOutput(message) => CheckText(MAX_RELAY_STATUS_CHARS, message)
    case AuthOutput(challenge) => CheckText(MAX_RELAY_STATUS_CHARS, challenge)
    case EventOutput(_, _) => Ok(())
  }

  function DecodeRelayEvent(c: Crypto, e: Event, room: nat): Result<GatewayOutput, LinkErrorKind> {
    var at: int := e.createdAt;
    if at * 1000 > 0xFFFF_FFFF_FFFF_FFFF then Err(Protocol)
    else
      match VerifyAndDecode(c, e, room)
      case Err(error) => Err(ReceiveError(error))
      case Ok(bytes) => Ok(Frame(at * 1000, bytes))
  }

  function Poll(c: Crypto, up: bool, st: State, room: nat): (State, Result<Option<GatewayOutput>, LinkErrorKind>) {
    if !up then (st, Err(LinkDown))
    else if st.queue == [] then (st, Ok(None))
    else
      var head := st.queue[0];
      if !head.EventOutput? then
        if ControlFits(head).Err? then (st, Err(ReceiveError(ControlFits(head).error)))
        else (Consume(st).0, Ok(Some(Control(head))))
      else
        match DecodeRelayEvent(c, head.event, room)
        case Ok(frame) => (Consume(st).0, Ok(Some(frame)))
        case Err(kind) => (if kind == BufferTooSmall then st else Consume(st).0, Err(kind))
  }

  lemma CheckedControlFits(out: Output)
    requires CheckOutput(out).Ok?
    ensures ControlFits(out).Ok?
  {
    hide CheckStatus, FromEvent;
  }

  lemma VerdictNeverTooSmall(c: Crypto, e: Event)
    ensures VerifyEvent(c, e).Err? ==> !VerifyEvent(c, e).error.OutputTooSmall?
  {
    hide Canonical.EventId;
  }

  lemma {:induction false} PairsNeverTooSmall(s: Bytes, from: nat)
    requires |s| % 2 == 0 && 2 * from <= |s|
    ensures Hex.DecodePairs(s, from).Err? ==> !Hex.DecodePairs(s, from).error.OutputTooSmall?
    decreases |s| - 2 * from
  {
    if 2 * from < |s| {
      PairsNeverTooSmall(s, from + 1);
    }
  }

  /** A buffer is too small exactly for a valid envelope event whose content needs more. */
  lemma TooSmallIff(c: Crypto, e: Event, room: nat)
    ensures DecodeRelayEvent(c, e, room) == Err(BufferTooSmall) <==>
      && e.createdAt as int * 1000 <= 0xFFFF_FFFF_FFFF_FFFF && VerifyEvent(c, e).Ok? && e.kind == ENVELOPE_KIND
      && HasRecipientTag(e.tags) && ByteLen(e.content) <= MAX_CONTENT_CHARS && ByteLen(e.content) % 2 == 0
      && room < ByteLen(e.content) / 2
  {
    hide VerifyEvent, HasRecipientTag, Hex.DecodePairs, Utf8.Encode;
    VerdictNeverTooSmall(c, e);
    var s := Utf8.Encode(e.content);
    if |s| % 2 == 0 {
      PairsNeverTooSmall(s, 0);
    }
  }

  /** On a link that is up, a poll finds nothing, or takes exactly the oldest output, even
      when it cannot be decoded, or reports a short buffer and leaves the relay alone. */
  lemma PollProgress(c: Crypto, st: State, room: nat)
    requires Checked(st)
    ensures var (next, r) := Poll(c, true, st, room);
      if st.queue == [] then next == st && r == Ok(None)
      else if r == Err(BufferTooSmall) then next == st && st.queue[0].EventOutput? && room < FRAME_BUFFER_LEN
      else
        && next == st.(queue := st.queue[1..]) && r != Ok(None)
        && r == Seen(c, st.queue[0], room)
  {
    hide Sound, CheckOutput, ControlFits, DecodeRelayEvent, CheckStatus;
    if st.queue != [] {
      var head := st.queue[0];
      assert CheckOutput(head).Ok?;
      CheckedControlFits(head);
      if head.EventOutput? {
        TooSmallIff(c, head.event, room);
        DecodedShape(c, head.event, room);
      }
    }
  }

  lemma DecodedShape(c: Crypto, e: Event, room: nat)
    ensures DecodeRelayEvent(c, e, room).Ok? ==> DecodeRelayEvent(c, e, room).value.Frame?
  {
    hide VerifyAndDecode;
  }

  /** What a poll makes of an output, by itself. */
  function Seen(c: Crypto, out: Output, room: nat): Result<Option<GatewayOutput>, LinkErrorKind> {
    if !out.EventOutput? then Ok(Some(Control(out)))
    else
      match DecodeRelayEvent(c, out.event, room)
      case Ok(frame) => Ok(Some(frame))
      case Err(kind) => Err(kind)
  }

  function PollTimes(c: Crypto, st: State, room: nat, k: nat): (State, seq<Result<Option<GatewayOutput>, LinkErrorKind>>)
    decreases k
  {
    if k == 0 then (st, [])
    else
      var (next, r) := Poll(c, true, st, room);
      var (last, rest) := PollTimes(c, next, room, k - 1);
      (last, [r] + rest)
  }

  /** With a full-sized buffer, polling drains the queue: each output is seen once, in the
      order it was queued, whatever the others were. */
  lemma {:induction false} PollingDrains(c: Crypto, st: State, room: nat)
    requires Checked(st) && room >= FRAME_BUFFER_LEN
    ensures var (last, results) := PollTimes(c, st, room, |st.queue|);
      && last == st.(queue := []) && |results| == |st.queue|
      && forall i | 0 <= i < |results| :: results[i] == Seen(c, st.queue[i], room)
    decreases |st.queue|
  {
    hide Poll, Seen, Sound, CheckOutput, CheckStatus;
    if st.queue == [] {
      assert st == st.(queue := []);
    } else {
      PollProgress(c, st, room);
      var (next, r) := Poll(c, true, st, room);
      assert Checked(next) by {
        StepKeepsChecked(c, st, ConsumeOp);
        assert Step(c, st, ConsumeOp).0 == next;
      }
      PollingDrains(c, next, room);
    }
  }

  // ---- sending ----

  function SendError(e: NostrError): LinkErrorKind {
    match e
    case RelayEventStoreFull(_) => Backpressure
    case RelayOutputFull(_) => Backpressure
    case ContentTooLarge(_, _) => FrameTooLarge
    case EnvelopeTooLarge(_, _) => FrameTooLarge
    case OutputTooSmall(_, _) => FrameTooLarge
    case _ => Protocol
  }

  function RejectionError(status: Status): LinkErrorKind {
    match status.prefix
    case RateLimited => Backpressure
    case Pow => Backpressure
    case AuthRequired => LinkDown
    case _ => Protocol
  }

  datatype Sender = Sender(up: bool, mtu: nat, secret: Bytes32, recipient: Bytes32)

  function Seconds(now: U64): U64 {
    var ms: int := now;
    ms / 1000
  }

  function Send(c: Crypto, signer: Signer, g: Sender, st: State, bytes: Bytes, now: U64): (State, Result<(), LinkErrorKind>) {
    if !g.up then (st, Err(LinkDown))
    else if |bytes| > g.mtu then (st, Err(FrameTooLarge))
    else
      match EnvelopeEvent(c, signer, bytes, g.secret, g.recipient, Seconds(now))
      case Err(e) => (st, Err(SendError(e)))
      case Ok(event) =>
        var (next, r) := Publish(st, c, event, FRAME_BUFFER_LEN, HyfEnvelope);
        match r
        case Err(e) => (next, Err(SendError(e)))
        case Ok(Accepted(_)) => (next, Ok(()))
        case Ok(AcceptedDuplicate(_)) => (next, Ok(()))
        case Ok(Rejected(status)) => (next, Err(RejectionError(status)))
  }

  /** How a failure of the relay, or of making the event, is reported to the link. */
  lemma SendErrorMeans(e: NostrError)
    ensures SendError(e) == Backpressure <==> e.RelayEventStoreFull? || e.RelayOutputFull?
    ensures SendError(e) == FrameTooLarge <==> e.ContentTooLarge? || e.EnvelopeTooLarge? || e.OutputTooSmall?
    ensures SendError(e) in {Backpressure, FrameTooLarge, Protocol}
  {
  }

  lemma RejectionErrorMeans(status: Status)
    ensures RejectionError(status) == Backpressure <==> status.prefix.Pow? || status.prefix.RateLimited?
    ensures RejectionError(status) == LinkDown <==> status.prefix.AuthRequired?
    ensures RejectionError(status) in {Backpressure, LinkDown, Protocol}
  {
  }

  /** Every outcome of a send: a link that is down or a frame too large change nothing, nor
      does an event that cannot be made; otherwise the relay's answer decides. */
  lemma SendMeans(c: Crypto, signer: Signer, g: Sender, st: State, bytes: Bytes, now: U64)
    ensures !g.up ==> Send(c, signer, g, st, bytes, now) == (st, Err(LinkDown))
    ensures g.up && |bytes| > g.mtu ==> Send(c, signer, g, st, bytes, now) == (st, Err(FrameTooLarge))
    ensures g.up && |bytes| <= g.mtu ==>
      var (next, r) := Send(c, signer, g, st, bytes, now);
      var event := EnvelopeEvent(c, signer, bytes, g.secret, g.recipient, Seconds(now));
      && (event.Err? ==> next == st && r == Err(SendError(event.error)))
      && (event.Ok? ==>
            var (after, outcome) := Publish(st, c, event.value, 2048, HyfEnvelope);
            && next == after
            && (r.Ok? <==> outcome.Ok? && !outcome.value.Rejected?)
            && (outcome.Err? ==> r == Err(SendError(outcome.error)))
            && (outcome.Ok? && outcome.value.Rejected? ==> r == Err(RejectionError(outcome.value.status))))
  {
    hide EnvelopeEvent, Publish, SendError, RejectionError;
    var event := EnvelopeEvent(c, signer, bytes, g.secret, g.recipient, Seconds(now));
    if event.Ok? {
      var outcome := Publish(st, c, event.value, 2048, HyfEnvelope).1;
      if outcome.Ok? {
        match outcome.value
        case Accepted(_) =>
        case AcceptedDuplicate(_) =>
        case Rejected(_) =>
      }
    }
  }

  /** A successful send has its event stored: newly, or from an earlier attempt. */
  lemma SentIsStored(c: Crypto, signer: Signer, g: Sender, st: State, bytes: Bytes, now: U64)
    requires Send(c, signer, g, st, bytes, now).1.Ok?
    ensures EnvelopeEvent(c, signer, bytes, g.secret, g.recipient, Seconds(now)).Ok?
    ensures var e, next := EnvelopeEvent(c, signer, bytes, g.secret, g.recipient, Seconds(now)).value, Send(c, signer, g, st, bytes, now).0;
      Contains(next.events, e.id) && (!Contains(st.events, e.id) ==> next.events == st.events + [e])
  {
    hide EnvelopeEvent, ValidateProfile, FromEvent;
    var e := EnvelopeEvent(c, signer, bytes, g.secret, g.recipient, Seconds(now)).value;
    var next := Send(c, signer, g, st, bytes, now).0;
    if !Contains(st.events, e.id) {
      assert next.events[|st.events|] == e;
    }
  }

  /** The event of a send, once polled, hands over exactly the bytes that were sent. */
  lemma SentBytesArrive(c: Crypto, signer: Signer, g: Sender, bytes: Bytes, now: U64, id: string, room: nat)
    requires Honest(c, signer) && EnvelopeEvent(c, signer, bytes, g.secret, g.recipient, Seconds(now)).Ok? && c.envelopeOk(bytes)
    requires |bytes| <= room
    ensures var e := EnvelopeEvent(c, signer, bytes, g.secret, g.recipient, Seconds(now)).value;
      var at: int := e.createdAt;
      at * 1000 <= now < at * 1000 + 1000 && Seen(c, EventOutput(id, e), room) == Ok(Some(Frame(at * 1000, bytes)))
  {
    hide Honest, VerifyAndDecode;
    var e := EnvelopeEvent(c, signer, bytes, g.secret, g.recipient, Seconds(now)).value;
    EnvelopeRoundTrip(c, signer, bytes, g.secret, g.recipient, Seconds(now), room);
    assert e.createdAt == Seconds(now) by { EnvelopeTime(c, signer, bytes, g.secret, g.recipient, Seconds(now)); }
  }

  /** Sent, subscribed to, and polled with a full-sized buffer: the poll that reaches the
      event yields the bytes sent, at the time they were sent, for a subscription whose
      replay comes as far as the event. */
  lemma SentIsPolled(c: Crypto, signer: Signer, g: Sender, st: State, bytes: Bytes, now: U64, id: string, filters: seq<Filter>, room: nat)
    requires Checked(st) && Honest(c, signer) && room >= FRAME_BUFFER_LEN
    requires Send(c, signer, g, st, bytes, now).1.Ok? && EnvelopeEvent(c, signer, bytes, g.secret, g.recipient, Seconds(now)).Ok?
    requires var e := EnvelopeEvent(c, signer, bytes, g.secret, g.recipient, Seconds(now)).value;
      var sent := Send(c, signer, g, st, bytes, now).0;
      && !Contains(st.events, e.id) && Subscribe(sent, id, filters).1.Ok?
      && e in Ranked(filters, sent.events)[..ReplayCount(filters, sent.events)]
    ensures var at: int := EnvelopeEvent(c, signer, bytes, g.secret, g.recipient, Seconds(now)).value.createdAt;
      var sent := Send(c, signer, g, st, bytes, now).0;
      var subscribed := Subscribe(sent, id, filters).0;
      var (last, results) := PollTimes(c, subscribed, room, |subscribed.queue|);
      && last.queue == [] && at * 1000 <= now < at * 1000 + 1000
      && exists i | |sent.queue| <= i < |results| :: results[i] == Ok(Some(Frame(at * 1000, bytes)))
  {
    hide Honest, EnvelopeEvent, Send, Subscribe, Ranked, ReplayCount, PollTimes, Seen, Checked;
    var e := EnvelopeEvent(c, signer, bytes, g.secret, g.recipient, Seconds(now)).value;
    var sent := Send(c, signer, g, st, bytes, now).0;
    var subscribed := Subscribe(sent, id, filters).0;
    SentIsChecked(c, signer, g, st, bytes, now);
    SubscribedQueue(c, sent, id, filters);
    var ranked, k := Ranked(filters, sent.events), ReplayCount(filters, sent.events);
    var j :| 0 <= j < k && ranked[..k][j] == e;
    var i := |sent.queue| + j;
    assert subscribed.queue[i] == EventOutput(id, e) by {
      assert EventOutputs(id, ranked[..k])[j] == EventOutput(id, ranked[..k][j]);
    }
    PollingDrains(c, subscribed, room);
    SentBytesArrive(c, signer, g, bytes, now, id, room);
    assert PollTimes(c, subscribed, room, |subscribed.queue|).1[i] == Seen(c, subscribed.queue[i], room);
  }

  /** What was sent is a valid envelope within the frame buffer, and the relay stays in order. */
  lemma SentIsChecked(c: Crypto, signer: Signer, g: Sender, st: State, bytes: Bytes, now: U64)
    requires Checked(st) && Honest(c, signer) && Send(c, signer, g, st, bytes, now).1.Ok?
    requires EnvelopeEvent(c, signer, bytes, g.secret, g.recipient, Seconds(now)).Ok?
    requires !Contains(st.events, EnvelopeEvent(c, signer, bytes, g.secret, g.recipient, Seconds(now)).value.id)
    ensures Checked(Send(c, signer, g, st, bytes, now).0)
    ensures c.envelopeOk(bytes) && |bytes| <= FRAME_BUFFER_LEN
  {
    hide Honest, EnvelopeEvent, Checked, VerifyAndDecode, StoreNew;
    var e := EnvelopeEvent(c, signer, bytes, g.secret, g.recipient, Seconds(now)).value;
    EnvelopeRoundTrip(c, signer, bytes, g.secret, g.recipient, Seconds(now), FRAME_BUFFER_LEN);
    StepKeepsChecked(c, st, PublishOp(e, FRAME_BUFFER_LEN, HyfEnvelope));
  }

  lemma SubscribedQueue(c: Crypto, st: State, id: string, filters: seq<Filter>)
    requires Checked(st) && Subscribe(st, id, filters).1.Ok?
    ensures var next := Subscribe(st, id, filters).0;
      && Checked(next)
      && next.queue == st.queue + (EventOutputs(id, Ranked(filters, st.events)[..ReplayCount(filters, st.events)]) + [EoseOutput(id)])
  {
    hide Subscribe, Ranked, ReplayCount;
    assert Checked(Step(c, st, SubscribeOp(id, filters)).0) by {
      hide Checked;
      StepKeepsChecked(c, st, SubscribeOp(id, filters));
    }
    SubscribeReplays(st, id, filters);
  }

  lemma EnvelopeTime(c: Crypto, signer: Signer, bytes: Bytes, secret: Bytes32, recipient: Bytes32, createdAt: U64)
    requires EnvelopeEvent(c, signer, bytes, secret, recipient, createdAt).Ok?
    ensures EnvelopeEvent(c, signer, bytes, secret, recipient, createdAt).value.createdAt == createdAt
  {
    hide Canonical.EventId, Hex.HexText;
  }

  // ---- the executor ----

  class NostrGatewayExecutor {
    const relay: RelayDriver.FakeNostrRelay
    const signer: Signer
    var sender: Sender

    ghost predicate Valid()
      reads this, relay, relay.events, relay.subscriptions, relay.outputs, relay.outputEvents
    {
      relay.Valid()
    }

    constructor (relay: RelayDriver.FakeNostrRelay, signer: Signer, sender: Sender)
      requires relay.Valid()
      ensures Valid() && this.relay == relay && this.signer == signer && this.sender == sender.(up := false)
    {
      this.relay, this.signer, this.sender := relay, signer, sender.(up := false);
    }

    method SetUp(up: bool)
      modifies this`sender
      ensures sender == old(sender).(up := up)
    {
      sender := sender.(up := up);
    }

    /** The envelope of an event, decoded into the caller's buffer. */
    method DecodeEventTo(e: Event, output: array<Byte>) returns (r: Result<GatewayOutput, LinkErrorKind>)
      modifies output
      ensures r == DecodeRelayEvent(relay.crypto, e, output.Length)
      ensures r.Ok? ==> r.value.Frame? && |r.value.bytes| <= output.Length && output[..|r.value.bytes|] == r.value.bytes
    {
      hide VerifyEvent, HasRecipientTag, Hex.DecodePairs, Utf8.Encode;
      var at: int := e.createdAt;
      if at * 1000 > 0xFFFF_FFFF_FFFF_FFFF {
        return Err(Protocol);
      }
      var verified := VerifyEvent(relay.crypto, e);
      if verified.Err? {
        return Err(ReceiveError(verified.error));
      }
      if e.kind != ENVELOPE_KIND || !HasRecipientTag(e.tags) {
        return Err(Protocol);
      }
      var fits := ValidateContentLen(e.content);
      if fits.Err? {
        return Err(ReceiveError(fits.error));
      }
      var len := Hex.DecodeLowerHexTo(Utf8.Encode(e.content), output);
      if len.Err? {
        return Err(ReceiveError(len.error));
      }
      if !relay.crypto.envelopeOk(output[..len.value]) {
        return Err(Protocol);
      }
      return Ok(Frame(at * 1000, output[..len.value]));
    }

    method PollRelayOutput(output: array<Byte>) returns (r: Result<Option<GatewayOutput>, LinkErrorKind>)
      requires Valid()
      modifies relay`queuedOutputs, relay.outputs, relay.outputEvents, output
      ensures Valid() && (relay.Value(), r) == Poll(relay.crypto, sender.up, old(relay.Value()), output.Length)
      ensures r.Ok? && r.value.Some? && r.value.value.Frame? ==>
        var bytes := r.value.value.bytes;
        |bytes| <= output.Length && output[..|bytes|] == bytes
    {
      hide RelayDriver.FakeNostrRelay.Valid, RelayDriver.FakeNostrRelay.Value, DecodeRelayEvent, ControlFits;
      if !sender.up {
        return Err(LinkDown);
      }
      var next := relay.NextOutput();
      if next.value.None? {
        return Ok(None);
      }
      if !next.value.value.EventOutput? {
        var control := relay.NextControlOutput();
        var fits := ControlFits(control.value.value);
        if fits.Err? {
          return Err(ReceiveError(fits.error));
        }
        var _ := relay.ConsumeOutput();
        return Ok(Some(Control(control.value.value)));
      }
      var decoded := DecodeEventTo(next.value.value.event, output);
      if decoded.Ok? {
        var _ := relay.ConsumeOutput();
        return Ok(Some(decoded.value));
      }
      if decoded.error != BufferTooSmall {
        var _ := relay.ConsumeOutput();
      }
      return Err(decoded.error);
    }

    method SendLinkBytes(bytes: Bytes, now: U64) returns (r: Result<(), LinkErrorKind>)
      requires Valid()
      modifies relay, relay.outputs, relay.events
      ensures Valid() && (relay.Value(), r) == Send(relay.crypto, signer, sender, old(relay.Value()), bytes, now)
    {
      hide RelayDriver.FakeNostrRelay.Valid, RelayDriver.FakeNostrRelay.Value, EnvelopeEvent, Publish;
      if !sender.up {
        return Err(LinkDown);
      }
      if |bytes| > sender.mtu {
        return Err(FrameTooLarge);
      }
      var event := EnvelopeEvent(relay.crypto, signer, bytes, sender.secret, sender.recipient, Seconds(now));
      if event.Err? {
        return Err(SendError(event.error));
      }
      var published := relay.PublishWithProfile(event.value, FRAME_BUFFER_LEN, HyfEnvelope);
      match published
      case Err(e) => return Err(SendError(e));
      case Ok(Rejected(status)) => return Err(RejectionError(status));
      case Ok(_) => return Ok(());
    }
  }
}
