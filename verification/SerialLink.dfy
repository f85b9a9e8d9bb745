/** The RNode serial link in envelope mode over a fake serial port: the step functions on
    values, and the classes that carry them out in place. */
module SerialLink {
  import opened Base
  import opened Kiss
  import opened RNode

  datatype SerialError =
    | InvalidMtu(mtu: nat)
    | InvalidFrameCapacity(mtu: nat, capacity: nat)
    | PayloadTooLarge(actual: nat, mtu: nat)
    | ReadBufferTooSmall(actual: nat, required: nat)
    | WriteBufferFull(required: nat, capacity: nat)
    | InjectedReadFailure
    | InjectedWriteFailure
    | FlowControlBlocked
    | KissFailure(kiss: KissError)
    | RNodeFailure(rnode: RNodeError)
    | HyfWireFailure

  /** What a link is built with; `envelopeOk` is the wire decoder's verdict on bytes. */
  datatype Config = Config(mtu: nat, flowControl: bool, frameMax: nat, txMax: nat, envelopeOk: Bytes -> bool)

  datatype Pending = Pending(frame: Frame, receivedAt: nat)

  /** The fake port: unread bytes, written bytes, and the failures injected next. */
  datatype Port = Port(rx: Bytes, tx: Bytes, readFault: bool, writeFault: bool)

  datatype Link = Link(port: Port, decoder: DecoderState, pending: Option<Pending>, radio: Radio)

  function NewLink(cfg: Config, port: Port): Result<Link, SerialError> {
    if cfg.mtu == 0 then Err(InvalidMtu(0))
    else if cfg.mtu + 1 > cfg.frameMax then Err(InvalidFrameCapacity(cfg.mtu, cfg.frameMax))
    else Ok(Link(port, Fresh, None, NewRadio(cfg.flowControl)))
  }

  // ---- writing ----

  /** The separate writes a frame is sent in. */
  function Pieces(f: Frame): seq<Bytes> {
    [[FEND, f.command]] + StuffPieces(f.payload) + [[FEND]]
  }

  function StuffPieces(payload: Bytes): (pieces: seq<Bytes>)
    ensures |pieces| == |payload|
  {
    seq(|payload|, i requires 0 <= i < |payload| => Stuff(payload[i]))
  }

  function WriteAll(txMax: nat, port: Port, bytes: Bytes): (Port, Result<(), SerialError>) {
    if port.writeFault then (port.(writeFault := false), Err(InjectedWriteFailure))
    else if |port.tx| + |bytes| > txMax then (port, Err(WriteBufferFull(|port.tx| + |bytes|, txMax)))
    else (port.(tx := port.tx + bytes), Ok(()))
  }

  /** Pieces go out until one fails. */
  function WritePieces(txMax: nat, port: Port, pieces: seq<Bytes>): (Port, Result<(), SerialError>)
    decreases |pieces|
  {
    if pieces == [] then (port, Ok(()))
    else
      var (next, r) := WriteAll(txMax, port, pieces[0]);
      if r.Err? then (next, r) else WritePieces(txMax, next, pieces[1..])
  }

  function Send(cfg: Config, link: Link, bytes: Bytes): (Link, Result<(), SerialError>) {
    if !cfg.envelopeOk(bytes) then (link, Err(HyfWireFailure))
    else if |bytes| > cfg.mtu then (link, Err(PayloadTooLarge(|bytes|, cfg.mtu)))
    else if !link.radio.CanTransmit() then (link, Err(FlowControlBlocked))
    else
      var (port, r) := WritePieces(cfg.txMax, link.port, Pieces(Frame(CMD_DATA, bytes)));
      if r.Err? then (link.(port := port), r)
      else (link.(port := port, radio := link.radio.TxStarted()), r)
  }

  // ---- reading ----

  /** Bytes are read one at a time until one of them completes a frame. */
  function ReadUntilPending(cfg: Config, link: Link, now: nat): (out: (Link, Result<bool, SerialError>))
    ensures |out.0.port.rx| <= |link.port.rx|
    ensures out.1 == Ok(true) ==> |out.0.port.rx| < |link.port.rx| && out.0.pending.Some?
    decreases |link.port.rx|
  {
    var port := link.port;
    if port.readFault then (link.(port := port.(readFault := false)), Err(InjectedReadFailure))
    else if port.rx == [] then (link, Ok(false))
    else
      var step := StepByte(cfg.frameMax, link.decoder, port.rx[0]);
      var read := link.(port := port.(rx := port.rx[1..]), decoder := step.next);
      if step.error.Some? then (read, Err(KissFailure(step.error.value)))
      else if step.frame.Some? then (read.(pending := Some(Pending(step.frame.value, now))), Ok(true))
      else ReadUntilPending(cfg, read, now)
  }

  /** The data frame in the pending slot: kept when the caller's buffer is too short,
      dropped when it is no envelope, handed over otherwise. */
  function DrainData(cfg: Config, link: Link, pending: Pending, room: nat): (Link, Result<Option<Pending>, SerialError>) {
    var payload := pending.frame.payload;
    if room < |payload| then (link, Err(ReadBufferTooSmall(room, |payload|)))
    else if !cfg.envelopeOk(payload) then (link.(pending := None), Err(HyfWireFailure))
    else (link.(pending := None), Ok(Some(pending)))
  }

  /** The command frame in the pending slot: one that does not parse stays there. */
  function DrainCommand(link: Link, pending: Pending): (Link, Result<RNodeEvent, SerialError>) {
    match ParseCommandFrame(pending.frame)
    case Err(e) => (link, Err(RNodeFailure(e)))
    case Ok(event) => (link.(radio := link.radio.Apply(event), pending := None), Ok(event))
  }

  /** A poll's effect; `taken` lists the frames that left the link, in order. */
  datatype Poll = Poll(next: Link, taken: seq<Frame>, result: Result<Option<Pending>, SerialError>)

  function Work(link: Link): nat {
    2 * |link.port.rx| + if link.pending.Some? then 1 else 0
  }

  function PollFrame(cfg: Config, link: Link, now: nat, room: nat): Poll
    decreases Work(link), 1
  {
    if link.pending.None? then
      var (read, r) := ReadUntilPending(cfg, link, now);
      if r.Err? then Poll(read, [], Err(r.error))
      else if !r.value then Poll(read, [], Ok(None))
      else PollPending(cfg, read, now, room)
    else PollPending(cfg, link, now, room)
  }

  function PollPending(cfg: Config, link: Link, now: nat, room: nat): Poll
    requires link.pending.Some?
    decreases Work(link), 0
  {
    var pending := link.pending.value;
    if pending.frame.command == CMD_DATA then
      var (next, r) := DrainData(cfg, link, pending, room);
      Poll(next, if next.pending.None? then [pending.frame] else [], r)
    else
      var (next, r) := DrainCommand(link, pending);
      if r.Err? then Poll(next, [], Err(r.error))
      else
        var rest := PollFrame(cfg, next, now, room);
        rest.(taken := [pending.frame] + rest.taken)
  }

  /** A poll with nothing pending reads first. */
  lemma PollStarts(cfg: Config, link: Link, now: nat, room: nat)
    requires link.pending.None?
    ensures var (read, r) := ReadUntilPending(cfg, link, now);
      PollFrame(cfg, link, now, room) ==
        if r.Err? then Poll(read, [], Err(r.error))
        else if !r.value then Poll(read, [], Ok(None))
        else PollFrame(cfg, read, now, room)
    ensures var (read, r) := ReadUntilPending(cfg, link, now);
      r == Ok(true) ==> read.pending.Some? && Work(read) < Work(link)
  {
    hide ReadUntilPending;
  }

  /** What a poll does with what is pending. */
  lemma PollContinues(cfg: Config, link: Link, now: nat, room: nat)
    requires link.pending.Some?
    ensures var p := link.pending.value;
      PollFrame(cfg, link, now, room) ==
        if p.frame.command == CMD_DATA then
          var (next, r) := DrainData(cfg, link, p, room);
          Poll(next, if next.pending.None? then [p.frame] else [], r)
        else
          var (next, r) := DrainCommand(link, p);
          if r.Err? then Poll(next, [], Err(r.error))
          else
            var rest := PollFrame(cfg, next, now, room);
            rest.(taken := [p.frame] + rest.taken)
    ensures var (next, r) := DrainCommand(link, link.pending.value);
      r.Ok? ==> Work(next) < Work(link)
  {
    hide DrainData, ParseCommandFrame;
  }

  /** The other poll: one frame or one command event, without the envelope check. */
  datatype LinkEvent = FrameEvent(pending: Pending) | CommandEvent(event: RNodeEvent)

  function PollEvent(cfg: Config, link: Link, now: nat, room: nat): (Link, Result<Option<LinkEvent>, SerialError>) {
    if link.pending.None? then
      var (read, r) := ReadUntilPending(cfg, link, now);
      if r.Err? then (read, Err(r.error))
      else if !r.value then (read, Ok(None))
      else DrainEvent(read, read.pending.value, room)
    else DrainEvent(link, link.pending.value, room)
  }

  function DrainEvent(link: Link, pending: Pending, room: nat): (Link, Result<Option<LinkEvent>, SerialError>) {
    if pending.frame.command == CMD_DATA then
      if room < |pending.frame.payload| then (link, Err(ReadBufferTooSmall(room, |pending.frame.payload|)))
      else (link.(pending := None), Ok(Some(FrameEvent(pending))))
    else
      var (next, r) := DrainCommand(link, pending);
      match r
      case Err(e) => (next, Err(e))
      case Ok(event) => (next, Ok(Some(CommandEvent(event))))
  }
}
