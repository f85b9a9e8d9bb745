/** Runs of any length on serial links, with bytes arriving, polls, sends and injected
    faults in any order; and two links end to end. */
module LinkDelivery {
  import opened Base
  import opened Kiss
  import opened KissSync
  import opened RNode
  import opened RNodeMeaning
  import opened SerialLink
  import opened LinkRuns

  datatype Op =
    | Feed(bytes: Bytes)
    | PollOp(now: nat, room: nat)
    | PollEventOp(now: nat, room: nat)
    | SendOp(bytes: Bytes)
    | FailRead
    | FailWrite

  /** What a run leaves behind and what was seen on the way: bytes that arrived, frames that
      left the link, decoder errors, payloads handed to pollers, payloads sent, sends and
      frames in the order they happened, and whether some write was cut short. */
  datatype Effect = Effect(next: Link, fed: Bytes, taken: seq<Frame>, raised: seq<KissError>,
                           returned: seq<Bytes>, sent: seq<Bytes>, marks: seq<Mark>, cut: bool)

  function Quiet(next: Link): Effect {
    Effect(next, [], [], [], [], [], [], false)
  }

  function Handed(r: Result<Option<Pending>, SerialError>): seq<Bytes> {
    if r.Ok? && r.value.Some? then [r.value.value.frame.payload] else []
  }

  function Marks(frames: seq<Frame>): (marks: seq<Mark>)
    ensures |marks| == |frames|
  {
    seq(|frames|, i requires 0 <= i < |frames| => FrameMark(frames[i]))
  }

  function EventTaken(cfg: Config, link: Link, now: nat, room: nat): seq<Frame> {
    var loaded := if link.pending.None? then ReadUntilPending(cfg, link, now).0 else link;
    if PollEvent(cfg, link, now, room).0.pending.None? then PendingFrames(loaded) else []
  }

  function Do(cfg: Config, link: Link, op: Op): Effect {
    match op
    case Feed(bytes) => Quiet(link.(port := link.port.(rx := link.port.rx + bytes))).(fed := bytes)
    case PollOp(now, room) =>
      var poll := PollFrame(cfg, link, now, room);
      Effect(poll.next, [], poll.taken, Raised(poll.result), Handed(poll.result), [], Marks(poll.taken), false)
    case PollEventOp(now, room) =>
      var (next, r) := PollEvent(cfg, link, now, room);
      var taken := EventTaken(cfg, link, now, room);
      var returned := if r.Ok? && r.value.Some? && r.value.value.FrameEvent? then [r.value.value.pending.frame.payload] else [];
      Effect(next, [], taken, Raised(r), returned, [], Marks(taken), false)
    case SendOp(bytes) =>
      var (next, r) := Send(cfg, link, bytes);
      Quiet(next).(sent := if r.Ok? then [bytes] else [], marks := if r.Ok? then [SendMark] else [],
                   cut := r.Err? && (r.error.InjectedWriteFailure? || r.error.WriteBufferFull?))
    case FailRead => Quiet(link.(port := link.port.(readFault := true)))
    case FailWrite => Quiet(link.(port := link.port.(writeFault := true)))
  }

  function Both(a: Effect, b: Effect): Effect {
    Effect(b.next, a.fed + b.fed, a.taken + b.taken, a.raised + b.raised,
           a.returned + b.returned, a.sent + b.sent, a.marks + b.marks, a.cut || b.cut)
  }

  function RunOps(cfg: Config, link: Link, ops: seq<Op>): Effect
    decreases |ops|
  {
    if ops == [] then Quiet(link)
    else
      var first := Do(cfg, link, ops[0]);
      Both(first, RunOps(cfg, first.next, ops[1..]))
  }

  // ---- nothing is lost ----

  /** What lies ahead once more bytes have arrived. */
  function Extended(n: nat, s: Stream, bytes: Bytes): Stream {
    var more := RunStream(n, s.next, bytes);
    Stream(more.next, s.frames + more.frames, s.errors + more.errors)
  }

  lemma ExtendedTwice(n: nat, s: Stream, a: Bytes, b: Bytes)
    ensures Extended(n, Extended(n, s, a), b) == Extended(n, s, a + b)
    ensures Extended(n, s, []) == s
  {
    hide RunStream;
    EmptyStream(n, s.next);
    StreamConcat(n, s.next, a, b);
    var first := RunStream(n, s.next, a);
    var second := RunStream(n, first.next, b);
    assert s.frames + (first.frames + second.frames) == s.frames + first.frames + second.frames;
    assert s.errors + (first.errors + second.errors) == s.errors + first.errors + second.errors;
    assert s.frames + [] == s.frames && s.errors + [] == s.errors;
  }

  lemma ExtendedPrefixed(n: nat, taken: seq<Frame>, raised: seq<KissError>, s: Stream, bytes: Bytes)
    ensures Extended(n, Prefixed(taken, raised, s), bytes) == Prefixed(taken, raised, Extended(n, s, bytes))
  {
    hide RunStream;
    var more := RunStream(n, s.next, bytes);
    assert taken + s.frames + more.frames == taken + (s.frames + more.frames);
    assert raised + s.errors + more.errors == raised + (s.errors + more.errors);
  }

  ghost predicate Accounts(n: nat, link: Link, e: Effect) {
    Extended(n, Outlook(n, link), e.fed) == Prefixed(e.taken, e.raised, Outlook(n, e.next))
  }

  lemma FeedAccounts(cfg: Config, link: Link, bytes: Bytes)
    ensures Accounts(cfg.frameMax, link, Do(cfg, link, Feed(bytes)))
  {
    hide RunStream;
    var n := cfg.frameMax;
    StreamConcat(n, link.decoder, link.port.rx, bytes);
    var first := RunStream(n, link.decoder, link.port.rx);
    var second := RunStream(n, first.next, bytes);
    assert PendingFrames(link) + first.frames + second.frames == PendingFrames(link) + (first.frames + second.frames);
    PrefixedTwice([], [], [], [], Outlook(n, Do(cfg, link, Feed(bytes)).next));
  }

  lemma PollEventAccounts(cfg: Config, link: Link, now: nat, room: nat)
    ensures Accounts(cfg.frameMax, link, Do(cfg, link, PollEventOp(now, room)))
  {
    hide ReadUntilPending, RunStream, ParseCommandFrame, Marks;
    var n := cfg.frameMax;
    ExtendedTwice(n, Outlook(n, link), [], []);
    PrefixedTwice([], [], [], [], Outlook(n, link));
    if link.pending.None? {
      ReadConserves(cfg, link, now);
      var (read, r) := ReadUntilPending(cfg, link, now);
      if r == Ok(true) {
        TakePending(n, read);
        PrefixedTwice([], [], [], [], Outlook(n, read));
      } else if r.Ok? {
        PrefixedTwice([], [], [], [], Outlook(n, read));
      }
    } else {
      TakePending(n, link);
    }
  }

  lemma TakePending(n: nat, link: Link)
    requires link.pending.Some?
    ensures forall radio :: Outlook(n, link) == Prefixed([link.pending.value.frame], [], Outlook(n, link.(pending := None, radio := radio)))
  {
    hide RunStream;
    var ahead := RunStream(n, link.decoder, link.port.rx);
    assert [] + ahead.frames == ahead.frames && [] + ahead.errors == ahead.errors;
  }

  lemma SendAccounts(cfg: Config, link: Link, bytes: Bytes)
    ensures Accounts(cfg.frameMax, link, Do(cfg, link, SendOp(bytes)))
  {
    hide RunStream, WritePieces, Pieces;
    WritingKeepsRx(cfg.txMax, link.port, Pieces(Frame(CMD_DATA, bytes)));
    var o := Outlook(cfg.frameMax, link);
    ExtendedTwice(cfg.frameMax, o, [], []);
    PrefixedTwice([], [], [], [], o);
  }

  lemma {:induction false} WritingKeepsRx(txMax: nat, port: Port, pieces: seq<Bytes>)
    ensures var (next, r) := WritePieces(txMax, port, pieces);
      next.rx == port.rx && next.readFault == port.readFault
    decreases |pieces|
  {
    if pieces != [] {
      WritingKeepsRx(txMax, WriteAll(txMax, port, pieces[0]).0, pieces[1..]);
    }
  }

  lemma DoAccounts(cfg: Config, link: Link, op: Op)
    ensures Accounts(cfg.frameMax, link, Do(cfg, link, op))
  {
    hide RunStream, PollFrame, PollEvent, Send, Marks;
    var o := Outlook(cfg.frameMax, link);
    ExtendedTwice(cfg.frameMax, o, [], []);
    PrefixedTwice([], [], [], [], o);
    match op
    case Feed(bytes) => FeedAccounts(cfg, link, bytes);
    case PollOp(now, room) => PollConserves(cfg, link, now, room);
    case PollEventOp(now, room) => PollEventAccounts(cfg, link, now, room);
    case SendOp(bytes) => SendAccounts(cfg, link, bytes);
    case FailRead =>
    case FailWrite =>
  }

  /** In any run, what was ahead of the link together with what arrived is exactly what left
      it, in order, followed by what is still ahead; decoder errors likewise. */
  lemma {:induction false} RunAccounts(cfg: Config, link: Link, ops: seq<Op>)
    ensures Accounts(cfg.frameMax, link, RunOps(cfg, link, ops))
    decreases |ops|
  {
    hide Do, Outlook, Extended, Prefixed;
    var n := cfg.frameMax;
    if ops == [] {
      ExtendedTwice(n, Outlook(n, link), [], []);
      PrefixedTwice([], [], [], [], Outlook(n, link));
    } else {
      var first := Do(cfg, link, ops[0]);
      var rest := RunOps(cfg, first.next, ops[1..]);
      DoAccounts(cfg, link, ops[0]);
      RunAccounts(cfg, first.next, ops[1..]);
      ExtendedTwice(n, Outlook(n, link), first.fed, rest.fed);
      ExtendedPrefixed(n, first.taken, first.raised, Outlook(n, first.next), rest.fed);
      PrefixedTwice(first.taken, first.raised, rest.taken, rest.raised, Outlook(n, rest.next));
    }
  }

  /** On a new link: the frames decoded from all bytes that arrived are the frames taken,
      then the pending one, then those in bytes not yet read. */
  lemma NothingLost(cfg: Config, link: Link, ops: seq<Op>)
    requires NewLink(cfg, link.port) == Ok(link) && link.port.rx == []
    ensures var e := RunOps(cfg, link, ops);
      RunStream(cfg.frameMax, Fresh, e.fed) == Prefixed(e.taken, e.raised, Outlook(cfg.frameMax, e.next))
  {
    hide RunStream, RunOps;
    RunAccounts(cfg, link, ops);
    EmptyStream(cfg.frameMax, Fresh);
    assert Outlook(cfg.frameMax, link) == Stream(Fresh, [], []);
    var all := RunStream(cfg.frameMax, Fresh, RunOps(cfg, link, ops).fed);
    assert [] + all.frames == all.frames && [] + all.errors == all.errors;
  }

  // ---- what pollers get ----

  /** The payloads of the data frames that carry envelopes. */
  function Deliverable(cfg: Config, frames: seq<Frame>): seq<Bytes> {
    if frames == [] then []
    else
      (if frames[0].command == CMD_DATA && cfg.envelopeOk(frames[0].payload) then [frames[0].payload] else [])
      + Deliverable(cfg, frames[1..])
  }

  lemma {:induction false} DeliverableConcat(cfg: Config, a: seq<Frame>, b: seq<Frame>)
    ensures Deliverable(cfg, a + b) == Deliverable(cfg, a) + Deliverable(cfg, b)
  {
    if a == [] {
      assert a + b == b;
    } else {
      assert (a + b)[1..] == a[1..] + b;
      DeliverableConcat(cfg, a[1..], b);
    }
  }

  lemma {:induction false} AbsorbedDeliverNothing(cfg: Config, frames: seq<Frame>)
    requires AllAbsorbed(frames)
    ensures Deliverable(cfg, frames) == []
  {
    if frames != [] {
      assert Absorbed(frames[0]);
      AbsorbedDeliverNothing(cfg, frames[1..]);
    }
  }

  lemma PollReturns(cfg: Config, link: Link, now: nat, room: nat)
    ensures var poll := PollFrame(cfg, link, now, room);
      Handed(poll.result) == Deliverable(cfg, poll.taken)
  {
    PollMeans(cfg, link, now, room);
    hide PollFrame, Deliverable;
    var poll := PollFrame(cfg, link, now, room);
    if AllAbsorbed(poll.taken) {
      AbsorbedDeliverNothing(cfg, poll.taken);
    } else {
      var k := |poll.taken| - 1;
      assert poll.taken == poll.taken[..k] + [poll.taken[k]];
      DeliverableConcat(cfg, poll.taken[..k], [poll.taken[k]]);
      AbsorbedDeliverNothing(cfg, poll.taken[..k]);
      DeliverOne(cfg, poll.taken[k]);
    }
  }

  lemma DeliverOne(cfg: Config, f: Frame)
    ensures Deliverable(cfg, [f]) == if f.command == CMD_DATA && cfg.envelopeOk(f.payload) then [f.payload] else []
  {
    assert Deliverable(cfg, [f][1..]) == [];
  }

  predicate GatewayPollsOnly(ops: seq<Op>) {
    forall i | 0 <= i < |ops| :: !ops[i].PollEventOp?
  }

  /** Pollers get exactly the envelopes among the frames taken, in order. */
  lemma {:induction false} ReturnedExactly(cfg: Config, link: Link, ops: seq<Op>)
    requires GatewayPollsOnly(ops)
    ensures var e := RunOps(cfg, link, ops);
      e.returned == Deliverable(cfg, e.taken)
    decreases |ops|
  {
    hide PollFrame, Send, Marks;
    if ops != [] {
      var first := Do(cfg, link, ops[0]);
      var rest := RunOps(cfg, first.next, ops[1..]);
      if ops[0].PollOp? {
        PollReturns(cfg, link, ops[0].now, ops[0].room);
      }
      assert first.returned == Deliverable(cfg, first.taken);
      ReturnedExactly(cfg, first.next, ops[1..]);
      DeliverableConcat(cfg, first.taken, rest.taken);
    }
  }

  // ---- flow control ----

  lemma {:induction false} RunRadioConcat(radio: Radio, a: seq<Action>, b: seq<Action>)
    ensures RunRadio(radio, a + b) ==
      match RunRadio(radio, a) { case None => None case Some(r) => RunRadio(r, b) }
    decreases |a|
  {
    if a == [] {
      assert a + b == b;
    } else {
      assert (a + b)[1..] == a[1..] + b;
      match a[0]
      case Sent => RunRadioConcat(radio.TxStarted(), a[1..], b);
      case Applied(event) => RunRadioConcat(radio.Apply(event), a[1..], b);
    }
  }

  lemma {:induction false} PollDrivesRadio(cfg: Config, link: Link, now: nat, room: nat)
    ensures var poll := PollFrame(cfg, link, now, room);
      RunRadio(link.radio, ActionsOf(Marks(poll.taken))) == Some(poll.next.radio)
    decreases Work(link), 1
  {
    hide ReadUntilPending, PollFrame, Work, ParseCommandFrame, ActionsOf, Marks;
    NoMarks(link.radio);
    if link.pending.None? {
      PollStarts(cfg, link, now, room);
      ReadConserves(cfg, link, now);
      var (read, r) := ReadUntilPending(cfg, link, now);
      if r.Ok? && r.value {
        PollPendingDrivesRadio(cfg, read, now, room);
      }
    } else {
      PollPendingDrivesRadio(cfg, link, now, room);
    }
  }

  lemma NoMarks(radio: Radio)
    ensures RunRadio(radio, ActionsOf(Marks([]))) == Some(radio)
  {
  }

  lemma {:induction false} PollPendingDrivesRadio(cfg: Config, link: Link, now: nat, room: nat)
    requires link.pending.Some?
    ensures var poll := PollFrame(cfg, link, now, room);
      RunRadio(link.radio, ActionsOf(Marks(poll.taken))) == Some(poll.next.radio)
    decreases Work(link), 0
  {
    hide PollFrame, Work, ParseCommandFrame, ActionsOf, Marks, EventOf;
    PollContinues(cfg, link, now, room);
    var p := link.pending.value;
    NoMarks(link.radio);
    OneMark(link.radio, p.frame, []);
    assert [p.frame] + [] == [p.frame];
    if p.frame.command == CMD_DATA {
      DataChangesNothing(link.radio, p.frame);
      NoMarks(link.radio.Apply(EventOf(p.frame)));
    } else {
      var (next, r) := DrainCommand(link, p);
      if r.Ok? {
        PollDrivesRadio(cfg, next, now, room);
        OneMark(link.radio, p.frame, PollFrame(cfg, next, now, room).taken);
        assert EventOf(p.frame) == r.value by { Parsed(p.frame); }
      }
    }
  }

  lemma Parsed(f: Frame)
    ensures ParseCommandFrame(f).Ok? ==> EventOf(f) == ParseCommandFrame(f).value
  {
    hide ParseCommandFrame;
  }

  lemma OneMark(radio: Radio, f: Frame, rest: seq<Frame>)
    ensures RunRadio(radio, ActionsOf(Marks([f] + rest))) == RunRadio(radio.Apply(EventOf(f)), ActionsOf(Marks(rest)))
  {
    hide ParseCommandFrame, EventOf;
    var actions := ActionsOf(Marks([f] + rest));
    assert actions[0] == Applied(EventOf(f));
    assert actions[1..] == ActionsOf(Marks(rest));
  }

  /** Data frames leave the radio as it is. */
  lemma DataChangesNothing(radio: Radio, f: Frame)
    requires f.command == CMD_DATA
    ensures radio.Apply(EventOf(f)) == radio
  {
    ParseIff(f, Data(f.payload));
    hide ParseCommandFrame;
  }

  lemma PollEventDrivesRadio(cfg: Config, link: Link, now: nat, room: nat)
    ensures var (next, r) := PollEvent(cfg, link, now, room);
      RunRadio(link.radio, ActionsOf(Marks(EventTaken(cfg, link, now, room)))) == Some(next.radio)
  {
    hide ReadUntilPending, ParseCommandFrame, ActionsOf, Marks, EventOf;
    var loaded := if link.pending.None? then ReadUntilPending(cfg, link, now).0 else link;
    if link.pending.None? {
      ReadConserves(cfg, link, now);
    }
    NoMarks(loaded.radio);
    if loaded.pending.Some? {
      var f := loaded.pending.value.frame;
      OneMark(loaded.radio, f, []);
      assert [f] + [] == [f];
      NoMarks(loaded.radio.Apply(EventOf(f)));
      if f.command == CMD_DATA {
        DataChangesNothing(loaded.radio, f);
      } else {
        Parsed(f);
      }
    }
  }

  lemma DoDrivesRadio(cfg: Config, link: Link, op: Op)
    ensures var e := Do(cfg, link, op);
      RunRadio(link.radio, ActionsOf(e.marks)) == Some(e.next.radio)
  {
    hide PollFrame, PollEvent, Marks, EventTaken, WritePieces, Pieces;
    match op
    case PollOp(now, room) => PollDrivesRadio(cfg, link, now, room);
    case PollEventOp(now, room) => PollEventDrivesRadio(cfg, link, now, room);
    case SendOp(bytes) =>
      assert ActionsOf([SendMark]) == [Sent];
      RunOne(link.radio, Sent);
    case _ =>
  }

  lemma {:induction false} RunDrivesRadio(cfg: Config, link: Link, ops: seq<Op>)
    ensures var e := RunOps(cfg, link, ops);
      RunRadio(link.radio, ActionsOf(e.marks)) == Some(e.next.radio)
    decreases |ops|
  {
    hide Do, ActionsOf;
    if ops == [] {
      assert ActionsOf([]) == [];
    } else {
      var first := Do(cfg, link, ops[0]);
      var rest := RunOps(cfg, first.next, ops[1..]);
      DoDrivesRadio(cfg, link, ops[0]);
      RunDrivesRadio(cfg, first.next, ops[1..]);
      ActionsConcat(first.marks, rest.marks);
      RunRadioConcat(link.radio, ActionsOf(first.marks), ActionsOf(rest.marks));
    }
  }

  function SendsIn(marks: seq<Mark>): nat {
    if marks == [] then 0 else (if marks[0].SendMark? then 1 else 0) + SendsIn(marks[1..])
  }

  function FramesIn(marks: seq<Mark>): seq<Frame> {
    if marks == [] then [] else MarkFrames(marks[0]) + FramesIn(marks[1..])
  }

  function MarkFrames(m: Mark): seq<Frame> {
    if m.FrameMark? then [m.frame] else []
  }

  lemma {:induction false} MarksConcat(a: seq<Mark>, b: seq<Mark>)
    ensures FramesIn(a + b) == FramesIn(a) + FramesIn(b) && SendsIn(a + b) == SendsIn(a) + SendsIn(b)
  {
    hide MarkFrames;
    if a == [] {
      assert a + b == b;
    } else {
      assert (a + b)[1..] == a[1..] + b;
      MarksConcat(a[1..], b);
      assert MarkFrames(a[0]) + (FramesIn(a[1..]) + FramesIn(b)) == MarkFrames(a[0]) + FramesIn(a[1..]) + FramesIn(b);
    }
  }

  lemma {:induction false} FramesInMarks(frames: seq<Frame>)
    ensures FramesIn(Marks(frames)) == frames && SendsIn(Marks(frames)) == 0
  {
    if frames != [] {
      assert Marks(frames)[1..] == Marks(frames[1..]);
      FramesInMarks(frames[1..]);
      assert frames == [frames[0]] + frames[1..];
    }
  }

  lemma DoMarks(cfg: Config, link: Link, op: Op)
    ensures var e := Do(cfg, link, op);
      FramesIn(e.marks) == e.taken && SendsIn(e.marks) == |e.sent|
  {
    hide PollFrame, PollEvent, Send, Marks, EventTaken;
    FramesInMarks(Do(cfg, link, op).taken);
    assert [SendMark][1..] == [];
  }

  /** The marks of a run are its successful sends and the frames it took, all of them. */
  lemma {:induction false} MarksAreComplete(cfg: Config, link: Link, ops: seq<Op>)
    ensures var e := RunOps(cfg, link, ops);
      FramesIn(e.marks) == e.taken && SendsIn(e.marks) == |e.sent|
    decreases |ops|
  {
    hide Do, FramesIn, SendsIn;
    if ops == [] {
      NoneMarked();
    } else {
      var first := Do(cfg, link, ops[0]);
      DoMarks(cfg, link, ops[0]);
      MarksAreComplete(cfg, first.next, ops[1..]);
      MarksConcat(first.marks, RunOps(cfg, first.next, ops[1..]).marks);
    }
  }

  lemma NoneMarked()
    ensures FramesIn([]) == [] && SendsIn([]) == 0
  {
  }

  /** On a link with flow control, before every successful send of any run a Ready frame was
      taken, and between the two there was no other send and no hardware error frame. */
  lemma EverySendIsLicensed(cfg: Config, link: Link, ops: seq<Op>)
    requires NewLink(cfg, link.port) == Ok(link) && cfg.flowControl
    ensures var marks := RunOps(cfg, link, ops).marks;
      forall i | 0 <= i < |marks| && marks[i].SendMark? :: FrameLicensed(marks, i)
  {
    hide RunOps, RunRadio, FrameLicensed, Licensed;
    var marks := RunOps(cfg, link, ops).marks;
    RunDrivesRadio(cfg, link, ops);
    FlowControlIff(ActionsOf(marks));
    forall i | 0 <= i < |marks| && marks[i].SendMark? ensures FrameLicensed(marks, i) {
      assert ActionsOf(marks)[i].Sent?;
      LicensedByFrames(marks, i);
    }
  }

  // ---- what goes out ----

  /** The separate writes of a frame amount to its encoding. */
  lemma PiecesAreEncoding(f: Frame)
    ensures Concat(Pieces(f)) == Encode(f)
  {
    var pieces := Pieces(f);
    assert pieces[1..] == StuffPieces(f.payload) + [[FEND]];
    ConcatSnoc(StuffPieces(f.payload), [FEND]);
    StuffPiecesConcat(f.payload);
  }

  lemma {:induction false} StuffPiecesConcat(payload: Bytes)
    ensures Concat(StuffPieces(payload)) == StuffAll(payload)
  {
    hide Stuff;
    if payload != [] {
      assert StuffPieces(payload)[1..] == StuffPieces(payload[1..]);
      StuffPiecesConcat(payload[1..]);
    }
  }

  /** A write sends everything or, failing, some of its leading bytes. */
  lemma {:induction false} WriteExtends(txMax: nat, port: Port, pieces: seq<Bytes>)
    ensures var (next, r) := WritePieces(txMax, port, pieces);
      && (r.Ok? ==> next.tx == port.tx + Concat(pieces))
      && (r.Err? ==> port.tx <= next.tx <= port.tx + Concat(pieces) && (r.error.InjectedWriteFailure? || r.error.WriteBufferFull?))
    decreases |pieces|
  {
    if pieces == [] {
      assert port.tx + Concat<Byte>([]) == port.tx;
    } else {
      var (next, r) := WriteAll(txMax, port, pieces[0]);
      if r.Ok? {
        WriteExtends(txMax, next, pieces[1..]);
        assert port.tx + pieces[0] + Concat(pieces[1..]) == port.tx + (pieces[0] + Concat(pieces[1..]));
      }
    }
  }

  function DataFrames(payloads: seq<Bytes>): (frames: seq<Frame>)
    ensures |frames| == |payloads|
  {
    seq(|payloads|, i requires 0 <= i < |payloads| => Frame(CMD_DATA, payloads[i]))
  }

  /** Sends of a run without a cut write put exactly the encodings of their payloads on the
      line; each was an envelope within the maximum size. */
  lemma {:induction false} SendsWriteFrames(cfg: Config, link: Link, ops: seq<Op>)
    requires !RunOps(cfg, link, ops).cut
    ensures var e := RunOps(cfg, link, ops);
      e.next.port.tx == link.port.tx + EncodeAll(DataFrames(e.sent))
    ensures var e := RunOps(cfg, link, ops);
      forall i | 0 <= i < |e.sent| :: cfg.envelopeOk(e.sent[i]) && |e.sent[i]| <= cfg.mtu
    decreases |ops|
  {
    hide Do, Encode;
    if ops == [] {
      assert link.port.tx + EncodeAll([]) == link.port.tx;
    } else {
      var first := Do(cfg, link, ops[0]);
      var rest := RunOps(cfg, first.next, ops[1..]);
      SendsWriteFrames(cfg, first.next, ops[1..]);
      OneSendWrites(cfg, link, ops[0]);
      assert DataFrames(first.sent + rest.sent) == DataFrames(first.sent) + DataFrames(rest.sent);
      EncodeAllConcat(DataFrames(first.sent), DataFrames(rest.sent));
      assert link.port.tx + EncodeAll(DataFrames(first.sent)) + EncodeAll(DataFrames(rest.sent))
          == link.port.tx + (EncodeAll(DataFrames(first.sent)) + EncodeAll(DataFrames(rest.sent)));
    }
  }

  lemma OneSendWrites(cfg: Config, link: Link, op: Op)
    requires !Do(cfg, link, op).cut
    ensures var e := Do(cfg, link, op);
      e.next.port.tx == link.port.tx + EncodeAll(DataFrames(e.sent))
    ensures var e := Do(cfg, link, op);
      forall i | 0 <= i < |e.sent| :: cfg.envelopeOk(e.sent[i]) && |e.sent[i]| <= cfg.mtu
  {
    hide PollFrame, PollEvent, Marks, EventTaken, WritePieces, Pieces, Encode;
    assert link.port.tx + EncodeAll([]) == link.port.tx;
    match op
    case PollOp(now, room) => PollMeans(cfg, link, now, room);
    case PollEventOp(now, room) => PollEventKeepsTx(cfg, link, now, room);
    case SendOp(bytes) =>
      var f := Frame(CMD_DATA, bytes);
      WriteExtends(cfg.txMax, link.port, Pieces(f));
      PiecesAreEncoding(f);
      assert DataFrames([bytes]) == [f] && [f][1..] == [];
      assert EncodeAll([f]) == Encode(f) + EncodeAll([]);
      assert Encode(f) + [] == Encode(f);
    case _ =>
  }

  lemma PollEventKeepsTx(cfg: Config, link: Link, now: nat, room: nat)
    ensures PollEvent(cfg, link, now, room).0.port.tx == link.port.tx
  {
    hide ReadUntilPending, ParseCommandFrame;
    if link.pending.None? {
      ReadConserves(cfg, link, now);
    }
  }

  lemma {:induction false} EncodeAllConcat(a: seq<Frame>, b: seq<Frame>)
    ensures EncodeAll(a + b) == EncodeAll(a) + EncodeAll(b)
  {
    hide Encode;
    if a == [] {
      assert a + b == b;
    } else {
      assert (a + b)[1..] == a[1..] + b;
      EncodeAllConcat(a[1..], b);
    }
  }

  // ---- end to end ----

  lemma {:induction false} EnvelopesAreDeliverable(cfg: Config, payloads: seq<Bytes>)
    requires forall i | 0 <= i < |payloads| :: cfg.envelopeOk(payloads[i])
    ensures Deliverable(cfg, DataFrames(payloads)) == payloads
  {
    if payloads != [] {
      assert DataFrames(payloads)[1..] == DataFrames(payloads[1..]);
      EnvelopesAreDeliverable(cfg, payloads[1..]);
    }
  }

  /** Any decoder with room for the sender's payloads hears exactly what was sent. */
  lemma SentIsHeard(cfg: Config, sender: Link, ops: seq<Op>, n: nat)
    requires sender.port.tx == [] && !RunOps(cfg, sender, ops).cut && cfg.mtu + 1 <= n
    ensures var e := RunOps(cfg, sender, ops);
      var heard := RunStream(n, Fresh, e.next.port.tx);
      heard.frames == DataFrames(e.sent) && heard.errors == []
  {
    hide RunOps, RunStream;
    var sent := RunOps(cfg, sender, ops).sent;
    SendsWriteFrames(cfg, sender, ops);
    assert [] + EncodeAll(DataFrames(sent)) == EncodeAll(DataFrames(sent));
    SelfSynchronising(n, Fresh, DataFrames(sent));
    assert [] + DataFrames(sent) == DataFrames(sent);
  }

  lemma DrainedDeliversNothing(cfg: Config, link: Link)
    requires link.pending.None? && link.port.rx == []
    ensures Deliverable(cfg, Outlook(cfg.frameMax, link).frames) == []
  {
    EmptyStream(cfg.frameMax, link.decoder);
  }

  /** What one new link sends, another new link that hears it hands to its poller: never an
      error, nothing changed or out of order, and all of it once the receiver has drained.
      The constructor's check of the receiver is all the room that is needed. */
  lemma EndToEnd(a: Config, sender: Link, ops: seq<Op>, b: Config, receiver: Link, heard: seq<Op>)
    requires NewLink(a, sender.port) == Ok(sender) && sender.port.tx == []
    requires NewLink(b, receiver.port) == Ok(receiver) && receiver.port.rx == []
    requires a.mtu <= b.mtu && a.envelopeOk == b.envelopeOk
    requires !RunOps(a, sender, ops).cut && GatewayPollsOnly(heard)
    requires RunOps(b, receiver, heard).fed == RunOps(a, sender, ops).next.port.tx
    ensures var sent, r := RunOps(a, sender, ops).sent, RunOps(b, receiver, heard);
      && r.raised == [] && sent == r.returned + Deliverable(b, Outlook(b.frameMax, r.next).frames)
      && (r.next.pending.None? && r.next.port.rx == [] ==> r.returned == sent)
  {
    hide RunOps, RunStream, Deliverable, Outlook;
    var sent, r := RunOps(a, sender, ops).sent, RunOps(b, receiver, heard);
    SentIsHeard(a, sender, ops, b.frameMax);
    SendsWriteFrames(a, sender, ops);
    EnvelopesAreDeliverable(b, sent);
    NothingLost(b, receiver, heard);
    ReturnedExactly(b, receiver, heard);
    DeliverableConcat(b, r.taken, Outlook(b.frameMax, r.next).frames);
    if r.next.pending.None? && r.next.port.rx == [] {
      DrainedDeliversNothing(b, r.next);
      assert r.returned + [] == r.returned;
    }
  }

  // ---- cut writes ----

  /** Which configurations make a link, and how it starts. */
  lemma NewLinkMeans(cfg: Config, port: Port)
    ensures var r := NewLink(cfg, port);
      && (r.Ok? <==> 0 < cfg.mtu < cfg.frameMax)
      && (r.Ok? ==> r.value == Link(port, Fresh, None, Radio(cfg.flowControl, !cfg.flowControl, None)))
      && (r.Err? ==> r.error == if cfg.mtu == 0 then InvalidMtu(0) else InvalidFrameCapacity(cfg.mtu, cfg.frameMax))
  {
  }

  /** When a send succeeds, and what it then changes: the encoding goes on the line, and
      under flow control the radio is no longer ready. */
  lemma SendMeans(cfg: Config, link: Link, bytes: Bytes)
    ensures var (next, r) := Send(cfg, link, bytes);
      var text := Encode(Frame(0x00, bytes));
      && (r.Ok? <==>
            && cfg.envelopeOk(bytes) && |bytes| <= cfg.mtu && (link.radio.flowControl ==> link.radio.ready)
            && !link.port.writeFault && |link.port.tx| + |text| <= cfg.txMax)
      && (r.Ok? ==>
            && next.port == link.port.(tx := link.port.tx + text) && next.pending == link.pending && next.decoder == link.decoder
            && next.radio == link.radio.(ready := link.radio.ready && !link.radio.flowControl))
      && (r.Err? ==> next == link.(port := next.port) && link.port.tx <= next.port.tx <= link.port.tx + text)
      && (r == Err(InjectedWriteFailure) ==> link.port.writeFault && next.port == link.port.(writeFault := false))
      && (r.Err? && r.error.WriteBufferFull? ==>
            !link.port.writeFault && r.error.capacity == cfg.txMax && FilledUp(cfg.txMax, link.port, Pieces(Frame(0x00, bytes)), next.port, r.error.required))
      && (!cfg.envelopeOk(bytes) ==> r == Err(HyfWireFailure) && next == link)
      && (cfg.envelopeOk(bytes) && |bytes| > cfg.mtu ==> r == Err(PayloadTooLarge(|bytes|, cfg.mtu)) && next == link)
      && (cfg.envelopeOk(bytes) && |bytes| <= cfg.mtu && link.radio.flowControl && !link.radio.ready ==>
            r == Err(FlowControlBlocked) && next == link)
  {
    hide WritePieces, Pieces, Encode;
    var f := Frame(CMD_DATA, bytes);
    assert f == Frame(0x00, bytes);
    WriteExtends(cfg.txMax, link.port, Pieces(f));
    WriteSucceedsIff(cfg.txMax, link.port, Pieces(f));
    assert Pieces(f) != [] by { AtLeastTwoPieces(f); }
    WritingKeepsRx(cfg.txMax, link.port, Pieces(f));
    WriteFailure(cfg.txMax, link.port, Pieces(f));
    PiecesAreEncoding(f);
  }

  /** The first piece that does not fit is the one that fails; those before it are written. */
  ghost predicate FilledUp(txMax: nat, port: Port, pieces: seq<Bytes>, next: Port, required: nat) {
    exists k | 0 <= k < |pieces| ::
      next == port.(tx := port.tx + Concat(pieces[..k])) && required == |next.tx| + |pieces[k]| && required > txMax
  }

  lemma {:induction false} WriteFailure(txMax: nat, port: Port, pieces: seq<Bytes>)
    ensures var (next, r) := WritePieces(txMax, port, pieces);
      && (pieces != [] && port.writeFault ==> r == Err(InjectedWriteFailure) && next == port.(writeFault := false))
      && (!port.writeFault && r.Err? ==>
            r.error.WriteBufferFull? && r.error.capacity == txMax && FilledUp(txMax, port, pieces, next, r.error.required))
    decreases |pieces|
  {
    if pieces != [] && !port.writeFault {
      var (written, first) := WriteAll(txMax, port, pieces[0]);
      if first.Err? {
        assert pieces[..0] == [] && port.tx + [] == port.tx;
        assert written == port.(tx := port.tx + Concat(pieces[..0]));
      } else {
        WriteFailure(txMax, written, pieces[1..]);
        var (next, r) := WritePieces(txMax, written, pieces[1..]);
        if r.Err? {
          var k :| 0 <= k < |pieces[1..]| && next == written.(tx := written.tx + Concat(pieces[1..][..k]))
            && r.error.required == |next.tx| + |pieces[1..][k]| && r.error.required > txMax;
          assert pieces[..k + 1][1..] == pieces[1..][..k];
          assert port.tx + pieces[0] + Concat(pieces[1..][..k]) == port.tx + Concat(pieces[..k + 1]);
          assert pieces[k + 1] == pieces[1..][k];
        }
      }
    }
  }

  lemma AtLeastTwoPieces(f: Frame)
    ensures |Pieces(f)| == |f.payload| + 2
  {
  }

  lemma {:induction false} WriteSucceedsIff(txMax: nat, port: Port, pieces: seq<Bytes>)
    ensures var (next, r) := WritePieces(txMax, port, pieces);
      && (pieces != [] ==> (r.Ok? <==> !port.writeFault && |port.tx| + |Concat(pieces)| <= txMax))
      && (r.Ok? ==> next.writeFault == port.writeFault)
    decreases |pieces|
  {
    if pieces != [] {
      var (written, first) := WriteAll(txMax, port, pieces[0]);
      assert |Concat(pieces)| == |pieces[0]| + |Concat(pieces[1..])|;
      if first.Ok? {
        WriteSucceedsIff(txMax, written, pieces[1..]);
        if pieces[1..] == [] {
          assert WritePieces(txMax, written, pieces[1..]) == (written, Ok(()));
        }
      }
    }
  }

  /** `a` is what remains of `b` when some of its elements are left out. */
  ghost predicate Within(a: seq<Frame>, b: seq<Frame>) {
    if a == [] then true
    else if b == [] then false
    else if a[|a| - 1] == b[|b| - 1] then Within(a[..|a| - 1], b[..|b| - 1])
    else Within(a, b[..|b| - 1])
  }

  lemma {:induction false} WithinDropsLast(a: seq<Frame>, b: seq<Frame>)
    requires Within(a, b) && a != []
    ensures Within(a[..|a| - 1], b)
    decreases |b|, 0
  {
    var a', b' := a[..|a| - 1], b[..|b| - 1];
    if a[|a| - 1] == b[|b| - 1] {
      WithinSnoc(a', b', b[|b| - 1]);
      assert b == b' + [b[|b| - 1]];
    } else {
      WithinDropsLast(a, b');
      WithinSnoc(a', b', b[|b| - 1]);
      assert b == b' + [b[|b| - 1]];
    }
  }

  lemma {:induction false} WithinSnoc(a: seq<Frame>, b: seq<Frame>, f: Frame)
    requires Within(a, b)
    ensures Within(a, b + [f]) && Within(a + [f], b + [f])
    decreases |b|, 1
  {
    var more := b + [f];
    assert more[..|more| - 1] == b && (a + [f])[..|a + [f]| - 1] == a;
    if a != [] && a[|a| - 1] == f {
      WithinDropsLast(a, b);
    }
  }

  lemma {:induction false} WithinAppend(a: seq<Frame>, b: seq<Frame>, extra: seq<Frame>)
    requires Within(a, b)
    ensures Within(a, b + extra)
    decreases |extra|
  {
    if extra == [] {
      assert b + extra == b;
    } else {
      var init := extra[..|extra| - 1];
      WithinAppend(a, b, init);
      WithinSnoc(a, b + init, extra[|extra| - 1]);
      assert b + init + [extra[|extra| - 1]] == b + extra;
    }
  }

  /** An operation only ever adds to what has been written, and a send that succeeds adds a
      whole frame. */
  lemma TxGrows(cfg: Config, link: Link, op: Op)
    ensures var e := Do(cfg, link, op);
      && link.port.tx <= e.next.port.tx
      && (e.sent != [] ==>
            && e.sent == [e.sent[0]] && |e.sent[0]| <= cfg.mtu
            && e.next.port.tx == link.port.tx + Encode(Frame(CMD_DATA, e.sent[0])))
  {
    hide PollFrame, PollEvent, Marks, EventTaken, WritePieces, Pieces, Encode;
    match op
    case PollOp(now, room) => PollMeans(cfg, link, now, room);
    case PollEventOp(now, room) => PollEventKeepsTx(cfg, link, now, room);
    case SendOp(bytes) =>
      WriteExtends(cfg.txMax, link.port, Pieces(Frame(CMD_DATA, bytes)));
      PiecesAreEncoding(Frame(CMD_DATA, bytes));
    case _ =>
  }

  lemma StepSurvives(cfg: Config, link: Link, op: Op, n: nat, before: seq<Frame>)
    requires cfg.mtu + 1 <= n && Within(before, RunStream(n, Fresh, link.port.tx).frames)
    ensures var e := Do(cfg, link, op);
      Within(before + DataFrames(e.sent), RunStream(n, Fresh, e.next.port.tx).frames)
  {
    hide Do, RunStream, Encode, Within;
    var e := Do(cfg, link, op);
    TxGrows(cfg, link, op);
    var extra := e.next.port.tx[|link.port.tx|..];
    assert e.next.port.tx == link.port.tx + extra;
    StreamConcat(n, Fresh, link.port.tx, extra);
    var heard := RunStream(n, Fresh, link.port.tx);
    if e.sent == [] {
      assert before + DataFrames([]) == before;
      WithinAppend(before, heard.frames, RunStream(n, heard.next, extra).frames);
    } else {
      var f := Frame(CMD_DATA, e.sent[0]);
      assert extra == Encode(f) && DataFrames(e.sent) == [f];
      FrameDecoded(n, heard.next, f);
      WithinAppend(before, heard.frames, Leftover(heard.next));
      WithinSnoc(before, heard.frames + Leftover(heard.next), f);
      assert heard.frames + (Leftover(heard.next) + [f]) == heard.frames + Leftover(heard.next) + [f];
    }
  }

  /** Whatever writes are cut short, the frames of all successful sends arrive whole and in
      order at any decoder large enough, possibly with debris between them. */
  lemma {:induction false} SentFramesSurvive(cfg: Config, link: Link, ops: seq<Op>, n: nat, before: seq<Frame>)
    requires cfg.mtu + 1 <= n && Within(before, RunStream(n, Fresh, link.port.tx).frames)
    ensures var e := RunOps(cfg, link, ops);
      Within(before + DataFrames(e.sent), RunStream(n, Fresh, e.next.port.tx).frames)
    decreases |ops|
  {
    hide Do, RunStream, Within;
    if ops == [] {
      assert before + DataFrames([]) == before;
    } else {
      var first := Do(cfg, link, ops[0]);
      var rest := RunOps(cfg, first.next, ops[1..]);
      StepSurvives(cfg, link, ops[0], n, before);
      SentFramesSurvive(cfg, first.next, ops[1..], n, before + DataFrames(first.sent));
      assert DataFrames(first.sent + rest.sent) == DataFrames(first.sent) + DataFrames(rest.sent);
      assert before + DataFrames(first.sent) + DataFrames(rest.sent) == before + DataFrames(first.sent + rest.sent);
    }
  }

  ghost predicate Envelopes(cfg: Config, frames: seq<Frame>, room: nat) {
    forall i | 0 <= i < |frames| ::
      frames[i].command == CMD_DATA && cfg.envelopeOk(frames[i].payload) && |frames[i].payload| <= room
  }

  /** Progress: with only envelopes ahead that fit the caller's buffer and no fault, each poll
      hands over the next one, and nothing once there is none. */
  lemma PollDelivers(cfg: Config, link: Link, now: nat, room: nat)
    requires !link.port.readFault
    requires Outlook(cfg.frameMax, link).errors == [] && Envelopes(cfg, Outlook(cfg.frameMax, link).frames, room)
    ensures var ahead := Outlook(cfg.frameMax, link).frames;
      var poll := PollFrame(cfg, link, now, room);
      && !poll.next.port.readFault && Outlook(cfg.frameMax, poll.next).errors == []
      && if ahead == [] then poll.result == Ok(None) && Outlook(cfg.frameMax, poll.next).frames == []
         else
           && poll.result.Ok? && poll.result.value.Some? && poll.result.value.value.frame == ahead[0]
           && Outlook(cfg.frameMax, poll.next).frames == ahead[1..]
  {
    PollMeans(cfg, link, now, room);
    PollConserves(cfg, link, now, room);
    hide PollFrame, RunStream;
    var n, ahead, poll := cfg.frameMax, Outlook(cfg.frameMax, link).frames, PollFrame(cfg, link, now, room);
    var after := Outlook(n, poll.next).frames;
    assert ahead == poll.taken + after;
    FirstIsEnvelope(cfg, poll.taken, after, room);
    if poll.taken == [] {
      EmptyStream(n, poll.next.decoder);
    }
  }

  /** One poll at each of the given times. */
  function PollAll(cfg: Config, link: Link, times: seq<nat>, room: nat)
    : (out: (Link, seq<Result<Option<Pending>, SerialError>>))
    ensures |out.1| == |times|
    decreases |times|
  {
    if times == [] then (link, [])
    else
      var poll := PollFrame(cfg, link, times[0], room);
      var (last, results) := PollAll(cfg, poll.next, times[1..], room);
      (last, [poll.result] + results)
  }

  /** Polling on hands over every envelope ahead in order, and then nothing more. */
  lemma {:induction false} PollingDelivers(cfg: Config, link: Link, times: seq<nat>, room: nat)
    requires !link.port.readFault
    requires Outlook(cfg.frameMax, link).errors == [] && Envelopes(cfg, Outlook(cfg.frameMax, link).frames, room)
    ensures var ahead := Outlook(cfg.frameMax, link).frames;
      var (last, results) := PollAll(cfg, link, times, room);
      && (forall i | 0 <= i < |times| ::
            if i < |ahead| then results[i].Ok? && results[i].value.Some? && results[i].value.value.frame == ahead[i]
            else results[i] == Ok(None))
      && Outlook(cfg.frameMax, last).frames == if |times| <= |ahead| then ahead[|times|..] else []
    decreases |times|
  {
    hide PollFrame, Outlook;
    var ahead := Outlook(cfg.frameMax, link).frames;
    if times != [] {
      PollDelivers(cfg, link, times[0], room);
      var poll := PollFrame(cfg, link, times[0], room);
      var rest := Outlook(cfg.frameMax, poll.next).frames;
      PollingDelivers(cfg, poll.next, times[1..], room);
      var results, later := PollAll(cfg, link, times, room).1, PollAll(cfg, poll.next, times[1..], room).1;
      assert results == [poll.result] + later;
      forall i | 0 <= i < |times| ensures
        if i < |ahead| then results[i].Ok? && results[i].value.Some? && results[i].value.value.frame == ahead[i]
        else results[i] == Ok(None)
      {
        if i > 0 {
          assert results[i] == later[i - 1];
        }
      }
    }
  }

  /** Every frame carries the time it was completed at: that of an earlier poll if it was
      pending already, otherwise of this one. */
  lemma {:induction false} PollTime(cfg: Config, link: Link, now: nat, room: nat)
    ensures var poll := PollFrame(cfg, link, now, room);
      && (poll.result.Ok? && poll.result.value.Some? ==>
            if link.pending.Some? && |poll.taken| == 1 then poll.result.value == link.pending
            else poll.result.value.value.receivedAt == now)
      && (poll.next.pending.Some? ==>
            if link.pending.Some? && poll.taken == [] then poll.next.pending == link.pending
            else poll.next.pending.value.receivedAt == now)
    decreases Work(link), 1
  {
    hide ReadUntilPending, PollFrame, Work, ParseCommandFrame;
    if link.pending.None? {
      PollStarts(cfg, link, now, room);
      ReadTime(cfg, link, now);
      var (read, r) := ReadUntilPending(cfg, link, now);
      if r.Ok? && r.value {
        PollPendingTime(cfg, read, now, room);
      }
    } else {
      PollPendingTime(cfg, link, now, room);
    }
  }

  lemma {:induction false} PollPendingTime(cfg: Config, link: Link, now: nat, room: nat)
    requires link.pending.Some?
    ensures var poll := PollFrame(cfg, link, now, room);
      && (poll.result.Ok? && poll.result.value.Some? ==>
            if |poll.taken| == 1 then poll.result.value == link.pending else poll.result.value.value.receivedAt == now)
      && (poll.next.pending.Some? ==>
            if poll.taken == [] then poll.next.pending == link.pending else poll.next.pending.value.receivedAt == now)
      && (poll.result.Ok? && poll.result.value.Some? ==> poll.taken != [])
    decreases Work(link), 0
  {
    hide PollFrame, Work, ParseCommandFrame;
    PollContinues(cfg, link, now, room);
    PollMeans(cfg, link, now, room);
    var p := link.pending.value;
    if p.frame.command != CMD_DATA {
      var (next, r) := DrainCommand(link, p);
      if r.Ok? {
        PollTime(cfg, next, now, room);
        PollMeans(cfg, next, now, room);
      }
    }
  }

  lemma {:induction false} ReadTime(cfg: Config, link: Link, now: nat)
    requires link.pending.None?
    ensures var (read, r) := ReadUntilPending(cfg, link, now);
      read.pending.Some? ==> r == Ok(true) && read.pending.value.receivedAt == now
    decreases |link.port.rx|
  {
    hide StepByte;
    if !link.port.readFault && link.port.rx != [] {
      var step := StepByte(cfg.frameMax, link.decoder, link.port.rx[0]);
      if step.error.None? && step.frame.None? {
        ReadTime(cfg, link.(port := link.port.(rx := link.port.rx[1..]), decoder := step.next), now);
      }
    }
  }

  /** The other poll: what it returns is the one frame it took, as it is or as the event it
      stands for; a frame it cannot return stays pending, and it finds nothing only when
      everything has been read. */
  lemma PollEventMeans(cfg: Config, link: Link, now: nat, room: nat)
    ensures var (next, r) := PollEvent(cfg, link, now, room);
      var taken := EventTaken(cfg, link, now, room);
      && (r.Ok? && r.value.Some? && r.value.value.FrameEvent? ==>
            taken == [r.value.value.pending.frame] && taken[0].command == 0x00 && |taken[0].payload| <= room)
      && (r.Ok? && r.value.Some? && r.value.value.CommandEvent? ==>
            |taken| == 1 && taken[0].command != 0x00 && Stands(taken[0], r.value.value.event))
      && (r == Ok(None) ==> taken == [] && next.pending.None? && next.port.rx == [])
      && (r.Err? ==> taken == [])
      && (r.Err? && r.error.ReadBufferTooSmall? ==> next.pending.Some? && |next.pending.value.frame.payload| > room)
  {
    hide ReadUntilPending, ParseCommandFrame, Stands;
    var loaded := if link.pending.None? then ReadUntilPending(cfg, link, now).0 else link;
    if link.pending.None? {
      ReadConserves(cfg, link, now);
      ReadStops(cfg, link, now);
    }
    if loaded.pending.Some? {
      ParsedStands(loaded.pending.value.frame);
    }
  }

  lemma {:induction false} ReadStops(cfg: Config, link: Link, now: nat)
    requires link.pending.None?
    ensures var (read, r) := ReadUntilPending(cfg, link, now);
      && (r == Ok(false) ==> read.port.rx == [])
      && (r.Err? ==> !r.error.ReadBufferTooSmall?)
      && (r != Ok(true) ==> read.pending.None?)
    decreases |link.port.rx|
  {
    hide StepByte;
    if !link.port.readFault && link.port.rx != [] {
      var step := StepByte(cfg.frameMax, link.decoder, link.port.rx[0]);
      if step.error.None? && step.frame.None? {
        ReadStops(cfg, link.(port := link.port.(rx := link.port.rx[1..]), decoder := step.next), now);
      }
    }
  }

  /** Among envelopes there are no commands, and what comes first is an envelope. */
  lemma FirstIsEnvelope(cfg: Config, taken: seq<Frame>, after: seq<Frame>, room: nat)
    requires Envelopes(cfg, taken + after, room)
    ensures AllAbsorbed(taken) <==> taken == []
    ensures taken != [] ==> (AllAbsorbed(taken[..|taken| - 1]) <==> |taken| == 1)
    ensures forall f, rest :: after == [f] + rest ==>
      f.command == CMD_DATA && cfg.envelopeOk(f.payload) && |f.payload| <= room
    ensures taken != [] ==>
      var last := taken[|taken| - 1];
      last.command == CMD_DATA && cfg.envelopeOk(last.payload)
  {
    var all := taken + after;
    if taken != [] {
      assert all[0] == taken[0] && all[|taken| - 1] == taken[|taken| - 1];
      assert !Absorbed(taken[0]);
      if |taken| > 1 {
        assert taken[..|taken| - 1][0] == taken[0];
      }
    }
    if after != [] {
      assert all[|taken|] == after[0];
    }
  }
}
