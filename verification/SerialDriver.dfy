/** The fake serial port and the link over it, as objects updated in place. Every method
    equates the new state with the step function of SerialLink on the old one. */
module SerialDriver {
  import opened Base
  import opened Kiss
  import opened RNode
  import opened SerialLink

  class FakeSerial {
    const readBuf: array<Byte>
    var readLen: nat
    const written: array<Byte>
    var writtenLen: nat
    var readFault: bool
    var writeFault: bool

    ghost predicate Valid()
      reads this
    {
      readLen <= readBuf.Length && writtenLen <= written.Length && readBuf != written
    }

    ghost function Value(): Port
      requires Valid()
      reads this, readBuf, written
    {
      Port(readBuf[..readLen], written[..writtenLen], readFault, writeFault)
    }

    constructor (rxMax: nat, txMax: nat)
      ensures Valid() && fresh(readBuf) && fresh(written) && readBuf.Length == rxMax && written.Length == txMax
      ensures Value() == Port([], [], false, false)
    {
      readBuf := new Byte[rxMax](_ => 0);
      written := new Byte[txMax](_ => 0);
      readLen, writtenLen, readFault, writeFault := 0, 0, false, false;
    }

    method PushReadBytes(input: Bytes) returns (r: Result<(), SerialError>)
      requires Valid()
      modifies this`readLen, readBuf
      ensures Valid()
      ensures if |old(Value()).rx| + |input| > readBuf.Length then
          r == Err(WriteBufferFull(|old(Value()).rx| + |input|, readBuf.Length)) && Value() == old(Value())
        else r == Ok(()) && Value() == old(Value()).(rx := old(Value()).rx + input)
    {
      var required := readLen + |input|;
      if required > readBuf.Length {
        return Err(WriteBufferFull(required, readBuf.Length));
      }
      forall i | 0 <= i < |input| {
        readBuf[readLen + i] := input[i];
      }
      assert readBuf[..required] == old(readBuf[..readLen]) + input;
      readLen := required;
      return Ok(());
    }

    method FailNextRead()
      requires Valid()
      modifies this`readFault
      ensures Valid() && Value() == old(Value()).(readFault := true)
    {
      readFault := true;
    }

    method FailNextWrite()
      requires Valid()
      modifies this`writeFault
      ensures Valid() && Value() == old(Value()).(writeFault := true)
    {
      writeFault := true;
    }

    /** As many bytes as fit, taken from the front; the rest move down. */
    method Read(output: array<Byte>) returns (r: Result<nat, SerialError>)
      requires Valid() && output != readBuf && output != written
      modifies this`readLen, this`readFault, readBuf, output
      ensures Valid()
      ensures var port := old(Value());
        if port.readFault then r == Err(InjectedReadFailure) && Value() == port.(readFault := false)
        else if port.rx == [] then r == Ok(0) && Value() == port
        else if output.Length == 0 then r == Err(ReadBufferTooSmall(0, 1)) && Value() == port
        else
          var count := if output.Length < |port.rx| then output.Length else |port.rx|;
          r == Ok(count) && output[..count] == port.rx[..count] && Value() == port.(rx := port.rx[count..])
    {
      if readFault {
        readFault := false;
        return Err(InjectedReadFailure);
      }
      if readLen == 0 {
        return Ok(0);
      }
      if output.Length == 0 {
        return Err(ReadBufferTooSmall(0, 1));
      }
      var count := if output.Length < readLen then output.Length else readLen;
      forall i | 0 <= i < count {
        output[i] := readBuf[i];
      }
      var remaining := readLen - count;
      for index := 0 to remaining
        invariant forall i | 0 <= i < index :: readBuf[i] == old(readBuf[count + i])
        invariant forall i | index <= i < readBuf.Length :: readBuf[i] == old(readBuf[i])
        modifies readBuf
      {
        readBuf[index] := readBuf[count + index];
      }
      assert readBuf[..remaining] == old(readBuf[..readLen])[count..];
      assert output[..count] == old(readBuf[..readLen])[..count];
      readLen := remaining;
      return Ok(count);
    }

    method WriteAllBytes(input: Bytes) returns (r: Result<(), SerialError>)
      requires Valid()
      modifies this`writtenLen, this`writeFault, written
      ensures Valid() && (Value(), r) == WriteAll(written.Length, old(Value()), input)
    {
      if writeFault {
        writeFault := false;
        return Err(InjectedWriteFailure);
      }
      var required := writtenLen + |input|;
      if required > written.Length {
        return Err(WriteBufferFull(required, written.Length));
      }
      forall i | 0 <= i < |input| {
        written[writtenLen + i] := input[i];
      }
      assert written[..required] == old(written[..writtenLen]) + input;
      assert readBuf[..readLen] == old(readBuf[..readLen]);
      writtenLen := required;
      return Ok(());
    }

    method WriteKissFrame(command: Byte, payload: Bytes) returns (r: Result<(), SerialError>)
      requires Valid()
      modifies this`writtenLen, this`writeFault, written
      ensures Valid() && (Value(), r) == WritePieces(written.Length, old(Value()), Pieces(Frame(command, payload)))
    {
      hide WritePieces, Stuff, WriteAll;
      ghost var pieces := Pieces(Frame(command, payload));
      ghost var whole := WritePieces(written.Length, Value(), pieces);
      assert pieces[0..] == pieces && pieces[0] == [FEND, command] && pieces[|payload| + 1] == [FEND];
      WriteStep(written.Length, Value(), pieces, 0);
      r := WriteAllBytes([FEND, command]);
      if r.Err? {
        return;
      }
      for i := 0 to |payload|
        invariant Valid() && whole == WritePieces(written.Length, Value(), pieces[i + 1..])
      {
        WriteStep(written.Length, Value(), pieces, i + 1);
        assert pieces[i + 1] == Stuff(payload[i]);
        r := WriteStuffed(payload[i]);
        if r.Err? {
          return;
        }
      }
      WriteStep(written.Length, Value(), pieces, |payload| + 1);
      r := WriteAllBytes([FEND]);
      assert pieces[|payload| + 2..] == [];
      NoPieces(written.Length, Value(), pieces[|payload| + 2..]);
      assert r.Ok? ==> r.value == ();
    }

    method WriteStuffed(b: Byte) returns (r: Result<(), SerialError>)
      requires Valid()
      modifies this`writtenLen, this`writeFault, written
      ensures Valid() && (Value(), r) == WriteAll(written.Length, old(Value()), Stuff(b))
    {
      if b == FEND {
        r := WriteAllBytes([FESC, TFEND]);
      } else if b == FESC {
        r := WriteAllBytes([FESC, TFESC]);
      } else {
        r := WriteAllBytes([b]);
      }
    }

    static lemma WriteStep(txMax: nat, port: Port, pieces: seq<Bytes>, i: nat)
      requires i < |pieces|
      ensures WritePieces(txMax, port, pieces[i..]) ==
        var (next, r) := WriteAll(txMax, port, pieces[i]);
        if r.Err? then (next, r) else WritePieces(txMax, next, pieces[i + 1..])
    {
      assert pieces[i..][0] == pieces[i] && pieces[i..][1..] == pieces[i + 1..];
    }

    static lemma NoPieces(txMax: nat, port: Port, pieces: seq<Bytes>)
      ensures pieces == [] ==> WritePieces(txMax, port, pieces) == (port, Ok(()))
    {
    }
  }

  class RNodeSerialLink {
    const cfg: Config
    const io: FakeSerial
    const decoder: KissDecoder
    const state: RNodeState
    var pending: Option<Pending>

    ghost predicate Valid()
      reads this, io, decoder, state
    {
      && io.Valid() && decoder.Valid()
      && decoder.buffer != io.readBuf && decoder.buffer != io.written
      && decoder.buffer.Length == cfg.frameMax && io.written.Length == cfg.txMax
    }

    ghost function Footprint(): set<object> {
      {this, io, io.readBuf, io.written, decoder, decoder.buffer, state}
    }

    ghost function Value(): Link
      reads this, io, io.readBuf, io.written, decoder, decoder.buffer, state
      requires Valid()
    {
      Link(io.Value(), decoder.State(), pending, state.Value())
    }

    constructor (cfg: Config, io: FakeSerial)
      requires io.Valid() && io.written.Length == cfg.txMax
      requires NewLink(cfg, io.Value()).Ok?
      ensures Valid() && this.io == io && fresh(decoder) && fresh(decoder.buffer) && fresh(state)
      ensures this.cfg == cfg && NewLink(cfg, io.Value()) == Ok(Value()) && io.Value() == old(io.Value())
    {
      this.cfg, this.io, pending := cfg, io, None;
      decoder := new KissDecoder(cfg.frameMax);
      state := new RNodeState(cfg.flowControl);
    }

    method SendGatewayBytes(bytes: Bytes) returns (r: Result<(), SerialError>)
      requires Valid()
      modifies Footprint()
      ensures Valid() && (Value(), r) == Send(cfg, old(Value()), bytes)
    {
      hide WritePieces, Pieces;
      if !cfg.envelopeOk(bytes) {
        return Err(HyfWireFailure);
      }
      if |bytes| > cfg.mtu {
        return Err(PayloadTooLarge(|bytes|, cfg.mtu));
      }
      if state.flowControl && !state.interfaceReady {
        return Err(FlowControlBlocked);
      }
      var _ :- io.WriteKissFrame(CMD_DATA, bytes);
      state.MarkTxStarted();
      return Ok(());
    }

    method ReadUntilPendingAt(now: nat) returns (r: Result<bool, SerialError>)
      requires Valid() && pending.None?
      modifies Footprint()
      ensures Valid() && (Value(), r) == ReadUntilPending(cfg, old(Value()), now)
    {
      hide StepByte;
      var byte := new Byte[1];
      ghost var start := Value();
      while true
        invariant Valid() && pending.None? && fresh(byte)
        invariant ReadUntilPending(cfg, start, now) == ReadUntilPending(cfg, Value(), now)
        decreases io.readLen
      {
        ghost var before := Value();
        var read :- io.Read(byte);
        if read == 0 {
          return Ok(false);
        }
        assert byte[0] == byte[..1][0] == before.port.rx[0];
        var frame, error := decoder.PushByte(byte[0]);
        if error.Some? {
          return Err(KissFailure(error.value));
        }
        if frame.Some? {
          pending := Some(Pending(frame.value, now));
          return Ok(true);
        }
      }
    }

    /** Drops, keeps or hands over the data frame that is pending. */
    method DrainPendingData(output: array<Byte>) returns (r: Result<Option<Pending>, SerialError>)
      requires Valid() && pending.Some? && output !in Footprint()
      modifies Footprint(), output
      ensures Valid() && (Value(), r) == DrainData(cfg, old(Value()), old(pending.value), output.Length)
      ensures Delivered(r, output, old(output[..]))
    {
      var p := pending.value;
      if output.Length < |p.frame.payload| {
        return Err(ReadBufferTooSmall(output.Length, |p.frame.payload|));
      }
      if !cfg.envelopeOk(p.frame.payload) {
        pending := None;
        return Err(HyfWireFailure);
      }
      CopyPayload(p.frame.payload, output);
      pending := None;
      return Ok(Some(p));
    }

    /** The payload handed over is in the caller's buffer; nothing else touches it. */
    static ghost predicate Delivered(r: Result<Option<Pending>, SerialError>, output: array<Byte>, before: Bytes)
      reads output
    {
      if r.Ok? && r.value.Some? then
        var payload := r.value.value.frame.payload;
        |payload| <= output.Length == |before| && output[..] == payload + before[|payload|..]
      else output[..] == before
    }

    static method CopyPayload(payload: Bytes, output: array<Byte>)
      requires |payload| <= output.Length
      modifies output
      ensures output[..] == payload + old(output[|payload|..])
    {
      forall i | 0 <= i < |payload| {
        output[i] := payload[i];
      }
    }

    method DrainPendingCommand() returns (r: Result<RNodeEvent, SerialError>)
      requires Valid() && pending.Some?
      modifies Footprint()
      ensures Valid() && (Value(), r) == DrainCommand(old(Value()), old(pending.value))
    {
      hide ParseCommandFrame;
      var parsed := ParseCommandFrame(pending.value.frame);
      if parsed.Err? {
        return Err(RNodeFailure(parsed.error));
      }
      state.ApplyEvent(parsed.value);
      pending := None;
      return Ok(parsed.value);
    }

    /** Reads on unless a frame is pending: what is left of the poll stays the same, and is
        over when no frame came. */
    method ReadIfEmpty(now: nat, ghost room: nat) returns (r: Result<bool, SerialError>)
      requires Valid()
      modifies Footprint()
      ensures Valid()
      ensures old(PollFrame(cfg, Value(), now, room)) == match r {
        case Err(e) => Poll(Value(), [], Err(e))
        case Ok(found) => if found then PollFrame(cfg, Value(), now, room) else Poll(Value(), [], Ok(None))
      }
      ensures r == Ok(true) ==> pending.Some? && Work(Value()) <= old(Work(Value()))
    {
      hide ReadUntilPending, PollFrame, Work;
      if pending.Some? {
        return Ok(true);
      }
      PollStarts(cfg, Value(), now, room);
      r := ReadUntilPendingAt(now);
    }

    /** The gateway's poll: commands are absorbed until a data frame, an error or the end
        of what can be read. `taken` records the frames that left the link. */
    method PollGatewayFrameAt(now: nat, output: array<Byte>)
      returns (r: Result<Option<Pending>, SerialError>, ghost taken: seq<Frame>)
      requires Valid() && output !in Footprint()
      modifies Footprint(), output
      ensures Valid() && Poll(Value(), taken, r) == PollFrame(cfg, old(Value()), now, output.Length)
      ensures Delivered(r, output, old(output[..]))
    {
      hide DrainData, DrainCommand, PollFrame, Work;
      taken := [];
      ghost var whole := PollFrame(cfg, Value(), now, output.Length);
      assert [] + whole.taken == whole.taken;
      while true
        invariant Valid() && output[..] == old(output[..])
        invariant whole == After(taken, PollFrame(cfg, Value(), now, output.Length))
        decreases Work(Value())
      {
        assert taken + [] == taken;
        var found := ReadIfEmpty(now, output.Length);
        if found.Err? {
          return Err(found.error), taken;
        }
        if !found.value {
          return Ok(None), taken;
        }
        PollContinues(cfg, Value(), now, output.Length);
        ghost var frame := pending.value.frame;
        if pending.value.frame.command == CMD_DATA {
          r := DrainPendingData(output);
          taken := if pending.None? then taken + [frame] else taken;
          return;
        }
        var event := DrainPendingCommand();
        if event.Err? {
          return Err(event.error), taken;
        }
        AfterOneMore(taken, frame, PollFrame(cfg, Value(), now, output.Length));
        taken := taken + [frame];
      }
    }

    /** A poll that had taken frames before. */
    static function After(taken: seq<Frame>, rest: Poll): Poll {
      rest.(taken := taken + rest.taken)
    }

    static lemma AfterOneMore(taken: seq<Frame>, frame: Frame, rest: Poll)
      ensures After(taken, After([frame], rest)) == After(taken + [frame], rest)
    {
      assert taken + ([frame] + rest.taken) == taken + [frame] + rest.taken;
    }

    method PollEventAt(now: nat, output: array<Byte>) returns (r: Result<Option<LinkEvent>, SerialError>)
      requires Valid() && output !in Footprint()
      modifies Footprint(), output
      ensures Valid() && (Value(), r) == PollEvent(cfg, old(Value()), now, output.Length)
      ensures Delivered(FrameOf(r), output, old(output[..]))
    {
      hide ReadUntilPending;
      if pending.None? {
        var found :- ReadUntilPendingAt(now);
        if !found {
          return Ok(None);
        }
      }
      var p := pending.value;
      if p.frame.command == CMD_DATA {
        if output.Length < |p.frame.payload| {
          return Err(ReadBufferTooSmall(output.Length, |p.frame.payload|));
        }
        CopyPayload(p.frame.payload, output);
        pending := None;
        return Ok(Some(FrameEvent(p)));
      }
      var event :- DrainPendingCommand();
      return Ok(Some(CommandEvent(event)));
    }

    /** The frame among the events. */
    static function FrameOf(r: Result<Option<LinkEvent>, SerialError>): Result<Option<Pending>, SerialError> {
      match r
      case Ok(Some(FrameEvent(p))) => Ok(Some(p))
      case Ok(_) => Ok(None)
      case Err(e) => Err(e)
    }
  }

  /** A link over the port, or what is wrong with the configuration. */
  method OpenLink(cfg: Config, io: FakeSerial) returns (r: Result<RNodeSerialLink, SerialError>)
    requires io.Valid() && io.written.Length == cfg.txMax
    ensures match NewLink(cfg, io.Value())
      case Err(e) => r == Err(e)
      case Ok(link) =>
        && r.Ok? && fresh(r.value) && r.value.Valid() && r.value.io == io && r.value.cfg == cfg && r.value.Value() == link
  {
    if cfg.mtu == 0 {
      return Err(InvalidMtu(0));
    }
    if cfg.mtu + 1 > cfg.frameMax {
      return Err(InvalidFrameCapacity(cfg.mtu, cfg.frameMax));
    }
    var link := new RNodeSerialLink(cfg, io);
    return Ok(link);
  }
}
