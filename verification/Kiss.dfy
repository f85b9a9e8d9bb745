/** KISS framing: the encoder over a caller's buffer and the streaming decoder, each
    proved against a function on byte sequences. */
module Kiss {
  import opened Base

  const FEND: Byte := 0xC0
  const FESC: Byte := 0xDB
  const TFEND: Byte := 0xDC
  const TFESC: Byte := 0xDD
  const CMD_DATA: Byte := 0x00

  datatype KissError =
    | EncodedLengthOverflow
    | OutputBufferTooShort(actual: nat, required: nat)
    | FrameTooLarge(actual: nat, maximum: nat)
    | MalformedEscape(byte: Byte)

  datatype Frame = Frame(command: Byte, payload: Bytes)

  // ---- encoding ----

  function Stuff(b: Byte): Bytes {
    if b == FEND then [FESC, TFEND] else if b == FESC then [FESC, TFESC] else [b]
  }

  function StuffAll(payload: Bytes): Bytes {
    if payload == [] then [] else Stuff(payload[0]) + StuffAll(payload[1..])
  }

  /** The command byte goes out as it is; only the payload is escaped. */
  function Encode(f: Frame): Bytes {
    [FEND, f.command] + StuffAll(f.payload) + [FEND]
  }

  function EncodeAll(frames: seq<Frame>): Bytes {
    if frames == [] then [] else Encode(frames[0]) + EncodeAll(frames[1..])
  }

  lemma {:induction false} StuffAllSnoc(payload: Bytes, b: Byte)
    ensures StuffAll(payload + [b]) == StuffAll(payload) + Stuff(b)
  {
    if payload == [] {
      assert payload + [b] == [b];
      assert StuffAll([b]) == Stuff(b) + StuffAll([]);
    } else {
      assert (payload + [b])[1..] == payload[1..] + [b];
      StuffAllSnoc(payload[1..], b);
    }
  }

  /** The bytes of a payload one by one: a delimiter or an escape takes two. */
  ghost function SpelledBytes(payload: Bytes): (parts: seq<Bytes>)
    ensures |parts| == |payload|
  {
    seq(|payload|, i requires 0 <= i < |payload| =>
      if payload[i] == 0xC0 then [0xDB, 0xDC] else if payload[i] == 0xDB then [0xDB, 0xDD] else [payload[i]])
  }

  /** A frame on the line: delimiters around the command byte as it is and the payload as
      spelled. */
  lemma FrameLayout(f: Frame)
    ensures Encode(f) == [0xC0, f.command] + Concat(SpelledBytes(f.payload)) + [0xC0]
  {
    Spelled(f.payload);
  }

  lemma {:induction false} Spelled(payload: Bytes)
    ensures StuffAll(payload) == Concat(SpelledBytes(payload))
  {
    if payload != [] {
      Spelled(payload[1..]);
      assert SpelledBytes(payload)[1..] == SpelledBytes(payload[1..]);
    }
  }

  lemma {:induction false} StuffAllBounds(payload: Bytes)
    ensures |payload| <= |StuffAll(payload)| <= 2 * |payload|
  {
    if payload != [] {
      StuffAllBounds(payload[1..]);
    }
  }

  lemma {:induction false} StuffAllSplit(payload: Bytes, k: nat)
    requires k <= |payload|
    ensures StuffAll(payload) == StuffAll(payload[..k]) + StuffAll(payload[k..])
  {
    hide Stuff;
    if k == 0 {
      assert payload[..0] == [] && payload[0..] == payload;
    } else {
      StuffAllSplit(payload[1..], k - 1);
      assert payload[..k][1..] == payload[1..][..k - 1] && payload[k..] == payload[1..][k - 1..];
    }
  }

  function MaxEncodedCommandLen(payloadLen: nat): Result<nat, KissError> {
    if 2 * payloadLen + 3 > USIZE_MAX then Err(EncodedLengthOverflow) else Ok(2 * payloadLen + 3)
  }

  /** The worst-case length bounds every frame with that payload length, a payload of frame
      delimiters reaches it, and it is refused only when that frame has no length. */
  lemma MaxLenIsTight(f: Frame)
    ensures var worst := Encode(Frame(f.command, seq(|f.payload|, _ => FEND)));
      && |Encode(f)| <= |worst|
      && MaxEncodedCommandLen(|f.payload|) == if |worst| <= USIZE_MAX then Ok(|worst|) else Err(EncodedLengthOverflow)
  {
    StuffAllBounds(f.payload);
    AllDelimiters(|f.payload|);
  }

  lemma {:induction false} AllDelimiters(n: nat)
    ensures |StuffAll(seq(n, _ => FEND))| == 2 * n
  {
    if n > 0 {
      AllDelimiters(n - 1);
      assert seq(n, _ => FEND)[1..] == seq(n - 1, _ => FEND);
    }
  }

  method EncodedLen(payload: Bytes) returns (r: Result<nat, KissError>)
    ensures |StuffAll(payload)| + 3 <= USIZE_MAX ==> r == Ok(|StuffAll(payload)| + 3)
    ensures |StuffAll(payload)| + 3 > USIZE_MAX ==> r == Err(EncodedLengthOverflow)
  {
    var len := 3;
    for i := 0 to |payload|
      invariant len == 3 + |StuffAll(payload[..i])| <= USIZE_MAX
    {
      var increment := if payload[i] == FEND || payload[i] == FESC then 2 else 1;
      StuffAllSnoc(payload[..i], payload[i]);
      assert payload[..i + 1] == payload[..i] + [payload[i]];
      StuffAllSplit(payload, i + 1);
      if len + increment > USIZE_MAX {
        return Err(EncodedLengthOverflow);
      }
      len := len + increment;
    }
    assert payload[..|payload|] == payload;
    return Ok(len);
  }

  /** One payload byte, escaped where it must be, at `offset`. */
  method PutStuffed(b: Byte, out: array<Byte>, offset: nat) returns (next: nat)
    requires offset + |Stuff(b)| <= out.Length
    modifies out
    ensures next == offset + |Stuff(b)| && out[..next] == old(out[..offset]) + Stuff(b)
    ensures forall k | next <= k < out.Length :: out[k] == old(out[k])
  {
    if b == FEND {
      out[offset] := FESC;
      out[offset + 1] := TFEND;
      next := offset + 2;
    } else if b == FESC {
      out[offset] := FESC;
      out[offset + 1] := TFESC;
      next := offset + 2;
    } else {
      out[offset] := b;
      next := offset + 1;
    }
  }

  method EncodeCommandFrame(command: Byte, payload: Bytes, out: array<Byte>) returns (r: Result<nat, KissError>)
    modifies out
    ensures var frame := Encode(Frame(command, payload));
      if |frame| > USIZE_MAX then r == Err(EncodedLengthOverflow) && out[..] == old(out[..])
      else if out.Length < |frame| then r == Err(OutputBufferTooShort(out.Length, |frame|)) && out[..] == old(out[..])
      else r == Ok(|frame|) && out[..|frame|] == frame && out[|frame|..] == old(out[|frame|..])
  {
    hide Stuff;
    var required :- EncodedLen(payload);
    if out.Length < required {
      return Err(OutputBufferTooShort(out.Length, required));
    }
    out[0] := FEND;
    out[1] := command;
    var offset := PutPayload(payload, out);
    out[offset] := FEND;
    assert out[..offset + 1] == out[..offset] + [FEND];
    return Ok(offset + 1);
  }

  method PutPayload(payload: Bytes, out: array<Byte>) returns (offset: nat)
    requires 2 + |StuffAll(payload)| <= out.Length
    modifies out
    ensures offset == 2 + |StuffAll(payload)| && out[..offset] == old(out[..2]) + StuffAll(payload)
    ensures forall k | offset <= k < out.Length :: out[k] == old(out[k])
  {
    hide Stuff;
    offset := 2;
    ghost var total := 2 + |StuffAll(payload)|;
    assert payload[..0] == [];
    for i := 0 to |payload|
      invariant offset == 2 + |StuffAll(payload[..i])| <= total
      invariant out[..offset] == old(out[..2]) + StuffAll(payload[..i])
      invariant forall k | total <= k < out.Length :: out[k] == old(out[k])
    {
      StuffAllSnoc(payload[..i], payload[i]);
      assert payload[..i + 1] == payload[..i] + [payload[i]];
      StuffAllSplit(payload, i + 1);
      offset := PutStuffed(payload[i], out, offset);
    }
    assert payload[..|payload|] == payload;
  }

  // ---- decoding ----

  /** What the decoder remembers between bytes; nothing is buffered outside a frame. */
  datatype DecoderState = DecoderState(buf: Bytes, inFrame: bool, escape: bool) {
    predicate Fits(n: nat) {
      |buf| <= n && (buf != [] || escape ==> inFrame)
    }
  }

  const Fresh := DecoderState([], false, false)
  const Synced := DecoderState([], true, false)

  /** One byte's effect: the next state, the frame it completes, the error it raises. */
  datatype Step = Step(next: DecoderState, frame: Option<Frame>, error: Option<KissError>)

  function Store(n: nat, st: DecoderState, b: Byte): Step {
    if |st.buf| >= n then Step(Fresh, None, Some(FrameTooLarge(|st.buf| + 1, n)))
    else Step(DecoderState(st.buf + [b], true, false), None, None)
  }

  function StepByte(n: nat, st: DecoderState, b: Byte): (step: Step)
    ensures st.Fits(n) ==> step.next.Fits(n)
  {
    if b == FEND then
      Step(Synced, if st.inFrame && st.buf != [] then Some(Frame(st.buf[0], st.buf[1..])) else None, None)
    else if !st.inFrame then Step(st, None, None)
    else if st.escape then
      if b == TFEND then Store(n, st, FEND)
      else if b == TFESC then Store(n, st, FESC)
      else Step(Fresh, None, Some(MalformedEscape(b)))
    else if b == FESC then Step(st.(escape := true), None, None)
    else Store(n, st, b)
  }

  function OptSeq<T>(o: Option<T>): seq<T> {
    if o.Some? then [o.value] else []
  }

  /** A chunk's effect: the frames of its bytes up to the first error, which drops the rest
      of the chunk. */
  datatype Run = Run(next: DecoderState, frames: seq<Frame>, error: Option<KissError>)

  function RunChunk(n: nat, st: DecoderState, input: Bytes): (run: Run)
    ensures st.Fits(n) ==> run.next.Fits(n)
    decreases |input|
  {
    if input == [] then Run(st, [], None)
    else
      var step := StepByte(n, st, input[0]);
      if step.error.Some? then Run(step.next, [], step.error)
      else
        var rest := RunChunk(n, step.next, input[1..]);
        Run(rest.next, OptSeq(step.frame) + rest.frames, rest.error)
  }

  class KissDecoder {
    const buffer: array<Byte>
    var len: nat
    var inFrame: bool
    var escapePending: bool

    ghost predicate Valid()
      reads this
    {
      len <= buffer.Length && (len > 0 || escapePending ==> inFrame)
    }

    ghost function State(): (st: DecoderState)
      requires Valid()
      reads this, buffer
      ensures st.Fits(buffer.Length)
    {
      DecoderState(buffer[..len], inFrame, escapePending)
    }

    constructor (n: nat)
      ensures Valid() && fresh(buffer) && buffer.Length == n && State() == Fresh
    {
      buffer := new Byte[n](_ => 0);
      len, inFrame, escapePending := 0, false, false;
    }

    method Reset()
      modifies this`len, this`inFrame, this`escapePending
      ensures Valid() && State() == Fresh
    {
      len, inFrame, escapePending := 0, false, false;
    }

    method PushDecodedByte(b: Byte) returns (error: Option<KissError>)
      requires Valid() && inFrame && !escapePending
      modifies this`len, this`inFrame, this`escapePending, buffer
      ensures Valid()
      ensures Step(State(), None, error) == Store(buffer.Length, old(State()), b)
    {
      if len == buffer.Length {
        error := Some(FrameTooLarge(len + 1, buffer.Length));
        Reset();
        return;
      }
      ghost var before := buffer[..len];
      buffer[len] := b;
      len := len + 1;
      assert buffer[..len] == before + [b];
      return None;
    }

    /** The frame in the buffer, if there is one. */
    method FinishFrame() returns (frame: Option<Frame>)
      requires Valid() && inFrame
      modifies this`len, this`escapePending
      ensures Valid() && inFrame && len == 0 && (escapePending ==> old(len) == 0 && old(escapePending))
      ensures frame == if old(len) == 0 then None else Some(Frame(old(buffer[0]), old(buffer[1..len])))
    {
      if len == 0 {
        return None;
      }
      frame := Some(Frame(buffer[0], buffer[1..len]));
      len, escapePending := 0, false;
    }

    method PushByte(b: Byte) returns (frame: Option<Frame>, error: Option<KissError>)
      requires Valid()
      modifies this`len, this`inFrame, this`escapePending, buffer
      ensures Valid()
      ensures Step(State(), frame, error) == StepByte(buffer.Length, old(State()), b)
    {
      frame, error := None, None;
      if b == FEND {
        if inFrame {
          assert len > 0 ==> buffer[..len][1..] == buffer[1..len];
          frame := FinishFrame();
        }
        inFrame, escapePending := true, false;
        return;
      }
      if !inFrame {
        return;
      }
      if escapePending {
        escapePending := false;
        if b == TFEND {
          error := PushDecodedByte(FEND);
        } else if b == TFESC {
          error := PushDecodedByte(FESC);
        } else {
          Reset();
          error := Some(MalformedEscape(b));
        }
        return;
      }
      if b == FESC {
        escapePending := true;
        return;
      }
      error := PushDecodedByte(b);
    }

    /** The rest of a chunk, after some of its frames. */
    static ghost function After(n: nat, st: DecoderState, frames: seq<Frame>, input: Bytes): Run {
      var rest := RunChunk(n, st, input);
      Run(rest.next, frames + rest.frames, rest.error)
    }

    static lemma AfterStep(n: nat, st: DecoderState, frames: seq<Frame>, input: Bytes)
      ensures input == [] ==> After(n, st, frames, input) == Run(st, frames, None)
      ensures input != [] ==> var step := StepByte(n, st, input[0]);
        After(n, st, frames, input) ==
          if step.error.Some? then Run(step.next, frames, step.error)
          else After(n, step.next, frames + OptSeq(step.frame), input[1..])
    {
      hide StepByte;
      assert frames + [] == frames;
      if input != [] {
        var step := StepByte(n, st, input[0]);
        var rest := RunChunk(n, step.next, input[1..]);
        assert frames + (OptSeq(step.frame) + rest.frames) == frames + OptSeq(step.frame) + rest.frames;
      }
    }

    /** Frames are handed over in order, one by one as they complete; here they are
        collected. The first error ends the chunk. */
    method PushBytes(input: Bytes) returns (frames: seq<Frame>, error: Option<KissError>)
      requires Valid()
      modifies this`len, this`inFrame, this`escapePending, buffer
      ensures Valid()
      ensures Run(State(), frames, error) == RunChunk(buffer.Length, old(State()), input)
    {
      hide StepByte, RunChunk, After;
      frames, error := [], None;
      ghost var whole := After(buffer.Length, State(), [], input);
      assert input[0..] == input;
      for i := 0 to |input|
        invariant Valid() && error == None && whole == After(buffer.Length, State(), frames, input[i..])
      {
        AfterStep(buffer.Length, State(), frames, input[i..]);
        assert input[i..][0] == input[i] && input[i..][1..] == input[i + 1..];
        var frame;
        frame, error := PushByte(input[i]);
        if error.Some? {
          break;
        }
        frames := frames + OptSeq(frame);
      }
      if error.None? {
        assert input[|input|..] == [];
        AfterStep(buffer.Length, State(), frames, []);
      }
      AfterNothing(buffer.Length, old(State()), input);
    }

    static lemma AfterNothing(n: nat, st: DecoderState, input: Bytes)
      ensures After(n, st, [], input) == RunChunk(n, st, input)
    {
      hide RunChunk;
      assert [] + RunChunk(n, st, input).frames == RunChunk(n, st, input).frames;
    }
  }
}
