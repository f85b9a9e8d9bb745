/** What the streaming decoder does over whole streams: it resynchronises by itself, does
    not care how bytes are chunked, and agrees with the unbounded reference decoder. */
module KissSync {
  import opened Base
  import opened Kiss

  // ---- streams, past errors ----

  /** Bytes pushed one at a time: an error costs its byte and the stream goes on. */
  datatype Stream = Stream(next: DecoderState, frames: seq<Frame>, errors: seq<KissError>)

  function RunStream(n: nat, st: DecoderState, input: Bytes): (s: Stream)
    ensures st.Fits(n) ==> s.next.Fits(n)
    decreases |input|
  {
    if input == [] then Stream(st, [], [])
    else
      var step := StepByte(n, st, input[0]);
      var rest := RunStream(n, step.next, input[1..]);
      Stream(rest.next, OptSeq(step.frame) + rest.frames, OptSeq(step.error) + rest.errors)
  }

  lemma StreamStep(n: nat, st: DecoderState, input: Bytes)
    requires input != []
    ensures var step := StepByte(n, st, input[0]);
      var rest := RunStream(n, step.next, input[1..]);
      RunStream(n, st, input) == Stream(rest.next, OptSeq(step.frame) + rest.frames, OptSeq(step.error) + rest.errors)
  {
    hide StepByte, OptSeq;
  }

  lemma EmptyStream(n: nat, st: DecoderState)
    ensures RunStream(n, st, []) == Stream(st, [], [])
  {
  }

  lemma {:induction false} StreamConcat(n: nat, st: DecoderState, a: Bytes, b: Bytes)
    ensures var first := RunStream(n, st, a);
      var second := RunStream(n, first.next, b);
      RunStream(n, st, a + b) == Stream(second.next, first.frames + second.frames, first.errors + second.errors)
    decreases |a|
  {
    hide StepByte, RunStream, OptSeq;
    if a == [] {
      assert a + b == b;
      EmptyStream(n, st);
      var second := RunStream(n, st, b);
      assert [] + second.frames == second.frames && [] + second.errors == second.errors;
    } else {
      var step := StepByte(n, st, a[0]);
      assert (a + b)[0] == a[0] && (a + b)[1..] == a[1..] + b;
      StreamStep(n, st, a);
      StreamStep(n, st, a + b);
      StreamConcat(n, step.next, a[1..], b);
      var first := RunStream(n, step.next, a[1..]);
      var second := RunStream(n, first.next, b);
      assert OptSeq(step.frame) + (first.frames + second.frames) == OptSeq(step.frame) + first.frames + second.frames;
      assert OptSeq(step.error) + (first.errors + second.errors) == OptSeq(step.error) + first.errors + second.errors;
    }
  }

  lemma StreamOne(n: nat, st: DecoderState, b: Byte)
    ensures var step := StepByte(n, st, b);
      RunStream(n, st, [b]) == Stream(step.next, OptSeq(step.frame), OptSeq(step.error))
  {
    var step := StepByte(n, st, b);
    assert [b][1..] == [];
    assert RunStream(n, step.next, []) == Stream(step.next, [], []);
    assert OptSeq(step.frame) + [] == OptSeq(step.frame) && OptSeq(step.error) + [] == OptSeq(step.error);
  }

  // ---- self-synchronisation ----

  /** A frame the escape-free command byte cannot disturb and the decoder can hold. */
  predicate Carried(n: nat, f: Frame) {
    f.command != FEND && f.command != FESC && |f.payload| + 1 <= n
  }

  predicate AllCarried(n: nat, frames: seq<Frame>) {
    forall i | 0 <= i < |frames| :: Carried(n, frames[i])
  }

  /** What the first delimiter of a new frame flushes out of an arbitrary state. */
  function Leftover(st: DecoderState): seq<Frame> {
    if st.inFrame && st.buf != [] then [Frame(st.buf[0], st.buf[1..])] else []
  }

  lemma {:induction false} PayloadStored(n: nat, buf: Bytes, payload: Bytes)
    requires |buf| + |payload| <= n
    ensures RunStream(n, DecoderState(buf, true, false), StuffAll(payload))
         == Stream(DecoderState(buf + payload, true, false), [], [])
    decreases |payload|
  {
    hide RunStream, Stuff;
    var st := DecoderState(buf, true, false);
    if payload == [] {
      assert buf + [] == buf;
      EmptyStream(n, st);
    } else {
      ByteStored(n, buf, payload[0]);
      StreamConcat(n, st, Stuff(payload[0]), StuffAll(payload[1..]));
      PayloadStored(n, buf + [payload[0]], payload[1..]);
      assert buf + [payload[0]] + payload[1..] == buf + payload;
    }
  }

  lemma ByteStored(n: nat, buf: Bytes, b: Byte)
    requires |buf| < n
    ensures RunStream(n, DecoderState(buf, true, false), Stuff(b)) == Stream(DecoderState(buf + [b], true, false), [], [])
  {
    var st := DecoderState(buf, true, false);
    if b == FEND || b == FESC {
      StreamConcat(n, st, [FESC], Stuff(b)[1..]);
      StreamOne(n, st, FESC);
      StreamOne(n, DecoderState(buf, true, true), Stuff(b)[1]);
      assert Stuff(b) == [FESC] + Stuff(b)[1..] && Stuff(b)[1..] == [Stuff(b)[1]];
    } else {
      StreamOne(n, st, b);
    }
  }

  lemma FrameDecoded(n: nat, st: DecoderState, f: Frame)
    requires Carried(n, f)
    ensures RunStream(n, st, Encode(f)) == Stream(Synced, Leftover(st) + [f], [])
  {
    hide RunStream, StuffAll;
    var body := StuffAll(f.payload) + [FEND];
    assert Encode(f) == [FEND] + ([f.command] + body);
    StreamOne(n, st, FEND);
    StreamConcat(n, st, [FEND], [f.command] + body);
    StreamOne(n, Synced, f.command);
    StreamConcat(n, Synced, [f.command], body);
    var begun := DecoderState([f.command], true, false);
    assert [] + [f.command] == [f.command];
    PayloadStored(n, [f.command], f.payload);
    StreamConcat(n, begun, StuffAll(f.payload), [FEND]);
    var filled := DecoderState([f.command] + f.payload, true, false);
    StreamOne(n, filled, FEND);
    assert filled.buf[1..] == f.payload;
  }

  /** From any state whatever, the encodings of a list of frames come out as at most one
      leftover frame and then exactly that list, without an error. */
  lemma {:induction false} SelfSynchronising(n: nat, st: DecoderState, frames: seq<Frame>)
    requires AllCarried(n, frames)
    ensures RunStream(n, st, EncodeAll(frames)) ==
      if frames == [] then Stream(st, [], []) else Stream(Synced, Leftover(st) + frames, [])
    decreases |frames|
  {
    hide RunStream, Encode, Carried;
    if frames == [] {
      EmptyStream(n, st);
    } else {
      var first, rest := frames[0], frames[1..];
      assert Carried(n, first) && AllCarried(n, rest) by { CarriedParts(n, frames); }
      FrameDecoded(n, st, first);
      StreamConcat(n, st, Encode(first), EncodeAll(rest));
      SelfSynchronising(n, Synced, rest);
      LeftoverThenFrames(st, frames);
    }
  }

  lemma CarriedParts(n: nat, frames: seq<Frame>)
    requires AllCarried(n, frames) && frames != []
    ensures Carried(n, frames[0]) && AllCarried(n, frames[1..])
  {
    hide Carried;
  }

  lemma LeftoverThenFrames(st: DecoderState, frames: seq<Frame>)
    requires frames != []
    ensures Leftover(st) + [frames[0]] + (if frames[1..] == [] then [] else Leftover(Synced) + frames[1..]) == Leftover(st) + frames
    ensures [] + (if frames[1..] == [] then [] else Leftover(Synced) + frames[1..]) == frames[1..]
  {
    hide DecoderState.Fits;
    assert frames == [frames[0]] + frames[1..];
  }

  /** Neither the reset a malformed escape causes nor an aborted write can spoil what
      follows: noise of any kind, then frames, ends in exactly those frames. */
  lemma FramesSurviveNoise(n: nat, st: DecoderState, noise: Bytes, frames: seq<Frame>)
    requires frames != [] && AllCarried(n, frames)
    ensures var heard := RunStream(n, st, noise);
      RunStream(n, st, noise + EncodeAll(frames))
        == Stream(Synced, heard.frames + (Leftover(heard.next) + frames), heard.errors)
  {
    hide RunStream;
    var heard := RunStream(n, st, noise);
    StreamConcat(n, st, noise, EncodeAll(frames));
    SelfSynchronising(n, heard.next, frames);
    assert heard.errors + [] == heard.errors;
  }

  // ---- exactly which frames make the trip ----

  ghost predicate NoDelimiter(s: Bytes) {
    forall i | 0 <= i < |s| :: s[i] != FEND
  }

  lemma {:induction false} StuffedHasNoDelimiter(payload: Bytes)
    ensures NoDelimiter(StuffAll(payload))
  {
    if payload != [] {
      StuffedHasNoDelimiter(payload[1..]);
    }
  }

  lemma {:induction false} IdleIgnores(n: nat, s: Bytes)
    requires NoDelimiter(s)
    ensures RunStream(n, Fresh, s) == Stream(Fresh, [], [])
  {
    if s != [] {
      IdleIgnores(n, s[1..]);
    }
  }

  lemma {:induction false} EmittedFramesFit(n: nat, st: DecoderState, input: Bytes)
    requires st.Fits(n)
    ensures forall f | f in RunStream(n, st, input).frames :: |f.payload| + 1 <= n
    decreases |input|
  {
    if input != [] {
      EmittedFramesFit(n, StepByte(n, st, input[0]).next, input[1..]);
    }
  }

  /** After the delimiter: no frame at all, or one whose payload is shorter than `f`'s. */
  lemma DelimiterAsCommand(n: nat, f: Frame)
    requires f.command == FEND && |f.payload| + 1 <= n
    ensures RunStream(n, Fresh, Encode(f)).frames != [f]
  {
    hide RunStream, StuffAll;
    var body := StuffAll(f.payload) + [FEND];
    assert Encode(f) == [FEND] + ([FEND] + body);
    StreamOne(n, Fresh, FEND);
    StreamConcat(n, Fresh, [FEND], [FEND] + body);
    StreamOne(n, Synced, FEND);
    StreamConcat(n, Synced, [FEND], body);
    PayloadStored(n, [], f.payload);
    StreamConcat(n, Synced, StuffAll(f.payload), [FEND]);
    StreamOne(n, DecoderState([] + f.payload, true, false), FEND);
    var frames := RunStream(n, Fresh, Encode(f)).frames;
    assert |frames| > 0 ==> |frames[0].payload| < |f.payload|;
  }

  lemma EscapeAsCommand(n: nat, f: Frame)
    requires f.command == FESC && |f.payload| + 1 <= n
    ensures RunStream(n, Fresh, Encode(f)).frames != [f]
  {
    hide RunStream, StuffAll, Stuff;
    var body := StuffAll(f.payload) + [FEND];
    assert Encode(f) == [FEND] + ([FESC] + body);
    StreamOne(n, Fresh, FEND);
    StreamConcat(n, Fresh, [FEND], [FESC] + body);
    StreamOne(n, Synced, FESC);
    StreamConcat(n, Synced, [FESC], body);
    var pending := DecoderState([], true, true);
    EscapedBody(n, f.payload);
    StreamConcat(n, pending, StuffAll(f.payload), [FEND]);
    StreamOne(n, RunStream(n, pending, StuffAll(f.payload)).next, FEND);
    var frames := RunStream(n, Fresh, Encode(f)).frames;
    assert |frames| > 0 ==> |frames[0].payload| < |f.payload|;
  }

  /** The payload read with a stray escape in front of it. */
  lemma EscapedBody(n: nat, payload: Bytes)
    requires |payload| + 1 <= n
    ensures var s := RunStream(n, DecoderState([], true, true), StuffAll(payload));
      s.frames == [] && |s.next.buf| <= |payload|
  {
    hide RunStream, StuffAll;
    var pending := DecoderState([], true, true);
    if payload == [] {
      assert StuffAll(payload) == [] by { NothingStuffed(); }
      EmptyStream(n, pending);
    } else {
      var p, tail := payload[0], StuffAll(payload[1..]);
      var head := Stuff(p);
      assert StuffAll(payload) == head + tail by { FirstStuffed(payload); }
      StreamConcat(n, pending, head[..1], head[1..] + tail);
      assert head + tail == head[..1] + (head[1..] + tail);
      StreamOne(n, pending, head[0]);
      assert head[..1] == [head[0]];
      if p == TFEND || p == TFESC {
        assert head[1..] + tail == tail;
        var unescaped := if p == TFEND then FEND else FESC;
        assert [] + [unescaped] == [unescaped];
        PayloadStored(n, [unescaped], payload[1..]);
      } else {
        StuffedHasNoDelimiter(payload);
        NoDelimiterAfter(head[..1], head[1..] + tail);
        IdleIgnores(n, head[1..] + tail);
      }
    }
  }

  lemma NothingStuffed()
    ensures StuffAll([]) == []
  {
  }

  lemma FirstStuffed(payload: Bytes)
    requires payload != []
    ensures StuffAll(payload) == Stuff(payload[0]) + StuffAll(payload[1..])
  {
    hide Stuff;
  }

  lemma NoDelimiterAfter(a: Bytes, b: Bytes)
    requires NoDelimiter(a + b)
    ensures NoDelimiter(b)
  {
    forall i | 0 <= i < |b| ensures b[i] != FEND {
      assert (a + b)[|a| + i] == b[i];
    }
  }

  /** A frame sent to a fresh decoder arrives alone and unchanged exactly when its command
      byte is neither special byte and it fits the decoder. */
  lemma RoundTripIff(n: nat, f: Frame)
    ensures RunStream(n, Fresh, Encode(f)).frames == [f] <==> Carried(n, f)
  {
    if Carried(n, f) {
      FrameDecoded(n, Fresh, f);
    } else if |f.payload| + 1 > n {
      EmittedFramesFit(n, Fresh, Encode(f));
      assert f in [f];
    } else if f.command == FEND {
      DelimiterAsCommand(n, f);
    } else {
      EscapeAsCommand(n, f);
    }
  }

  // ---- chunking ----

  /** Chunks pushed one after the other; an error ends its own chunk only. */
  function RunChunks(n: nat, st: DecoderState, chunks: seq<Bytes>): Stream
    decreases |chunks|
  {
    if chunks == [] then Stream(st, [], [])
    else
      var run := RunChunk(n, st, chunks[0]);
      var rest := RunChunks(n, run.next, chunks[1..]);
      Stream(rest.next, run.frames + rest.frames, OptSeq(run.error) + rest.errors)
  }

  /** A chunk is a stream up to its first error: the bytes after it are dropped. */
  lemma {:induction false} ChunkIsStream(n: nat, st: DecoderState, input: Bytes)
    ensures var run := RunChunk(n, st, input);
      var stream := RunStream(n, st, input);
      run.error == None <==> stream.errors == []
    ensures var run := RunChunk(n, st, input);
      var stream := RunStream(n, st, input);
      if run.error == None then run.next == stream.next && run.frames == stream.frames
      else run.frames <= stream.frames && stream.errors[0] == run.error.value
    ensures var run := RunChunk(n, st, input);
      run.error.Some? ==>
        exists k | 0 < k <= |input| :: RunStream(n, st, input[..k]) == Stream(run.next, run.frames, [run.error.value])
    decreases |input|
  {
    hide StepByte;
    if input != [] {
      var step := StepByte(n, st, input[0]);
      var later := RunChunk(n, step.next, input[1..]);
      ChunkIsStream(n, step.next, input[1..]);
      StepHasFrameOrError(n, st, input[0]);
      if step.error.Some? {
        UpToHere(n, st, input, 1);
        EmptyStream(n, step.next);
      } else if later.error.Some? {
        var k :| 0 < k <= |input[1..]| && RunStream(n, step.next, input[1..][..k]) == Stream(later.next, later.frames, [later.error.value]);
        UpToHere(n, st, input, k + 1);
      }
    }
  }

  lemma UpToHere(n: nat, st: DecoderState, input: Bytes, k: nat)
    requires 0 < k <= |input|
    ensures var step := StepByte(n, st, input[0]);
      var rest := RunStream(n, step.next, input[1..][..k - 1]);
      RunStream(n, st, input[..k]) == Stream(rest.next, OptSeq(step.frame) + rest.frames, OptSeq(step.error) + rest.errors)
  {
    hide StepByte;
    assert input[..k][1..] == input[1..][..k - 1];
  }

  /** The two errors, exactly when each is raised; after either the decoder is outside a frame. */
  lemma StepErrors(n: nat, st: DecoderState, b: Byte)
    requires st.Fits(n)
    ensures var step := StepByte(n, st, b);
      var bad := st.inFrame && st.escape && b !in {0xC0, 0xDC, 0xDD};
      var full := st.inFrame && |st.buf| == n && if st.escape then b in {0xDC, 0xDD} else b !in {0xC0, 0xDB};
      && (step.error == Some(MalformedEscape(b)) <==> bad)
      && (step.error == Some(FrameTooLarge(n + 1, n)) <==> full)
      && (step.error.Some? <==> bad || full)
      && (step.error.Some? ==> step.next == DecoderState([], false, false))
  {
  }

  lemma StepHasFrameOrError(n: nat, st: DecoderState, b: Byte)
    ensures var step := StepByte(n, st, b);
      step.error.Some? ==> step.frame.None?
  {
  }

  /** Where a stream raises no error, any way of cutting it into chunks gives the same
      frames and the same final state. */
  lemma {:induction false} ChunkingIrrelevant(n: nat, st: DecoderState, chunks: seq<Bytes>)
    requires RunStream(n, st, Concat(chunks)).errors == []
    ensures RunChunks(n, st, chunks) == RunStream(n, st, Concat(chunks))
    decreases |chunks|
  {
    hide RunStream, RunChunk;
    if chunks == [] {
      EmptyStream(n, st);
    } else {
      ChunkIsStream(n, st, chunks[0]);
      StreamConcat(n, st, chunks[0], Concat(chunks[1..]));
      ChunkingIrrelevant(n, RunChunk(n, st, chunks[0]).next, chunks[1..]);
    }
  }

  /** Frames come out as listed however their encodings are chunked. */
  lemma ChunkedFramesDecode(n: nat, st: DecoderState, frames: seq<Frame>, chunks: seq<Bytes>)
    requires frames != [] && AllCarried(n, frames)
    requires Concat(chunks) == EncodeAll(frames)
    ensures RunChunks(n, st, chunks) == Stream(Synced, Leftover(st) + frames, [])
  {
    SelfSynchronising(n, st, frames);
    ChunkingIrrelevant(n, st, chunks);
  }

  // ---- the unbounded reference decoder ----

  datatype OracleError = MalformedOracleEscape | UnterminatedEscape | UnterminatedFrame | NoFrame

  function OracleStep(st: DecoderState, frames: seq<Frame>, b: Byte): Result<(DecoderState, seq<Frame>), OracleError> {
    if b == FEND then
      Ok((Synced, if st.inFrame && st.buf != [] then frames + [Frame(st.buf[0], st.buf[1..])] else frames))
    else if !st.inFrame then Ok((st, frames))
    else if st.escape then
      if b == TFEND then Ok((DecoderState(st.buf + [FEND], true, false), frames))
      else if b == TFESC then Ok((DecoderState(st.buf + [FESC], true, false), frames))
      else Err(MalformedOracleEscape)
    else if b == FESC then Ok((st.(escape := true), frames))
    else Ok((st.(buf := st.buf + [b]), frames))
  }

  function OracleRun(st: DecoderState, frames: seq<Frame>, input: Bytes): Result<(DecoderState, seq<Frame>), OracleError>
    decreases |input|
  {
    if input == [] then Ok((st, frames))
    else
      var (next, more) :- OracleStep(st, frames, input[0]);
      OracleRun(next, more, input[1..])
  }

  function OracleEnd(st: DecoderState, frames: seq<Frame>): Result<seq<Frame>, OracleError> {
    if st.escape then Err(UnterminatedEscape)
    else if st.inFrame && st.buf != [] then Err(UnterminatedFrame)
    else if frames == [] then Err(NoFrame)
    else Ok(frames)
  }

  function DecodeKiss(input: Bytes): Result<seq<Frame>, OracleError> {
    var (st, frames) :- OracleRun(Fresh, [], input);
    OracleEnd(st, frames)
  }

  method DecodeKissReference(input: Bytes) returns (r: Result<seq<Frame>, OracleError>)
    ensures r == DecodeKiss(input)
  {
    var frames: seq<Frame> := [];
    var buffer: Bytes := [];
    var inFrame, escape := false, false;
    assert input[0..] == input;
    for i := 0 to |input|
      invariant OracleRun(Fresh, [], input) == OracleRun(DecoderState(buffer, inFrame, escape), frames, input[i..])
    {
      var b := input[i];
      assert input[i..][0] == b && input[i..][1..] == input[i + 1..];
      if b == FEND {
        if inFrame && buffer != [] {
          frames := frames + [Frame(buffer[0], buffer[1..])];
        }
        buffer, inFrame, escape := [], true, false;
      } else if inFrame {
        if escape {
          if b == TFEND {
            buffer := buffer + [FEND];
          } else if b == TFESC {
            buffer := buffer + [FESC];
          } else {
            return Err(MalformedOracleEscape);
          }
          escape := false;
        } else if b == FESC {
          escape := true;
        } else {
          buffer := buffer + [b];
        }
      }
    }
    assert input[|input|..] == [];
    r := OracleEnd(DecoderState(buffer, inFrame, escape), frames);
  }

  /** The reference encoder, over a growing buffer, writes what the bounded one writes. */
  method EncodeKissReference(command: Byte, payload: Bytes) returns (output: Bytes)
    ensures output == Encode(Frame(command, payload))
  {
    output := [FEND, command];
    assert payload[..0] == [];
    for i := 0 to |payload|
      invariant output == [FEND, command] + StuffAll(payload[..i])
    {
      StuffAllSnoc(payload[..i], payload[i]);
      assert payload[..i + 1] == payload[..i] + [payload[i]];
      if payload[i] == FEND {
        output := output + [FESC, TFEND];
      } else if payload[i] == FESC {
        output := output + [FESC, TFESC];
      } else {
        output := output + [payload[i]];
      }
    }
    assert payload[..|payload|] == payload;
    output := output + [FEND];
  }

  /** With room for everything, both decoders take the same steps until the reference
      gives up, which is where the bounded one reports an error. */
  lemma {:induction false} OracleSimulation(n: nat, st: DecoderState, frames: seq<Frame>, input: Bytes)
    requires |st.buf| + |input| <= n
    ensures var stream := RunStream(n, st, input);
      if stream.errors == [] then OracleRun(st, frames, input) == Ok((stream.next, frames + stream.frames))
      else OracleRun(st, frames, input) == Err(MalformedOracleEscape)
    decreases |input|
  {
    hide RunStream, OracleRun, StepByte, OracleStep;
    assert frames + [] == frames;
    if input == [] {
      EmptyStream(n, st);
      OracleNothing(st, frames);
    } else {
      var step := StepByte(n, st, input[0]);
      StreamStep(n, st, input);
      OracleFirst(st, frames, input);
      SameStep(n, st, frames, input[0]);
      if step.error.None? {
        OracleSimulation(n, step.next, frames + OptSeq(step.frame), input[1..]);
        var rest := RunStream(n, step.next, input[1..]);
        assert frames + OptSeq(step.frame) + rest.frames == frames + (OptSeq(step.frame) + rest.frames);
      }
    }
  }

  lemma OracleNothing(st: DecoderState, frames: seq<Frame>)
    ensures OracleRun(st, frames, []) == Ok((st, frames))
  {
  }

  lemma OracleFirst(st: DecoderState, frames: seq<Frame>, input: Bytes)
    requires input != []
    ensures OracleRun(st, frames, input) ==
      match OracleStep(st, frames, input[0]) {
        case Err(e) => Err(e)
        case Ok((next, more)) => OracleRun(next, more, input[1..])
      }
  {
    hide OracleStep;
  }

  /** One byte, with room for it. */
  lemma SameStep(n: nat, st: DecoderState, frames: seq<Frame>, b: Byte)
    requires |st.buf| < n
    ensures var step := StepByte(n, st, b);
      if step.error.None? then OracleStep(st, frames, b) == Ok((step.next, frames + OptSeq(step.frame)))
      else OracleStep(st, frames, b) == Err(MalformedOracleEscape)
    ensures |StepByte(n, st, b).next.buf| <= |st.buf| + 1
  {
    assert frames + [] == frames;
  }

  /** The reference accepts exactly the inputs on which a large enough decoder raises no
      error, ends between frames and emits something, and then both give the same frames. */
  lemma OracleAgrees(n: nat, input: Bytes, frames: seq<Frame>)
    requires |input| <= n
    ensures DecodeKiss(input) == Ok(frames) <==>
      var stream := RunStream(n, Fresh, input);
      stream.errors == [] && stream.next.buf == [] && !stream.next.escape && stream.frames == frames && frames != []
  {
    hide RunStream, OracleRun;
    OracleSimulation(n, Fresh, [], input);
    var stream := RunStream(n, Fresh, input);
    assert [] + stream.frames == stream.frames;
    assert stream.next.Fits(n);
  }
}
