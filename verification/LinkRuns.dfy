/** Whole runs of the serial link: no frame is lost, duplicated or reordered between the
    bytes that arrive and what polls hand over, and sends obey flow control. */
module LinkRuns {
  import opened Base
  import opened Kiss
  import opened KissSync
  import opened RNode
  import opened SerialLink

  // ---- conservation in one poll ----

  function PendingFrames(link: Link): seq<Frame> {
    if link.pending.Some? then [link.pending.value.frame] else []
  }

  /** Everything the link has still to hand over, were it polled without interruption. */
  function Outlook(n: nat, link: Link): Stream {
    var ahead := RunStream(n, link.decoder, link.port.rx);
    Stream(ahead.next, PendingFrames(link) + ahead.frames, ahead.errors)
  }

  function Prefixed(taken: seq<Frame>, raised: seq<KissError>, s: Stream): Stream {
    Stream(s.next, taken + s.frames, raised + s.errors)
  }

  function Raised<T>(r: Result<T, SerialError>): seq<KissError> {
    if r.Err? && r.error.KissFailure? then [r.error.kiss] else []
  }

  lemma PrefixedTwice(t1: seq<Frame>, r1: seq<KissError>, t2: seq<Frame>, r2: seq<KissError>, s: Stream)
    ensures Prefixed(t1, r1, Prefixed(t2, r2, s)) == Prefixed(t1 + t2, r1 + r2, s)
    ensures Prefixed([], [], s) == s
  {
    assert t1 + (t2 + s.frames) == t1 + t2 + s.frames;
    assert r1 + (r2 + s.errors) == r1 + r2 + s.errors;
    assert [] + s.frames == s.frames && [] + s.errors == s.errors;
  }

  /** Reading stops at the first frame, so the slot it fills was empty: nothing is overwritten. */
  lemma {:induction false} ReadConserves(cfg: Config, link: Link, now: nat)
    requires link.pending.None?
    ensures var (read, r) := ReadUntilPending(cfg, link, now);
      && Outlook(cfg.frameMax, link) == Prefixed([], Raised(r), Outlook(cfg.frameMax, read))
      && read.radio == link.radio && read.port.tx == link.port.tx && read.port.writeFault == link.port.writeFault
      && (read.pending.Some? <==> r == Ok(true))
      && (r == Ok(false) ==> read.port.rx == [] && !read.port.readFault)
      && (r.Err? ==> r.error.KissFailure? || (r.error.InjectedReadFailure? && link.port.readFault))
    decreases |link.port.rx|
  {
    hide StepByte;
    var n := cfg.frameMax;
    PrefixedTwice([], [], [], [], Outlook(n, link));
    if !link.port.readFault && link.port.rx != [] {
      var step := StepByte(n, link.decoder, link.port.rx[0]);
      StepHasFrameOrError(n, link.decoder, link.port.rx[0]);
      var read := link.(port := link.port.(rx := link.port.rx[1..]), decoder := step.next);
      if step.error.None? && step.frame.None? {
        ReadConserves(cfg, read, now);
        PrefixedTwice([], [], [], [], Outlook(n, read));
      }
    }
  }

  /** Over one poll: the frames ahead before are the frames taken, then the frames ahead after. */
  lemma {:induction false} PollConserves(cfg: Config, link: Link, now: nat, room: nat)
    ensures var poll := PollFrame(cfg, link, now, room);
      Outlook(cfg.frameMax, link) == Prefixed(poll.taken, Raised(poll.result), Outlook(cfg.frameMax, poll.next))
    decreases Work(link), 1
  {
    hide ReadUntilPending, RunStream, PollFrame, Work;
    if link.pending.None? {
      PollStarts(cfg, link, now, room);
      ReadConserves(cfg, link, now);
      var (read, r) := ReadUntilPending(cfg, link, now);
      if r.Ok? && r.value {
        PollPendingConserves(cfg, read, now, room);
        var poll := PollFrame(cfg, read, now, room);
        PrefixedTwice([], [], poll.taken, Raised(poll.result), Outlook(cfg.frameMax, poll.next));
        assert [] + poll.taken == poll.taken && [] + Raised(poll.result) == Raised(poll.result);
      }
    } else {
      PollPendingConserves(cfg, link, now, room);
    }
  }

  lemma {:induction false} PollPendingConserves(cfg: Config, link: Link, now: nat, room: nat)
    requires link.pending.Some?
    ensures var poll := PollFrame(cfg, link, now, room);
      Outlook(cfg.frameMax, link) == Prefixed(poll.taken, Raised(poll.result), Outlook(cfg.frameMax, poll.next))
    decreases Work(link), 0
  {
    hide ParseCommandFrame, RunStream, PollFrame, Work;
    var p, n := link.pending.value, cfg.frameMax;
    PollContinues(cfg, link, now, room);
    PrefixedTwice([], [], [], [], Outlook(n, link));
    var emptied := link.(pending := None);
    assert Outlook(n, link) == Prefixed([p.frame], [], Outlook(n, emptied)) by {
      assert [] + RunStream(n, link.decoder, link.port.rx).frames == RunStream(n, link.decoder, link.port.rx).frames;
      assert [] + RunStream(n, link.decoder, link.port.rx).errors == RunStream(n, link.decoder, link.port.rx).errors;
    }
    if p.frame.command != CMD_DATA {
      var (next, r) := DrainCommand(link, p);
      if r.Ok? {
        PollConserves(cfg, next, now, room);
        var poll := PollFrame(cfg, next, now, room);
        PrefixedTwice([p.frame], [], poll.taken, Raised(poll.result), Outlook(n, poll.next));
        assert [] + Raised(poll.result) == Raised(poll.result);
        assert Outlook(n, next) == Outlook(n, emptied);
      }
    }
  }

  // ---- what the result of a poll means ----

  ghost predicate Absorbed(f: Frame) {
    f.command != CMD_DATA && ParseCommandFrame(f).Ok?
  }

  ghost predicate AllAbsorbed(frames: seq<Frame>) {
    forall i | 0 <= i < |frames| :: Absorbed(frames[i])
  }

  /** The frame handed over or thrown away by a poll comes last; all before it are commands. */
  ghost predicate EndsWith(taken: seq<Frame>, last: Frame) {
    taken != [] && taken[|taken| - 1] == last && AllAbsorbed(taken[..|taken| - 1])
  }

  ghost predicate Means(cfg: Config, link: Link, room: nat, poll: Poll) {
    match poll.result
    case Ok(Some(p)) =>
      && EndsWith(poll.taken, p.frame) && p.frame.command == CMD_DATA
      && cfg.envelopeOk(p.frame.payload) && |p.frame.payload| <= room && poll.next.pending.None?
    case Ok(None) =>
      AllAbsorbed(poll.taken) && poll.next.pending.None? && poll.next.port.rx == []
    case Err(HyfWireFailure) =>
      && poll.taken != [] && poll.next.pending.None?
      && var bad := poll.taken[|poll.taken| - 1];
      EndsWith(poll.taken, bad) && bad.command == CMD_DATA && !cfg.envelopeOk(bad.payload)
    case Err(ReadBufferTooSmall(actual, required)) =>
      && AllAbsorbed(poll.taken) && poll.next.pending.Some? && actual == room < required
      && var kept := poll.next.pending.value.frame;
      kept.command == CMD_DATA && |kept.payload| == required
    case Err(RNodeFailure(e)) =>
      && AllAbsorbed(poll.taken) && poll.next.pending.Some?
      && var kept := poll.next.pending.value.frame;
      kept.command != CMD_DATA && ParseCommandFrame(kept) == Err(e)
    case Err(KissFailure(_)) => AllAbsorbed(poll.taken) && poll.next.pending.None?
    case Err(InjectedReadFailure) => AllAbsorbed(poll.taken) && poll.next.pending.None? && link.port.readFault
    case _ => false
  }

  lemma {:induction false} PollMeans(cfg: Config, link: Link, now: nat, room: nat)
    ensures Means(cfg, link, room, PollFrame(cfg, link, now, room))
    ensures var next := PollFrame(cfg, link, now, room).next;
      next.port.tx == link.port.tx && next.port.writeFault == link.port.writeFault && (next.port.readFault ==> link.port.readFault)
    decreases Work(link), 1
  {
    hide ReadUntilPending, PollFrame, Work, ParseCommandFrame;
    if link.pending.None? {
      PollStarts(cfg, link, now, room);
      ReadConserves(cfg, link, now);
      ReadFaultClears(cfg, link, now);
      var (read, r) := ReadUntilPending(cfg, link, now);
      if r.Ok? && r.value {
        PollPendingMeans(cfg, read, now, room);
      }
    } else {
      PollPendingMeans(cfg, link, now, room);
    }
  }

  lemma {:induction false} ReadFaultClears(cfg: Config, link: Link, now: nat)
    ensures !ReadUntilPending(cfg, link, now).0.port.readFault
    decreases |link.port.rx|
  {
    hide StepByte;
    if !link.port.readFault && link.port.rx != [] {
      var step := StepByte(cfg.frameMax, link.decoder, link.port.rx[0]);
      var read := link.(port := link.port.(rx := link.port.rx[1..]), decoder := step.next);
      ReadFaultClears(cfg, read, now);
    }
  }

  lemma {:induction false} PollPendingMeans(cfg: Config, link: Link, now: nat, room: nat)
    requires link.pending.Some?
    ensures Means(cfg, link, room, PollFrame(cfg, link, now, room))
    ensures var next := PollFrame(cfg, link, now, room).next;
      next.port.tx == link.port.tx && next.port.writeFault == link.port.writeFault && (next.port.readFault ==> link.port.readFault)
    decreases Work(link), 0
  {
    hide PollFrame, Work, ParseCommandFrame;
    PollContinues(cfg, link, now, room);
    var p := link.pending.value;
    if p.frame.command != CMD_DATA {
      var (next, r) := DrainCommand(link, p);
      if r.Ok? {
        PollMeans(cfg, next, now, room);
        var rest := PollFrame(cfg, next, now, room);
        MeansAfterCommand(cfg, link, next, p.frame, room, rest);
      }
    }
  }

  lemma MeansAfterCommand(cfg: Config, link: Link, next: Link, f: Frame, room: nat, rest: Poll)
    requires Absorbed(f) && Means(cfg, next, room, rest) && next.port == link.port
    ensures Means(cfg, link, room, rest.(taken := [f] + rest.taken))
  {
    hide Absorbed;
    var all := [f] + rest.taken;
    if rest.taken != [] {
      assert all[..|all| - 1] == [f] + rest.taken[..|rest.taken| - 1];
    }
  }

  /** A short buffer loses nothing: the same frame comes out of the next poll with room. */
  lemma ShortBufferLosesNothing(cfg: Config, link: Link, now: nat, room: nat, later: nat, bigger: nat)
    requires var poll := PollFrame(cfg, link, now, room);
      poll.result.Err? && poll.result.error.ReadBufferTooSmall? && poll.result.error.required <= bigger
    ensures var next := PollFrame(cfg, link, now, room).next;
      && next.pending.Some?
      && var kept, again := next.pending.value, PollFrame(cfg, next, later, bigger);
      && again.taken == [kept.frame] && again.next == next.(pending := None)
      && again.result == if cfg.envelopeOk(kept.frame.payload) then Ok(Some(kept)) else Err(HyfWireFailure)
  {
    PollMeans(cfg, link, now, room);
    var next := PollFrame(cfg, link, now, room).next;
    hide PollFrame;
    PollContinues(cfg, next, later, bigger);
  }

  /** A command frame that does not parse stays pending for good: every later poll fails
      the same way and changes nothing. */
  lemma MalformedCommandSticks(cfg: Config, link: Link, now: nat, room: nat, later: nat, bigger: nat)
    requires var poll := PollFrame(cfg, link, now, room);
      poll.result.Err? && poll.result.error.RNodeFailure?
    ensures var poll := PollFrame(cfg, link, now, room);
      PollFrame(cfg, poll.next, later, bigger) == Poll(poll.next, [], poll.result)
  {
    PollMeans(cfg, link, now, room);
    var next := PollFrame(cfg, link, now, room).next;
    hide PollFrame, ParseCommandFrame;
    PollContinues(cfg, next, later, bigger);
  }
}
