/** Runs of the relay: what every operation keeps, succeeding or not, and what becomes of
    published events and queued outputs over any number of operations. */
module RelayRuns {
  import opened Base
  import opened NostrTypes
  import opened Signing
  import opened Stored
  import opened Relay

  datatype RelayOp =
    | PublishOp(event: Event, available: nat, profile: PublishProfile)
    | RejectOp(status: Status)
    | RememberOp(id: string, filters: seq<Filter>)
    | SubscribeOp(id: string, filters: seq<Filter>)
    | CloseOp(id: string)
    | EnqueueOp(output: Output)
    | ConsumeOp

  function ErrorOf<T>(r: Result<T, NostrError>): Option<NostrError> {
    if r.Err? then Some(r.error) else None
  }

  /** An operation's new state and the error it reports. */
  function Step(c: Crypto, st: State, op: RelayOp): (State, Option<NostrError>) {
    match op
    case PublishOp(event, available, profile) =>
      var (next, r) := Publish(st, c, event, available, profile);
      (next, ErrorOf(r))
    case RejectOp(status) =>
      var (next, r) := RejectNext(st, status);
      (next, ErrorOf(r))
    case RememberOp(id, filters) =>
      var (next, r) := Remember(st, id, filters);
      (next, ErrorOf(r))
    case SubscribeOp(id, filters) =>
      var (next, r) := Subscribe(st, id, filters);
      (next, ErrorOf(r))
    case CloseOp(id) =>
      var (next, r) := CloseSubscription(st, id);
      (next, ErrorOf(r))
    case EnqueueOp(output) =>
      var (next, r) := EnqueueOutput(st, output);
      (next, ErrorOf(r))
    case ConsumeOp => (Consume(st).0, None)
  }

  /** A run's last state, the outputs consumed and the outputs queued on the way, and how
      many operations reported a full queue. */
  datatype History = History(last: State, consumed: seq<Output>, queued: seq<Output>, refusals: nat)

  function StepHistory(c: Crypto, st: State, op: RelayOp): History {
    var (next, error) := Step(c, st, op);
    var consumed := if op.ConsumeOp? && st.queue != [] then [st.queue[0]] else [];
    var queued := if !op.ConsumeOp? && |st.queue| <= |next.queue| then next.queue[|st.queue|..] else [];
    History(next, consumed, queued, if error.Some? && error.value.RelayOutputFull? then 1 else 0)
  }

  function RunRelay(c: Crypto, st: State, ops: seq<RelayOp>): History
    decreases |ops|
  {
    if ops == [] then History(st, [], [], 0)
    else
      var first := StepHistory(c, st, ops[0]);
      var rest := RunRelay(c, first.last, ops[1..]);
      History(rest.last, first.consumed + rest.consumed, first.queued + rest.queued, first.refusals + rest.refusals)
  }

  /** Bounds hold, ids are stored once, and whatever is stored can be stored. */
  ghost predicate Sound(st: State) {
    && |st.events| <= st.eventCap && |st.subs| <= st.subCap && |st.queue| <= st.outCap
    && UniqueIds(st.events) && AllStorable(st.events)
  }

  ghost predicate AllStorable(events: seq<Event>) {
    forall i | 0 <= i < |events| :: FromEvent(events[i]).Ok?
  }

  // ---- one operation ----

  lemma PublishKeepsSound(c: Crypto, st: State, e: Event, available: nat, profile: PublishProfile)
    requires Sound(st)
    ensures Sound(Publish(st, c, e, available, profile).0)
  {
    hide ValidateProfile, FromEvent;
  }

  lemma StepKeepsSound(c: Crypto, st: State, op: RelayOp)
    requires Sound(st)
    ensures Sound(Step(c, st, op).0)
  {
    hide Sound, Publish, RejectNext, Remember, Subscribe, Relay.CloseSubscription, EnqueueOutput, Consume;
    match op
    case PublishOp(event, available, profile) => PublishKeepsSound(c, st, event, available, profile);
    case RejectOp(status) => RejectKeepsSound(st, status);
    case RememberOp(id, filters) => RememberKeepsSound(st, id, filters);
    case SubscribeOp(id, filters) => SubscribeKeepsSound(st, id, filters);
    case CloseOp(id) => CloseKeepsSound(st, id);
    case EnqueueOp(output) => EnqueueKeepsSound(st, output);
    case ConsumeOp => ConsumeKeepsSound(st);
  }

  lemma RejectKeepsSound(st: State, status: Status)
    requires Sound(st)
    ensures Sound(RejectNext(st, status).0)
  {
    hide CheckStatus;
  }

  lemma RememberKeepsSound(st: State, id: string, filters: seq<Filter>)
    requires Sound(st)
    ensures Sound(Remember(st, id, filters).0)
  {
    assert st.subs[id := filters].Keys == st.subs.Keys + {id};
    if id in st.subs {
      assert st.subs.Keys + {id} == st.subs.Keys;
    }
    assert |st.subs.Keys| == |st.subs|;
    assert |st.subs[id := filters].Keys| == |st.subs[id := filters]|;
  }

  lemma SubscribeKeepsSound(st: State, id: string, filters: seq<Filter>)
    requires Sound(st)
    ensures Sound(Subscribe(st, id, filters).0)
  {
    hide ReplayOutputs, EnqueueAll;
    RememberKeepsSound(st, id, filters);
    var (next, r) := Remember(st, id, filters);
    EnqueueAllFills(next, ReplayOutputs(next.events, id, filters));
  }

  lemma CloseKeepsSound(st: State, id: string)
    requires Sound(st)
    ensures Sound(CloseSubscription(st, id).0)
  {
    assert (st.subs - {id}).Keys == st.subs.Keys - {id};
    assert |st.subs.Keys| == |st.subs|;
    assert |(st.subs - {id}).Keys| == |st.subs - {id}|;
  }

  lemma EnqueueKeepsSound(st: State, output: Output)
    requires Sound(st)
    ensures Sound(EnqueueOutput(st, output).0)
  {
    hide CheckOutput;
  }

  lemma ConsumeKeepsSound(st: State)
    requires Sound(st)
    ensures Sound(Consume(st).0)
  {
  }

  /** Events and outputs are only added at the end, and the overflow count goes up exactly
      when a full queue is reported. */
  ghost predicate Grows(st: State, next: State, error: Option<NostrError>) {
    && st.events <= next.events && st.queue <= next.queue
    && next.outCap == st.outCap && next.eventCap == st.eventCap && next.subCap == st.subCap
    && next.overflows == st.overflows + if error.Some? && error.value.RelayOutputFull? then 1 else 0
  }

  /** Every operation only adds, except that consuming takes the first output. */
  lemma StepExtends(c: Crypto, st: State, op: RelayOp)
    requires Sound(st)
    ensures var (next, error) := Step(c, st, op);
      if op.ConsumeOp? then next == st.(queue := if st.queue == [] then [] else st.queue[1..]) && error == None
      else Grows(st, next, error)
  {
    hide Grows, Publish, RejectNext, Remember, Subscribe, Relay.CloseSubscription, EnqueueOutput;
    match op
    case PublishOp(event, available, profile) => PublishGrows(c, st, event, available, profile);
    case RejectOp(status) => RejectGrows(st, status);
    case RememberOp(id, filters) => RememberGrows(st, id, filters);
    case SubscribeOp(id, filters) => SubscribeGrows(st, id, filters);
    case CloseOp(id) => CloseGrows(st, id);
    case EnqueueOp(output) => EnqueueGrows(st, output);
    case ConsumeOp =>
  }

  lemma PublishGrows(c: Crypto, st: State, e: Event, available: nat, profile: PublishProfile)
    ensures var (next, r) := Publish(st, c, e, available, profile); Grows(st, next, ErrorOf(r))
  {
    hide ValidateProfile, FromEvent, CheckOutput;
    StorableOrNot(e);
  }

  lemma RejectGrows(st: State, status: Status)
    ensures var (next, r) := RejectNext(st, status); Grows(st, next, ErrorOf(r))
  {
    hide CheckStatus;
    CheckedError(OkOutput(seq(32, _ => 0), true, status));
  }

  lemma RememberGrows(st: State, id: string, filters: seq<Filter>)
    ensures var (next, r) := Remember(st, id, filters); Grows(st, next, ErrorOf(r))
  {
  }

  lemma SubscribeGrows(st: State, id: string, filters: seq<Filter>)
    requires |st.queue| <= st.outCap
    ensures var (next, r) := Subscribe(st, id, filters); Grows(st, next, ErrorOf(r))
  {
    hide ReplayOutputs, EnqueueAll;
    RememberGrows(st, id, filters);
    var (kept, r) := Remember(st, id, filters);
    if r.Ok? {
      var outs := ReplayOutputs(kept.events, id, filters);
      EnqueueAllFills(kept, outs);
      assert Subscribe(st, id, filters) == EnqueueAll(kept, outs);
      assert EnqueueAll(kept, outs).0.events == st.events;
    }
  }

  lemma CloseGrows(st: State, id: string)
    ensures var (next, r) := CloseSubscription(st, id); Grows(st, next, ErrorOf(r))
  {
  }

  lemma EnqueueGrows(st: State, output: Output)
    ensures var (next, r) := EnqueueOutput(st, output); Grows(st, next, ErrorOf(r))
  {
    hide CheckOutput;
    CheckedError(output);
  }

  /** Checks never report a full queue. */
  lemma CheckedError(out: Output)
    ensures CheckOutput(out).Err? ==> !CheckOutput(out).error.RelayOutputFull?
    ensures out.OkOutput? ==> CheckOutput(out) == CheckStatus(out.status)
  {
    if out.EventOutput? {
      StorableOrNot(out.event);
    }
    hide FromEvent;
  }

  lemma StorableOrNot(e: Event)
    ensures FromEvent(e).Err? ==> !FromEvent(e).error.RelayOutputFull?
  {
    hide StoreEach;
    StoreEachError(e.tags);
  }

  lemma {:induction false} StoreEachError(tags: seq<Tag>)
    ensures StoreEach(tags).Err? ==> !StoreEach(tags).error.RelayOutputFull?
  {
    hide StoreValues;
    if tags != [] {
      StoreValuesError(tags[0]);
      StoreEachError(tags[1..]);
    }
  }

  lemma {:induction false} StoreValuesError(values: seq<string>)
    ensures StoreValues(values).Err? ==> !StoreValues(values).error.RelayOutputFull?
  {
    if values != [] {
      StoreValuesError(values[1..]);
    }
  }

  // ---- runs ----

  /** Over any run: soundness is kept, stored events keep their places, outputs come out in
      the order they went in, each once, and every refusal has been counted. */
  lemma {:induction false} RunKeeps(c: Crypto, st: State, ops: seq<RelayOp>)
    requires Sound(st)
    ensures var h := RunRelay(c, st, ops);
      && Sound(h.last) && st.events <= h.last.events && h.last.outCap == st.outCap
      && h.consumed + h.last.queue == st.queue + h.queued
      && h.last.overflows == st.overflows + h.refusals
    decreases |ops|
  {
    hide Step, Sound;
    if ops == [] {
      assert [] + st.queue == st.queue + [];
    } else {
      var first := StepHistory(c, st, ops[0]);
      var rest := RunRelay(c, first.last, ops[1..]);
      StepKeepsSound(c, st, ops[0]);
      StepExtends(c, st, ops[0]);
      RunKeeps(c, first.last, ops[1..]);
      assert first.consumed + first.last.queue == st.queue + first.queued;
      QueuesCompose(st.queue, first.queued, first.consumed, first.last.queue, rest.queued, rest.consumed, rest.last.queue);
    }
  }

  lemma QueuesCompose(q0: seq<Output>, in1: seq<Output>, out1: seq<Output>, q1: seq<Output>,
                      in2: seq<Output>, out2: seq<Output>, q2: seq<Output>)
    requires out1 + q1 == q0 + in1 && out2 + q2 == q1 + in2
    ensures out1 + out2 + q2 == q0 + (in1 + in2)
  {
    assert out1 + out2 + q2 == out1 + (out2 + q2);
    assert out1 + (q1 + in2) == out1 + q1 + in2;
    assert q0 + in1 + in2 == q0 + (in1 + in2);
  }

  // ---- publishing ----

  ghost predicate Vetted(c: Crypto, e: Event) {
    exists available: nat, profile :: ValidateProfile(c, e, available, profile).Ok?
  }

  ghost predicate AllVetted(c: Crypto, events: seq<Event>) {
    forall i | 0 <= i < |events| :: Vetted(c, events[i])
  }

  /** Exactly when a publish stores the event, whatever becomes of its answer. */
  lemma PublishStoresIff(c: Crypto, st: State, e: Event, available: nat, profile: PublishProfile)
    ensures var next := Publish(st, c, e, available, profile).0;
      var stores := && ValidateProfile(c, e, available, profile).Ok? && !Contains(st.events, e.id) && st.rejection.None?
                    && Fits(e) && |st.events| < st.eventCap;
      next.events == if stores then st.events + [e] else st.events
  {
    hide ValidateProfile, FromEvent;
    StoredRoundTrip(e);
  }

  /** Every stored event passed the check of some publish. */
  lemma {:induction false} StoredEventsAreVetted(c: Crypto, st: State, ops: seq<RelayOp>)
    requires AllVetted(c, st.events)
    ensures AllVetted(c, RunRelay(c, st, ops).last.events)
    decreases |ops|
  {
    hide Step;
    if ops != [] {
      StepVets(c, st, ops[0]);
      StoredEventsAreVetted(c, Step(c, st, ops[0]).0, ops[1..]);
    }
  }

  lemma StepVets(c: Crypto, st: State, op: RelayOp)
    requires AllVetted(c, st.events)
    ensures AllVetted(c, Step(c, st, op).0.events)
  {
    hide ValidateProfile, FromEvent, CheckStatus, CheckOutput, ReplayOutputs, EnqueueAll, Publish;
    match op
    case PublishOp(event, available, profile) =>
      PublishStoresIff(c, st, event, available, profile);
    case SubscribeOp(id, filters) =>
      var (next, r) := Remember(st, id, filters);
      EnqueueAllKeepsEvents(next, ReplayOutputs(next.events, id, filters));
    case _ =>
  }

  lemma {:induction false} EnqueueAllKeepsEvents(st: State, outs: seq<Output>)
    ensures EnqueueAll(st, outs).0.events == st.events
    decreases |outs|
  {
    if outs != [] && Enqueue(st, outs[0]).1.Ok? {
      EnqueueAllKeepsEvents(Enqueue(st, outs[0]).0, outs[1..]);
    }
  }

  /** An event stored once is answered as a duplicate ever after. */
  lemma RetryIsDuplicate(c: Crypto, st: State, e: Event, available: nat, profile: PublishProfile)
    requires e in st.events && ValidateProfile(c, e, available, profile).Ok? && |st.queue| < st.outCap
    ensures Publish(st, c, e, available, profile) ==
      (st.(queue := st.queue + [OkOutput(e.id, true, DUPLICATE_STATUS)]), Ok(AcceptedDuplicate(DUPLICATE_STATUS)))
  {
    hide ValidateProfile;
    var i :| 0 <= i < |st.events| && st.events[i] == e;
    assert st.events[i].id == e.id;
  }

  /** A publish that stores the event but finds no room for its answer reports the full
      queue; after any further operations a retry with room is a duplicate, and the event is
      still stored exactly once. */
  lemma RetryAfterFullQueue(c: Crypto, st: State, e: Event, available: nat, profile: PublishProfile, ops: seq<RelayOp>)
    requires Sound(st) && |st.queue| == st.outCap && !Contains(st.events, e.id) && st.rejection.None?
    requires ValidateProfile(c, e, available, profile).Ok? && Fits(e) && |st.events| < st.eventCap
    ensures Publish(st, c, e, available, profile).1 == Err(RelayOutputFull(st.outCap))
    ensures var later := RunRelay(c, Publish(st, c, e, available, profile).0, ops).last;
      var (last, r) := Publish(later, c, e, available, profile);
      |later.queue| < st.outCap ==>
      && r == Ok(AcceptedDuplicate(DUPLICATE_STATUS)) && last.events == later.events
      && e in later.events && UniqueIds(later.events)
  {
    hide ValidateProfile, FromEvent, RunRelay;
    StoredRoundTrip(e);
    PublishStoresIff(c, st, e, available, profile);
    PublishKeepsSound(c, st, e, available, profile);
    var stored := Publish(st, c, e, available, profile).0;
    RunKeeps(c, stored, ops);
    var later := RunRelay(c, stored, ops).last;
    assert stored.events[|st.events|] == e && later.events[|st.events|] == e;
    if |later.queue| < st.outCap {
      RetryIsDuplicate(c, later, e, available, profile);
    }
  }
  // ---- what is queued has passed its check ----

  ghost predicate AllChecked(outs: seq<Output>) {
    forall i | 0 <= i < |outs| :: CheckOutput(outs[i]).Ok?
  }

  ghost predicate Checked(st: State) {
    Sound(st) && AllChecked(st.queue) && (st.rejection.Some? ==> CheckStatus(st.rejection.value).Ok?)
  }

  lemma ReplayOutputsPass(st: State, id: string, filters: seq<Filter>)
    requires Sound(st) && ValidateSubscriptionId(id).Ok?
    ensures AllChecked(ReplayOutputs(st.events, id, filters))
  {
    hide FromEvent, Ranked, ReplayLimit, Matches, Ascending;
    RankedIsTheSelection(filters, st.events);
    var take := Limited(ReplayLimit(filters), Ranked(filters, st.events));
    forall i | 0 <= i < |take| ensures FromEvent(take[i]).Ok? {
      assert take[i] in Ranked(filters, st.events);
      var j :| 0 <= j < |st.events| && st.events[j] == take[i];
    }
  }

  lemma SubscribeKeepsChecked(st: State, id: string, filters: seq<Filter>)
    requires Checked(st)
    ensures Checked(Subscribe(st, id, filters).0)
  {
    hide CheckOutput, CheckStatus, ReplayOutputs, EnqueueAll, Sound;
    SubscribeKeepsSound(st, id, filters);
    var kept, r := Remember(st, id, filters).0, Remember(st, id, filters).1;
    RememberKeepsSound(st, id, filters);
    if r.Ok? {
      ReplayOutputsPass(kept, id, filters);
      assert |kept.queue| <= kept.outCap by { SoundBounds(kept); }
      var outs := ReplayOutputs(kept.events, id, filters);
      EnqueueAllFills(kept, outs);
      var res := EnqueueAll(kept, outs);
      assert Subscribe(st, id, filters) == res;
      assert AllChecked(kept.queue + outs);
      assert res.1.Ok? ==> res.0.queue == kept.queue + outs;
      assert res.1.Err? ==> res.0.queue == (kept.queue + outs)[..kept.outCap];
    }
  }

  lemma SoundBounds(st: State)
    requires Sound(st)
    ensures |st.queue| <= st.outCap
  {
  }

  lemma AnswerChecked(st: State, id: Bytes32, accepted: bool, status: Status, outcome: Outcome)
    requires AllChecked(st.queue) && CheckStatus(status).Ok?
    ensures AllChecked(Answer(st, OkOutput(id, accepted, status), outcome).0.queue)
    ensures Answer(st, OkOutput(id, accepted, status), outcome).0.rejection == st.rejection
  {
    var out := OkOutput(id, accepted, status);
    assert CheckOutput(out).Ok?;
    hide CheckOutput, CheckStatus;
    var next := Answer(st, out, outcome).0;
    assert next.queue == st.queue || next.queue == st.queue + [out];
  }

  lemma PublishKeepsChecked(c: Crypto, st: State, e: Event, available: nat, profile: PublishProfile)
    requires Checked(st)
    ensures Checked(Publish(st, c, e, available, profile).0)
  {
    hide Sound, CheckStatus, ValidateProfile, Contains, StoreNew, Answer, AllChecked;
    PublishKeepsSound(c, st, e, available, profile);
    if ValidateProfile(c, e, available, profile).Err? {
      FixedAnswerChecked(st, e.id, false, INVALID_STATUS, Rejected(INVALID_STATUS));
    } else if Contains(st.events, e.id) {
      FixedAnswerChecked(st, e.id, true, DUPLICATE_STATUS, AcceptedDuplicate(DUPLICATE_STATUS));
    } else if st.rejection.Some? {
      AnswerChecked(st.(rejection := None), e.id, false, st.rejection.value, Rejected(st.rejection.value));
    } else {
      StoreKeepsQueue(st, e);
      FixedAnswerChecked(StoreNew(st, e).0, e.id, true, EMPTY_STATUS, Accepted(""));
    }
  }

  lemma FixedAnswerChecked(st: State, id: Bytes32, accepted: bool, status: Status, outcome: Outcome)
    requires AllChecked(st.queue) && (status == INVALID_STATUS || status == DUPLICATE_STATUS || status == EMPTY_STATUS)
    ensures AllChecked(Answer(st, OkOutput(id, accepted, status), outcome).0.queue)
    ensures Answer(st, OkOutput(id, accepted, status), outcome).0.rejection == st.rejection
  {
    hide CheckStatus, Answer, AllChecked;
    FixedStatusesPass();
    AnswerChecked(st, id, accepted, status, outcome);
  }

  lemma StoreKeepsQueue(st: State, e: Event)
    ensures StoreNew(st, e).0.queue == st.queue && StoreNew(st, e).0.rejection == st.rejection
  {
    hide FromEvent;
  }

  /** Every operation keeps it: whatever is queued can be shown to a reader in full. */
  lemma StepKeepsChecked(c: Crypto, st: State, op: RelayOp)
    requires Checked(st)
    ensures Checked(Step(c, st, op).0)
  {
    StepKeepsSound(c, st, op);
    hide Sound, CheckStatus, CheckOutput, Publish, Subscribe;
    match op
    case PublishOp(event, available, profile) => PublishKeepsChecked(c, st, event, available, profile);
    case SubscribeOp(id, filters) => SubscribeKeepsChecked(st, id, filters);
    case _ =>
  }

  lemma {:induction false} RunKeepsChecked(c: Crypto, st: State, ops: seq<RelayOp>)
    requires Checked(st)
    ensures Checked(RunRelay(c, st, ops).last)
    decreases |ops|
  {
    hide Step, Checked;
    if ops != [] {
      StepKeepsChecked(c, st, ops[0]);
      RunKeepsChecked(c, Step(c, st, ops[0]).0, ops[1..]);
    }
  }
}
