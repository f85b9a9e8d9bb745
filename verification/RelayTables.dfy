/** The relay's fixed tables: events and subscriptions in slots, output records that refer
    to events by index, and a second slot table for events an output record owns. */
module RelayTables {
  import opened Base
  import opened NostrTypes
  import opened Stored
  import opened Relay

  datatype StoredStatus = StoredStatus(prefix: StatusPrefix, rawPrefix: Bytes, detail: Bytes)

  datatype Record =
    | OkRecord(eventId: Bytes32, accepted: bool, status: StoredStatus)
    | StoredEventRecord(subscriptionId: string, eventIndex: nat)
    | OwnedEventRecord(subscriptionId: string, slot: nat)
    | EoseRecord(id: Bytes)
    | ClosedRecord(id: Bytes, status: StoredStatus)
    | NoticeRecord(message: Bytes)
    | AuthRecord(challenge: Bytes)

  datatype Subscription = Subscription(id: string, filters: seq<Filter>)

  function StoreStatus(status: Status): Result<StoredStatus, NostrError> {
    var rawPrefix :- StoreString(MAX_RELAY_STATUS_CHARS, status.rawPrefix);
    var detail :- StoreString(MAX_RELAY_STATUS_CHARS, status.detail);
    Ok(StoredStatus(status.prefix, rawPrefix, detail))
  }

  function ReadStatus(status: StoredStatus): Result<Status, NostrError> {
    var rawPrefix :- AsStr(status.rawPrefix);
    var detail :- AsStr(status.detail);
    Ok(Status(status.prefix, rawPrefix, detail))
  }

  lemma StatusReadsBack(status: Status)
    ensures StoreStatus(status).Ok? <==> CheckStatus(status).Ok?
    ensures StoreStatus(status).Ok? ==> ReadStatus(StoreStatus(status).value) == Ok(status)
    ensures StoreStatus(status).Err? ==> CheckStatus(status) == Err(StoreStatus(status).error)
  {
    StringReadsBack(status.rawPrefix);
    StringReadsBack(status.detail);
  }

  function EventAt(table: seq<Option<Stored>>, index: nat): Result<Event, NostrError> {
    if index < |table| && table[index].Some? then WithEvent(table[index].value) else Err(Unsupported)
  }

  function EventView(id: string, event: Result<Event, NostrError>): Result<Output, NostrError> {
    match event
    case Err(e) => Err(e)
    case Ok(e) => Ok(EventOutput(id, e))
  }

  /** What a record stands for. */
  function ViewRecord(r: Record, events: seq<Option<Stored>>, slots: seq<Option<Stored>>): Result<Output, NostrError> {
    match r
    case OkRecord(eventId, accepted, stored) =>
      var status :- ReadStatus(stored);
      Ok(OkOutput(eventId, accepted, status))
    case StoredEventRecord(id, index) => EventView(id, EventAt(events, index))
    case OwnedEventRecord(id, slot) => EventView(id, EventAt(slots, slot))
    case EoseRecord(stored) =>
      var id :- AsStr(stored);
      Ok(EoseOutput(id))
    case ClosedRecord(storedId, stored) =>
      var id :- AsStr(storedId);
      var status :- ReadStatus(stored);
      Ok(ClosedOutput(id, status))
    case NoticeRecord(stored) =>
      var message :- AsStr(stored);
      Ok(NoticeOutput(message))
    case AuthRecord(stored) =>
      var challenge :- AsStr(stored);
      Ok(AuthOutput(challenge))
  }

  // ---- what holds of the tables between operations ----

  ghost predicate Prefix<T>(table: seq<Option<T>>, count: nat) {
    count <= |table| && forall i | 0 <= i < |table| :: table[i].Some? <==> i < count
  }

  /** A stored event that reads back as an event whose stored form it is. */
  ghost predicate Faithful(table: seq<Option<Stored>>, i: nat) {
    EventAt(table, i).Ok? && FromEvent(EventAt(table, i).value) == Ok(table[i].value)
  }

  ghost predicate AllReadable(events: seq<Option<Stored>>, stored: nat) {
    forall i | 0 <= i < stored :: Faithful(events, i)
  }

  ghost predicate AllViewable(t: Tables) {
    forall i | 0 <= i < t.queued :: t.View(i).Ok?
  }

  ghost predicate OwnsSlot(outputs: seq<Option<Record>>, i: nat, slot: nat) {
    i < |outputs| && outputs[i].Some? && outputs[i].value.OwnedEventRecord? && outputs[i].value.slot == slot
  }

  ghost predicate SlotsExclusive(outputs: seq<Option<Record>>) {
    forall i: nat, j: nat, slot: nat | OwnsSlot(outputs, i, slot) && OwnsSlot(outputs, j, slot) :: i == j
  }

  ghost predicate SlotsOwned(outputs: seq<Option<Record>>, slots: seq<Option<Stored>>) {
    && (forall slot: nat | slot < |slots| && slots[slot].Some? :: exists i: nat :: OwnsSlot(outputs, i, slot))
    && (forall i: nat, slot: nat | OwnsSlot(outputs, i, slot) :: slot < |slots| && slots[slot].Some?)
  }

  ghost function EventsOf(events: seq<Option<Stored>>, stored: nat): (es: seq<Event>)
    requires AllReadable(events, stored)
    ensures |es| == stored
  {
    seq(stored, i requires 0 <= i < stored => (assert Faithful(events, i); EventAt(events, i).value))
  }

  /** The tables as values, with the two counts the metrics keep. */
  datatype Tables = Tables(events: seq<Option<Stored>>, outputs: seq<Option<Record>>, slots: seq<Option<Stored>>,
                           stored: nat, queued: nat)
  {
    ghost function View(i: nat): Result<Output, NostrError> {
      if i < |outputs| && outputs[i].Some? then ViewRecord(outputs[i].value, events, slots) else Err(Unsupported)
    }

    /** Events and records are gap-free prefixes, every record can be read, and records and
        owned slots are in one-to-one correspondence. */
    ghost predicate Coherent() {
      && |outputs| == |slots|
      && Prefix(events, stored) && AllReadable(events, stored) && UniqueIds(EventsOf(events, stored))
      && Prefix(outputs, queued) && AllViewable(this)
      && SlotsExclusive(outputs) && SlotsOwned(outputs, slots)
    }

    ghost function Queue(): (q: seq<Output>)
      requires AllViewable(this)
      ensures |q| == queued
    {
      seq(queued, i requires 0 <= i < queued => View(i).value)
    }
  }

  /** A record that owns no slot goes in at the end. */
  lemma RecordEnqueued(t: Tables, r: Record)
    requires t.Coherent() && t.queued < |t.outputs| && !r.OwnedEventRecord?
    requires ViewRecord(r, t.events, t.slots).Ok?
    ensures var next := t.(outputs := t.outputs[t.queued := Some(r)], queued := t.queued + 1);
      next.Coherent() && next.Queue() == t.Queue() + [ViewRecord(r, t.events, t.slots).value]
  {
    hide ViewRecord, EventAt;
    var next := t.(outputs := t.outputs[t.queued := Some(r)], queued := t.queued + 1);
    assert forall i: nat | i < t.queued :: next.View(i) == t.View(i);
    assert next.View(t.queued) == ViewRecord(r, t.events, t.slots);
    assert forall i: nat, slot: nat :: OwnsSlot(next.outputs, i, slot) <==> OwnsSlot(t.outputs, i, slot);
  }

  lemma ViewsKeep(r: Record, events: seq<Option<Stored>>, slots: seq<Option<Stored>>, events': seq<Option<Stored>>, slots': seq<Option<Stored>>)
    requires r.StoredEventRecord? ==> EventAt(events', r.eventIndex) == EventAt(events, r.eventIndex)
    requires r.OwnedEventRecord? ==> EventAt(slots', r.slot) == EventAt(slots, r.slot)
    ensures ViewRecord(r, events', slots') == ViewRecord(r, events, slots)
  {
  }

  /** An owned event takes a free slot along with its record. */
  lemma OwnedEnqueued(t: Tables, id: string, slot: nat, event: Stored)
    requires t.Coherent() && t.queued < |t.outputs| && slot < |t.slots| && t.slots[slot].None? && WithEvent(event).Ok?
    ensures var next := t.(outputs := t.outputs[t.queued := Some(OwnedEventRecord(id, slot))], queued := t.queued + 1,
                           slots := t.slots[slot := Some(event)]);
      next.Coherent() && next.Queue() == t.Queue() + [EventOutput(id, WithEvent(event).value)]
  {
    hide ViewRecord, WithEvent;
    var r := OwnedEventRecord(id, slot);
    var next := t.(outputs := t.outputs[t.queued := Some(r)], queued := t.queued + 1, slots := t.slots[slot := Some(event)]);
    assert forall i: nat, s: nat | i != t.queued :: OwnsSlot(next.outputs, i, s) <==> OwnsSlot(t.outputs, i, s);
    assert forall i: nat :: !OwnsSlot(t.outputs, i, slot);
    forall i: nat | i < t.queued ensures next.View(i) == t.View(i) {
      var record := t.outputs[i].value;
      if record.OwnedEventRecord? {
        assert OwnsSlot(t.outputs, i, record.slot);
      }
      ViewsKeep(record, t.events, t.slots, next.events, next.slots);
    }
    OwnedView(id, slot, t.events, next.slots);
    assert OwnsSlot(next.outputs, t.queued, slot);
    forall s | 0 <= s < |next.slots| && next.slots[s].Some? ensures exists i: nat :: OwnsSlot(next.outputs, i, s) {
      if s != slot {
        assert t.slots[s].Some?;
        var i: nat :| OwnsSlot(t.outputs, i, s);
        assert OwnsSlot(next.outputs, i, s);
      }
    }
  }

  lemma OwnedView(id: string, slot: nat, events: seq<Option<Stored>>, slots: seq<Option<Stored>>)
    ensures ViewRecord(OwnedEventRecord(id, slot), events, slots) == EventView(id, EventAt(slots, slot))
  {
  }

  /** A new event changes no record's meaning. */
  lemma EventStored(t: Tables, e: Event, event: Stored)
    requires t.Coherent() && t.stored < |t.events| && FromEvent(e) == Ok(event)
    requires NoId(EventsOf(t.events, t.stored), e.id)
    ensures var next := t.(events := t.events[t.stored := Some(event)], stored := t.stored + 1);
      && next.Coherent() && next.Queue() == t.Queue()
      && EventsOf(next.events, next.stored) == EventsOf(t.events, t.stored) + [e]
  {
    StoredRoundTrip(e);
    hide ViewRecord, WithEvent, EventView, FromEvent;
    var next := t.(events := t.events[t.stored := Some(event)], stored := t.stored + 1);
    forall i: nat | i < t.queued ensures next.View(i) == t.View(i) {
      var record := t.outputs[i].value;
      assert t.View(i).Ok?;
      if record.StoredEventRecord? {
        StoredIndexLive(record, t.events, t.slots);
      }
      ViewsKeep(record, t.events, t.slots, next.events, next.slots);
    }
    var es := EventsOf(t.events, t.stored);
    forall i | 0 <= i < next.stored ensures Faithful(next.events, i) {
      if i < t.stored {
        assert Faithful(t.events, i) && EventAt(next.events, i) == EventAt(t.events, i);
      }
    }
    forall i: nat | i < t.queued ensures next.View(i).Ok? {
      assert t.View(i).Ok?;
    }
    assert EventsOf(next.events, next.stored) == es + [e];
  }

  lemma StoredIndexLive(r: Record, events: seq<Option<Stored>>, slots: seq<Option<Stored>>)
    requires r.StoredEventRecord? && ViewRecord(r, events, slots).Ok?
    ensures r.eventIndex < |events| && events[r.eventIndex].Some?
  {
  }

  /** The head leaves, its slot with it; the others keep their events. */
  lemma HeadConsumed(t: Tables)
    requires t.Coherent() && t.queued > 0
    ensures var head := t.outputs[0].value;
      var slots := if head.OwnedEventRecord? && head.slot < |t.slots| then t.slots[head.slot := None] else t.slots;
      var next := t.(outputs := t.outputs[1..] + [None], queued := t.queued - 1, slots := slots);
      && (head.OwnedEventRecord? ==> head.slot < |t.slots|)
      && next.Coherent() && next.Queue() == t.Queue()[1..]
  {
    hide ViewRecord, WithEvent;
    var head := t.outputs[0].value;
    if head.OwnedEventRecord? {
      assert OwnsSlot(t.outputs, 0, head.slot);
    }
    var slots := if head.OwnedEventRecord? && head.slot < |t.slots| then t.slots[head.slot := None] else t.slots;
    var next := t.(outputs := t.outputs[1..] + [None], queued := t.queued - 1, slots := slots);
    assert forall i: nat, s: nat :: OwnsSlot(next.outputs, i, s) <==> OwnsSlot(t.outputs, i + 1, s);
    forall i: nat | i < next.queued ensures next.View(i) == t.View(i + 1) {
      var record := t.outputs[i + 1].value;
      assert next.outputs[i] == t.outputs[i + 1];
      if record.OwnedEventRecord? {
        assert OwnsSlot(t.outputs, i + 1, record.slot);
      }
      ViewsKeep(record, t.events, t.slots, next.events, next.slots);
    }
    assert AllViewable(next) by {
      forall i: nat | i < next.queued ensures next.View(i).Ok? {
        assert t.View(i + 1).Ok?;
      }
    }
    forall s | 0 <= s < |slots| && slots[s].Some? ensures exists i: nat :: OwnsSlot(next.outputs, i, s) {
      var i: nat :| OwnsSlot(t.outputs, i, s);
      assert i > 0;
      assert OwnsSlot(next.outputs, i - 1, s);
    }
    assert next.Queue() == t.Queue()[1..];
  }

  // ---- the two tables fill up together ----

  ghost function SlotsUsed(outputs: seq<Option<Record>>, count: nat): (used: set<nat>)
    requires count <= |outputs|
    ensures |used| <= count
    ensures forall slot: nat :: slot in used <==> exists i: nat :: i < count && OwnsSlot(outputs, i, slot)
  {
    if count == 0 then {}
    else
      var k := count - 1;
      var rest := SlotsUsed(outputs, k);
      var last := outputs[k];
      if last.Some? && last.value.OwnedEventRecord? then
        assert OwnsSlot(outputs, k, last.value.slot);
        {last.value.slot} + rest
      else rest
  }

  ghost function Below(n: nat): (s: set<nat>)
    ensures |s| == n && forall i: nat :: i in s <==> i < n
  {
    if n == 0 then {} else Below(n - 1) + {n - 1}
  }

  lemma SubsetCardinality<T>(a: set<T>, b: set<T>)
    requires a <= b
    ensures |a| <= |b|
  {
    if a != {} {
      var x :| x in a;
      SubsetCardinality(a - {x}, b - {x});
    }
  }

  /** Pigeonhole: with no free slot left, the queue itself is full. */
  lemma NoSlotMeansFullQueue(t: Tables)
    requires t.Coherent() && forall slot | 0 <= slot < |t.slots| :: t.slots[slot].Some?
    ensures t.queued == |t.outputs|
  {
    var used := SlotsUsed(t.outputs, t.queued);
    forall slot | slot in Below(|t.slots|) ensures slot in used {
      assert t.slots[slot].Some?;
      var i: nat :| OwnsSlot(t.outputs, i, slot);
      assert i < t.queued;
    }
    SubsetCardinality(Below(|t.slots|), used);
  }

  // ---- subscription slots ----

  ghost predicate UniqueSubs(subs: seq<Option<Subscription>>) {
    forall i, j | 0 <= i < j < |subs| && subs[i].Some? && subs[j].Some? :: subs[i].value.id != subs[j].value.id
  }

  ghost function CountSome<T>(table: seq<Option<T>>): (n: nat)
    ensures n <= |table|
  {
    if table == [] then 0
    else CountSome(table[..|table| - 1]) + if table[|table| - 1].Some? then 1 else 0
  }

  ghost predicate HoldsSub(subs: seq<Option<Subscription>>, i: nat, id: string) {
    i < |subs| && subs[i].Some? && subs[i].value.id == id
  }

  ghost function SubsOf(subs: seq<Option<Subscription>>): map<string, seq<Filter>> {
    if subs == [] then map[]
    else
      var last := |subs| - 1;
      var rest := SubsOf(subs[..last]);
      if subs[last].Some? then rest[subs[last].value.id := subs[last].value.filters] else rest
  }

  ghost predicate SomeHolds(subs: seq<Option<Subscription>>, id: string) {
    exists i: nat :: HoldsSub(subs, i, id)
  }

  lemma {:induction false} SubsKeys(subs: seq<Option<Subscription>>, id: string)
    ensures id in SubsOf(subs) <==> SomeHolds(subs, id)
  {
    if subs != [] {
      var last := |subs| - 1;
      var init := subs[..last];
      SubsKeys(init, id);
      if SomeHolds(init, id) {
        var i: nat :| HoldsSub(init, i, id);
        assert HoldsSub(subs, i, id);
      }
      if HoldsSub(subs, last, id) {
        assert SomeHolds(subs, id);
      } else if SomeHolds(subs, id) {
        var i: nat :| HoldsSub(subs, i, id);
        assert HoldsSub(init, i, id);
      }
    }
  }

  lemma {:induction false} SubsValue(subs: seq<Option<Subscription>>, i: nat, id: string)
    requires UniqueSubs(subs) && HoldsSub(subs, i, id)
    ensures id in SubsOf(subs) && SubsOf(subs)[id] == subs[i].value.filters
  {
    var last := |subs| - 1;
    if i < last {
      assert HoldsSub(subs[..last], i, id);
      SubsValue(subs[..last], i, id);
    }
  }

  lemma {:induction false} SubsCount(subs: seq<Option<Subscription>>)
    requires UniqueSubs(subs)
    ensures |SubsOf(subs)| == CountSome(subs)
  {
    if subs != [] {
      var last := |subs| - 1;
      var init := subs[..last];
      SubsCount(init);
      if subs[last].Some? {
        var id := subs[last].value.id;
        SubsKeys(init, id);
        assert !SomeHolds(init, id);
      }
    }
  }

  lemma {:induction false} CountUpdate<T>(table: seq<Option<T>>, i: nat, v: Option<T>)
    requires i < |table|
    ensures CountSome(table[i := v]) ==
      CountSome(table) + (if v.Some? then 1 else 0) - (if table[i].Some? then 1 else 0)
  {
    var last := |table| - 1;
    if i == last {
      assert table[i := v][..last] == table[..last];
    } else {
      CountUpdate(table[..last], i, v);
      assert table[i := v][..last] == table[..last][i := v];
    }
  }

  lemma {:induction false} CountFull<T>(table: seq<Option<T>>)
    ensures CountSome(table) == |table| <==> forall i | 0 <= i < |table| :: table[i].Some?
  {
    if table != [] {
      CountFull(table[..|table| - 1]);
      var init := table[..|table| - 1];
      assert forall i | 0 <= i < |init| :: init[i] == table[i];
    }
  }

  /** Slot `i` changes, and only the subscription `id` can have been or be there. */
  ghost predicate OnlyChanges(subs: seq<Option<Subscription>>, next: seq<Option<Subscription>>, i: nat, id: string) {
    && UniqueSubs(subs) && UniqueSubs(next) && |next| == |subs| && i < |subs|
    && (forall j: nat | j < |subs| && j != i :: next[j] == subs[j] && !HoldsSub(subs, j, id))
    && (subs[i].Some? ==> subs[i].value.id == id) && (next[i].Some? ==> next[i].value.id == id)
  }

  lemma OthersKeep(subs: seq<Option<Subscription>>, next: seq<Option<Subscription>>, i: nat, id: string, x: string)
    requires OnlyChanges(subs, next, i, id) && x != id
    ensures x in SubsOf(next) <==> x in SubsOf(subs)
    ensures x in SubsOf(next) ==> SubsOf(next)[x] == SubsOf(subs)[x]
  {
    SubsKeys(subs, x);
    SubsKeys(next, x);
    if SomeHolds(next, x) {
      var j: nat :| HoldsSub(next, j, x);
      assert HoldsSub(subs, j, x);
      SubsValue(next, j, x);
      SubsValue(subs, j, x);
    }
    if SomeHolds(subs, x) {
      var j: nat :| HoldsSub(subs, j, x);
      assert HoldsSub(next, j, x);
    }
  }

  /** Writing a subscription into its own slot, or into a free one when it has none. */
  lemma SubWritten(subs: seq<Option<Subscription>>, i: nat, s: Subscription)
    requires UniqueSubs(subs) && i < |subs|
    requires HoldsSub(subs, i, s.id) || (subs[i].None? && s.id !in SubsOf(subs))
    ensures var next := subs[i := Some(s)];
      UniqueSubs(next) && SubsOf(next) == SubsOf(subs)[s.id := s.filters]
  {
    var next := subs[i := Some(s)];
    SubsKeys(subs, s.id);
    forall j: nat | j < |subs| && j != i ensures !HoldsSub(subs, j, s.id) {
      assert j != i && HoldsSub(subs, i, s.id) ==> !HoldsSub(subs, j, s.id);
    }
    forall a, b | 0 <= a < b < |next| && next[a].Some? && next[b].Some? ensures next[a].value.id != next[b].value.id {
      assert a != i ==> !HoldsSub(subs, a, s.id);
      assert b != i ==> !HoldsSub(subs, b, s.id);
    }
    assert HoldsSub(next, i, s.id);
    SubsValue(next, i, s.id);
    forall x ensures x in SubsOf(next) <==> x in SubsOf(subs)[s.id := s.filters] {
      if x != s.id {
        OthersKeep(subs, next, i, s.id, x);
      }
    }
    forall x | x in SubsOf(next) ensures SubsOf(next)[x] == SubsOf(subs)[s.id := s.filters][x] {
      if x != s.id {
        OthersKeep(subs, next, i, s.id, x);
      }
    }
  }

  lemma SubRemoved(subs: seq<Option<Subscription>>, i: nat, id: string)
    requires UniqueSubs(subs) && HoldsSub(subs, i, id)
    ensures UniqueSubs(subs[i := None]) && SubsOf(subs[i := None]) == SubsOf(subs) - {id}
  {
    var next := subs[i := None];
    assert OnlyChanges(subs, next, i, id);
    SubsKeys(next, id);
    forall x | x != id ensures x in SubsOf(next) <==> x in SubsOf(subs) {
      OthersKeep(subs, next, i, id, x);
    }
    forall x | x in SubsOf(next) ensures SubsOf(next)[x] == SubsOf(subs)[x] {
      OthersKeep(subs, next, i, id, x);
    }
  }
}
