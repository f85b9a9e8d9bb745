/** The relay as the object it is: four fixed tables and their metrics, updated in place.
    Every method equates the state it leaves with the corresponding function of Relay. */
module RelayDriver {
  import opened Base
  import opened NostrTypes
  import opened Signing
  import opened Stored
  import opened Relay
  import opened RelayTables
  import Utf8

  /** The first free slot of a table. */
  method FirstFree<T>(table: array<Option<T>>) returns (r: Option<nat>)
    ensures r.Some? ==> r.value < |table[..]| && table[..][r.value].None? && forall i | 0 <= i < r.value :: table[..][i].Some?
    ensures r.None? ==> forall i | 0 <= i < |table[..]| :: table[..][i].Some?
  {
    for index := 0 to table.Length
      invariant forall i | 0 <= i < index :: table[i].Some?
    {
      if table[index].None? {
        return Some(index);
      }
    }
    return None;
  }

  class FakeNostrRelay {
    const crypto: Crypto
    const events: array<Option<Stored>>
    const subscriptions: array<Option<Subscription>>
    const outputs: array<Option<Record>>
    const outputEvents: array<Option<Stored>>
    var nextPublishRejection: Option<StoredStatus>
    var storedEvents: nat
    var activeSubscriptions: nat
    var queuedOutputs: nat
    var outputOverflows: nat

    ghost function Contents(): Tables
      reads this, events, outputs, outputEvents
    {
      Tables(events[..], outputs[..], outputEvents[..], storedEvents, queuedOutputs)
    }

    /** The tables are coherent and each metric is the count it stands for. */
    ghost predicate Valid()
      reads this, events, subscriptions, outputs, outputEvents
    {
      && events != outputEvents
      && Contents().Coherent()
      && UniqueSubs(subscriptions[..]) && activeSubscriptions == CountSome(subscriptions[..])
      && (nextPublishRejection.Some? ==> ReadStatus(nextPublishRejection.value).Ok?)
    }

    ghost function Value(): State
      requires Valid()
      reads this, events, subscriptions, outputs, outputEvents
    {
      State(events.Length, subscriptions.Length, outputs.Length,
            EventsOf(events[..], storedEvents), SubsOf(subscriptions[..]), Contents().Queue(),
            if nextPublishRejection.Some? then Some(ReadStatus(nextPublishRejection.value).value) else None,
            outputOverflows)
    }

    constructor (crypto: Crypto, eventCap: nat, subCap: nat, outCap: nat)
      ensures Valid() && Value() == NewState(eventCap, subCap, outCap) && this.crypto == crypto
      ensures fresh(events) && fresh(subscriptions) && fresh(outputs) && fresh(outputEvents)
    {
      this.crypto := crypto;
      events := new Option<Stored>[eventCap](_ => None);
      subscriptions := new Option<Subscription>[subCap](_ => None);
      outputs := new Option<Record>[outCap](_ => None);
      outputEvents := new Option<Stored>[outCap](_ => None);
      nextPublishRejection := None;
      storedEvents, activeSubscriptions, queuedOutputs, outputOverflows := 0, 0, 0, 0;
      new;
      hide Tables.Coherent, Tables.Queue, CountSome, SubsOf;
      NothingHeld(subscriptions[..]);
      NothingQueued(Contents());
    }

    static lemma NothingQueued(t: Tables)
      requires t.stored == 0 && t.queued == 0
      requires forall i | 0 <= i < |t.events| :: t.events[i].None?
      requires forall i | 0 <= i < |t.outputs| :: t.outputs[i].None?
      requires |t.slots| == |t.outputs| && forall i | 0 <= i < |t.slots| :: t.slots[i].None?
      ensures t.Coherent() && t.Queue() == []
    {
    }

    static lemma {:induction false} NothingHeld(subs: seq<Option<Subscription>>)
      requires forall i | 0 <= i < |subs| :: subs[i].None?
      ensures CountSome(subs) == 0 && SubsOf(subs) == map[]
    {
      if subs != [] {
        NothingHeld(subs[..|subs| - 1]);
      }
    }

    /** What the metrics report is what the tables hold. */
    method Metrics() returns (events: nat, subscriptions: nat, outputs: nat, overflows: nat)
      requires Valid()
      ensures events == |Value().events| && subscriptions == |Value().subs|
      ensures outputs == |Value().queue| && overflows == Value().overflows
    {
      hide Tables.Coherent, AllReadable, UniqueSubs, SubsOf, CountSome;
      SubsCount(this.subscriptions[..]);
      return storedEvents, activeSubscriptions, queuedOutputs, outputOverflows;
    }

    // ---- the output queue ----

    /** The record goes to the first free place; a full queue counts an overflow. */
    method PushRecord(record: Record) returns (r: Result<nat, NostrError>)
      requires Prefix(outputs[..], queuedOutputs)
      modifies this`queuedOutputs, this`outputOverflows, outputs
      ensures if old(queuedOutputs) == outputs.Length then
          && r == Err(RelayOutputFull(outputs.Length)) && outputOverflows == old(outputOverflows) + 1
          && outputs[..] == old(outputs[..]) && queuedOutputs == old(queuedOutputs)
        else
          && r == Ok(old(queuedOutputs)) && outputOverflows == old(outputOverflows)
          && outputs[..] == old(outputs[..][queuedOutputs := Some(record)]) && queuedOutputs == old(queuedOutputs) + 1
    {
      var free := FirstFree(outputs);
      assert queuedOutputs < outputs.Length ==> outputs[..][queuedOutputs].None?;
      if free.None? {
        outputOverflows := outputOverflows + 1;
        return Err(RelayOutputFull(outputs.Length));
      }
      var index: nat := free.value;
      assert index == queuedOutputs;
      outputs[index] := Some(record);
      queuedOutputs := queuedOutputs + 1;
      return Ok(index);
    }

    method EnqueueOutputRecordIndex(record: Record) returns (r: Result<nat, NostrError>)
      requires Valid() && !record.OwnedEventRecord? && ViewRecord(record, events[..], outputEvents[..]).Ok?
      modifies this`queuedOutputs, this`outputOverflows, outputs
      ensures Valid()
      ensures var (next, done) := Enqueue(old(Value()), old(ViewRecord(record, events[..], outputEvents[..]).value));
        Value() == next && (r.Ok? <==> done.Ok?) && (r.Err? ==> r.error == done.error)
      ensures r.Ok? ==> r.value < outputs.Length && outputs[r.value] == Some(record)
    {
      hide ViewRecord, SlotsOwned, SlotsExclusive, AllReadable, WithEvent, ReadStatus;
      ghost var before := Contents();
      if queuedOutputs < outputs.Length {
        RecordEnqueued(before, record);
      }
      r := PushRecord(record);
      if r.Ok? {
        assert outputs[..][r.value] == outputs[r.value];
        assert Contents() == before.(outputs := before.outputs[before.queued := Some(record)], queued := before.queued + 1);
      }
    }

    method EnqueueOutputRecord(record: Record) returns (r: Result<(), NostrError>)
      requires Valid() && !record.OwnedEventRecord? && ViewRecord(record, events[..], outputEvents[..]).Ok?
      modifies this`queuedOutputs, this`outputOverflows, outputs
      ensures Valid()
      ensures (Value(), r) == Enqueue(old(Value()), old(ViewRecord(record, events[..], outputEvents[..]).value))
    {
      hide ViewRecord, Tables.Coherent, Tables.Queue;
      var index := EnqueueOutputRecordIndex(record);
      r := if index.Ok? then Ok(()) else Err(index.error);
    }

    /** An event of the caller's own: a free slot is looked for before a place in the queue,
        and there is one whenever the queue has room. */
    method EnqueueEventOutput(id: string, event: Event) returns (r: Result<(), NostrError>)
      requires Valid()
      modifies this`queuedOutputs, this`outputOverflows, outputs, outputEvents
      ensures Valid() && (Value(), r) == EnqueueOutput(old(Value()), EventOutput(id, event))
    {
      hide ViewRecord, SlotsOwned, SlotsExclusive, AllReadable, WithEvent, FromEvent, ReadStatus;
      var record :- StoreEvent(event);
      StoredRoundTrip(event);
      ghost var before := Contents();
      var free := FirstFree(outputEvents);
      if free.None? {
        assert forall s | 0 <= s < |before.slots| :: before.slots[s] == outputEvents[s] && before.slots[s].Some?;
        NoSlotMeansFullQueue(before);
        outputOverflows := outputOverflows + 1;
        return Err(RelayOutputFull(outputs.Length));
      }
      var slot: nat := free.value;
      if queuedOutputs < outputs.Length {
        OwnedEnqueued(before, id, slot, record);
      }
      var _ :- PushRecord(OwnedEventRecord(id, slot));
      outputEvents[slot] := Some(record);
      assert outputEvents[..] == before.slots[slot := Some(record)];
      return Ok(());
    }

    method EnqueueNotice(message: string) returns (r: Result<(), NostrError>)
      requires Valid()
      modifies this`queuedOutputs, this`outputOverflows, outputs
      ensures Valid() && (Value(), r) == EnqueueOutput(old(Value()), NoticeOutput(message))
    {
      hide Tables.Coherent, Tables.Queue, AsStr;
      var stored :- StoreString(MAX_RELAY_STATUS_CHARS, message);
      StringReadsBack(message);
      r := EnqueueOutputRecord(NoticeRecord(stored));
    }

    method InjectAuthChallenge(challenge: string) returns (r: Result<(), NostrError>)
      requires Valid()
      modifies this`queuedOutputs, this`outputOverflows, outputs
      ensures Valid() && (Value(), r) == EnqueueOutput(old(Value()), AuthOutput(challenge))
    {
      hide Tables.Coherent, Tables.Queue, AsStr;
      var stored :- StoreString(MAX_RELAY_STATUS_CHARS, challenge);
      StringReadsBack(challenge);
      r := EnqueueOutputRecord(AuthRecord(stored));
    }

    method InjectEose(id: string) returns (r: Result<(), NostrError>)
      requires Valid()
      modifies this`queuedOutputs, this`outputOverflows, outputs
      ensures Valid() && (Value(), r) == EnqueueOutput(old(Value()), EoseOutput(id))
    {
      hide Tables.Coherent, Tables.Queue, AsStr;
      var _ :- ValidateSubscriptionId(id);
      var stored := StoreString(SUBSCRIPTION_ID_MAX_LEN, id);
      StringReadsBack(id);
      r := EnqueueOutputRecord(EoseRecord(stored.value));
    }

    method InjectClosed(id: string, status: Status) returns (r: Result<(), NostrError>)
      requires Valid()
      modifies this`queuedOutputs, this`outputOverflows, outputs
      ensures Valid() && (Value(), r) == EnqueueOutput(old(Value()), ClosedOutput(id, status))
    {
      hide Tables.Coherent, Tables.Queue, AsStr, ReadStatus, StoreStatus, CheckStatus;
      var _ :- ValidateSubscriptionId(id);
      var storedId := StoreString(SUBSCRIPTION_ID_MAX_LEN, id);
      StringReadsBack(id);
      StatusReadsBack(status);
      var stored :- StoreStatus(status);
      r := EnqueueOutputRecord(ClosedRecord(storedId.value, stored));
      assert CheckStatus(status) == Ok(()) by { CheckedIsUnit(status); }
    }

    method EnqueueOk(eventId: Bytes32, accepted: bool, status: Status) returns (r: Result<(), NostrError>)
      requires Valid()
      modifies this`queuedOutputs, this`outputOverflows, outputs
      ensures Valid() && (Value(), r) == EnqueueOutput(old(Value()), OkOutput(eventId, accepted, status))
    {
      hide Tables.Coherent, Tables.Queue, ReadStatus, StoreStatus, CheckStatus;
      StatusReadsBack(status);
      var stored :- StoreStatus(status);
      r := EnqueueOutputRecord(OkRecord(eventId, accepted, stored));
      assert CheckStatus(status) == Ok(()) by { CheckedIsUnit(status); }
    }

    static lemma CheckedIsUnit(status: Status)
      ensures CheckStatus(status).Ok? ==> CheckStatus(status) == Ok(())
    {
    }

    method EnqueueAny(output: Output) returns (r: Result<(), NostrError>)
      requires Valid()
      modifies this`queuedOutputs, this`outputOverflows, outputs, outputEvents
      ensures Valid() && (Value(), r) == EnqueueOutput(old(Value()), output)
    {
      hide Tables.Coherent, Tables.Queue, EnqueueOutput;
      match output
      case OkOutput(eventId, accepted, status) => r := EnqueueOk(eventId, accepted, status);
      case EventOutput(id, event) => r := EnqueueEventOutput(id, event);
      case EoseOutput(id) => r := InjectEose(id);
      case ClosedOutput(id, status) => r := InjectClosed(id, status);
      case NoticeOutput(message) => r := EnqueueNotice(message);
      case AuthOutput(challenge) => r := InjectAuthChallenge(challenge);
    }

    // ---- reading and consuming ----

    /** The head of the queue as its reader sees it; there is always something to see. */
    method NextOutput() returns (r: Result<Option<Output>, NostrError>)
      requires Valid()
      ensures r == Ok(if Value().queue == [] then None else Some(Value().queue[0]))
    {
      hide ViewRecord, SlotsOwned, SlotsExclusive, AllReadable, UniqueIds;
      assert outputs.Length > 0 ==> outputs[..][0] == outputs[0];
      if outputs.Length == 0 || outputs[0].None? {
        return Ok(None);
      }
      assert Contents().View(0).Ok?;
      var view := ViewRecord(outputs[0].value, events[..], outputEvents[..]);
      return Ok(Some(view.value));
    }

    /** The head of the queue if it is no event. */
    method NextControlOutput() returns (r: Result<Option<Output>, NostrError>)
      requires Valid()
      ensures r == Ok(if Value().queue == [] || Value().queue[0].EventOutput? then None else Some(Value().queue[0]))
    {
      hide SlotsOwned, SlotsExclusive, AllReadable, UniqueIds, ReadStatus, AsStr, EventAt;
      assert outputs.Length > 0 ==> outputs[..][0] == outputs[0];
      if outputs.Length == 0 || outputs[0].None? {
        return Ok(None);
      }
      assert Contents().View(0).Ok?;
      var record := outputs[0].value;
      if record.StoredEventRecord? || record.OwnedEventRecord? {
        return Ok(None);
      }
      var view := ViewRecord(record, events[..], outputEvents[..]);
      return Ok(Some(view.value));
    }

    /** The head goes, and every other record moves down one place. */
    method DropHead()
      requires outputs.Length > 0
      modifies outputs
      ensures outputs[..] == old(outputs[..])[1..] + [None]
    {
      outputs[0] := None;
      if outputs.Length > 1 {
        for index := 1 to outputs.Length
          invariant forall i | 0 <= i < index - 1 :: outputs[i] == old(outputs[i + 1])
          invariant forall i | index <= i < outputs.Length :: outputs[i] == old(outputs[i])
        {
          outputs[index - 1] := outputs[index];
        }
        outputs[outputs.Length - 1] := None;
      }
    }

    method ConsumeOutput() returns (consumed: bool)
      requires Valid()
      modifies this`queuedOutputs, outputs, outputEvents
      ensures Valid() && (Value(), consumed) == Consume(old(Value()))
    {
      hide ViewRecord, SlotsOwned, SlotsExclusive, AllReadable, UniqueIds, ReadStatus;
      assert outputs.Length > 0 ==> outputs[..][0] == outputs[0];
      if outputs.Length == 0 || outputs[0].None? {
        return false;
      }
      ghost var before := Contents();
      HeadConsumed(before);
      if outputs[0].value.OwnedEventRecord? {
        outputEvents[outputs[0].value.slot] := None;
      }
      DropHead();
      queuedOutputs := queuedOutputs - 1;
      assert outputEvents[..] == if before.outputs[0].value.OwnedEventRecord? then before.slots[before.outputs[0].value.slot := None] else before.slots;
      return true;
    }

    // ---- publishing ----

    method RejectNextPublish(status: Status) returns (r: Result<(), NostrError>)
      requires Valid()
      modifies this`nextPublishRejection
      ensures Valid() && (Value(), r) == RejectNext(old(Value()), status)
    {
      hide Tables.Coherent, Tables.Queue, ReadStatus, StoreStatus, CheckStatus;
      StatusReadsBack(status);
      CheckedIsUnit(status);
      var stored :- StoreStatus(status);
      nextPublishRejection := Some(stored);
      return Ok(());
    }

    method ContainsEvent(id: Bytes32) returns (found: bool)
      requires Valid()
      ensures found == Contains(Value().events, id)
    {
      hide ViewRecord, SlotsOwned, SlotsExclusive, UniqueIds, WithEvent, FromEvent, Tables.Queue, AllViewable;
      ghost var es := EventsOf(events[..], storedEvents);
      for index := 0 to events.Length
        invariant forall i | 0 <= i < index && i < storedEvents :: es[i].id != id
      {
        assert events[..][index] == events[index];
        if index < storedEvents {
          StoredId(index);
        }
        if events[index].Some? && events[index].value.id == id {
          assert es[index].id == id;
          return true;
        }
      }
      return false;
    }

    lemma StoredId(i: nat)
      requires Prefix(events[..], storedEvents) && AllReadable(events[..], storedEvents) && i < storedEvents
      ensures i < events.Length && events[i].Some?
      ensures var e, s := EventsOf(events[..], storedEvents)[i], events[i].value;
        && e.id == s.id && e.pubkey == s.pubkey && e.createdAt == s.createdAt && e.kind == s.kind
        && WithEvent(s) == Ok(e) && FromEvent(e) == Ok(s)
    {
      hide ReadTags, MakeTags, FromEvent;
      assert Faithful(events[..], i);
      assert events[..][i] == events[i];
    }

    method StoreEventRecord(event: Event) returns (r: Result<(), NostrError>)
      requires Valid() && !Contains(Value().events, event.id)
      modifies this`storedEvents, events
      ensures Valid() && (Value(), r) == StoreNew(old(Value()), event)
    {
      hide ViewRecord, SlotsOwned, SlotsExclusive, AllViewable, WithEvent, FromEvent, ReadStatus, Tables.Queue, UniqueIds, AllReadable;
      var record :- StoreEvent(event);
      ghost var before := Contents();
      var free := FirstFree(events);
      assert storedEvents < events.Length ==> events[..][storedEvents].None?;
      if free.None? {
        return Err(RelayEventStoreFull(events.Length));
      }
      var slot: nat := free.value;
      assert slot == storedEvents;
      EventStored(before, event, record);
      events[slot] := Some(record);
      storedEvents := storedEvents + 1;
      assert events[..] == before.events[before.stored := Some(record)];
      return Ok(());
    }

    /** The status kept with the Ok record at `index`. */
    method OutputOkStatus(index: nat) returns (r: Result<Status, NostrError>)
      ensures r == if index < outputs.Length && outputs[index].Some? && outputs[index].value.OkRecord?
        then ReadStatus(outputs[index].value.status) else Err(Unsupported)
    {
      if index >= outputs.Length || outputs[index].None? || !outputs[index].value.OkRecord? {
        return Err(Unsupported);
      }
      return ReadStatus(outputs[index].value.status);
    }

    /** `available` is the length of the caller's decode buffer. */
    method PublishWithProfile(event: Event, available: nat, profile: PublishProfile)
      returns (r: Result<Outcome, NostrError>)
      requires Valid()
      modifies this, outputs, events
      ensures Valid() && (Value(), r) == Publish(old(Value()), crypto, event, available, profile)
    {
      hide Tables.Coherent, Tables.Queue, ReadStatus, StoreStatus, ValidateProfile, Contains, StoreNew;
      FixedStatusesPass();
      if ValidateProfile(crypto, event, available, profile).Err? {
        var _ :- EnqueueOk(event.id, false, INVALID_STATUS);
        return Ok(Rejected(INVALID_STATUS));
      }
      var known := ContainsEvent(event.id);
      if known {
        var _ :- EnqueueOk(event.id, true, DUPLICATE_STATUS);
        return Ok(AcceptedDuplicate(DUPLICATE_STATUS));
      }
      if nextPublishRejection.Some? {
        r := Reject(event.id);
        return;
      }
      var _ :- StoreEventRecord(event);
      var _ :- EnqueueOk(event.id, true, EMPTY_STATUS);
      return Ok(Accepted(""));
    }

    /** The rejection due is used up, whether or not its answer finds room. */
    method Reject(id: Bytes32) returns (r: Result<Outcome, NostrError>)
      requires Valid() && nextPublishRejection.Some?
      modifies this`nextPublishRejection, this`queuedOutputs, this`outputOverflows, outputs
      ensures Valid()
      ensures var status := old(Value()).rejection.value;
        (Value(), r) == Answer(old(Value()).(rejection := None), OkOutput(id, false, status), Rejected(status))
    {
      hide Tables.Coherent, Tables.Queue, ReadStatus;
      var status := nextPublishRejection.value;
      nextPublishRejection := None;
      var index :- EnqueueOutputRecordIndex(OkRecord(id, false, status));
      var shown := OutputOkStatus(index);
      return Ok(Rejected(shown.value));
    }

    // ---- subscriptions ----

    method RememberSubscription(id: string, filters: seq<Filter>) returns (r: Result<(), NostrError>)
      requires Valid()
      modifies this`activeSubscriptions, subscriptions
      ensures Valid() && (Value(), r) == Remember(old(Value()), id, filters)
    {
      hide Tables.Coherent, Tables.Queue, ReadStatus, UniqueSubs, SubsOf, CountSome;
      var _ :- ValidateSubscriptionId(id);
      ghost var subs := subscriptions[..];
      SubsKeys(subs, id);
      SubsCount(subs);
      for index := 0 to subscriptions.Length
        invariant subscriptions[..] == subs
        invariant forall i: nat | i < index :: !HoldsSub(subs, i, id)
      {
        if subscriptions[index].Some? && subscriptions[index].value.id == id {
          assert HoldsSub(subs, index, id);
          SubWritten(subs, index, Subscription(id, filters));
          CountUpdate(subs, index, Some(Subscription(id, filters)));
          subscriptions[index] := Some(Subscription(id, filters));
          assert subscriptions[..] == subs[index := Some(Subscription(id, filters))];
          return Ok(());
        }
      }
      var free := FirstFree(subscriptions);
      CountFull(subs);
      if free.None? {
        return Err(RelaySubscriptionFull(subscriptions.Length));
      }
      var slot: nat := free.value;
      SubWritten(subs, slot, Subscription(id, filters));
      CountUpdate(subs, slot, Some(Subscription(id, filters)));
      subscriptions[slot] := Some(Subscription(id, filters));
      activeSubscriptions := activeSubscriptions + 1;
      assert subscriptions[..] == subs[slot := Some(Subscription(id, filters))];
      return Ok(());
    }

    method CloseSubscription(id: string) returns (r: Result<bool, NostrError>)
      requires Valid()
      modifies this`activeSubscriptions, subscriptions
      ensures Valid() && (Value(), r) == Relay.CloseSubscription(old(Value()), id)
    {
      hide Tables.Coherent, Tables.Queue, ReadStatus, UniqueSubs, SubsOf, CountSome;
      var _ :- ValidateSubscriptionId(id);
      ghost var subs := subscriptions[..];
      SubsKeys(subs, id);
      for index := 0 to subscriptions.Length
        invariant subscriptions[..] == subs
        invariant forall i: nat | i < index :: !HoldsSub(subs, i, id)
      {
        if subscriptions[index].Some? && subscriptions[index].value.id == id {
          assert HoldsSub(subs, index, id);
          SubRemoved(subs, index, id);
          CountUpdate(subs, index, None);
          subscriptions[index] := None;
          activeSubscriptions := activeSubscriptions - 1;
          assert subscriptions[..] == subs[index := None];
          return Ok(true);
        }
      }
      assert SubsOf(subs) - {id} == SubsOf(subs);
      return Ok(false);
    }

    method Subscribe(id: string, filters: seq<Filter>) returns (r: Result<(), NostrError>)
      requires Valid()
      modifies this`activeSubscriptions, this`queuedOutputs, this`outputOverflows, subscriptions, outputs
      ensures Valid() && (Value(), r) == Relay.Subscribe(old(Value()), id, filters)
    {
      hide Tables.Coherent, Tables.Queue, ReadStatus, UniqueSubs, SubsOf, CountSome, ReplayOutputs, EnqueueAll;
      var _ :- RememberSubscription(id, filters);
      r := ReplaySubscription(id, filters);
    }

    // ---- replay ----

    static function SortsBefore(a: Stored, b: Stored): bool {
      a.createdAt > b.createdAt || (a.createdAt == b.createdAt && LexLess(a.id, b.id))
    }

    static method ReplayLimitOf(filters: seq<Filter>) returns (limit: Option<nat>)
      ensures limit == ReplayLimit(filters)
    {
      limit := Some(0);
      for index := 0 to |filters|
        invariant limit.Some? && limit == ReplayLimit(filters[..index])
      {
        assert filters[..index + 1][..index] == filters[..index];
        if filters[index].limit.None? {
          NoLimit(filters, index);
          return None;
        }
        limit := Some(SaturatingAdd(limit.value, filters[index].limit.value));
      }
      assert filters[..|filters|] == filters;
    }

    static lemma {:induction false} NoLimit(filters: seq<Filter>, index: nat)
      requires index < |filters| && filters[index].limit.None?
      ensures ReplayLimit(filters).None?
    {
      if index < |filters| - 1 {
        NoLimit(filters[..|filters| - 1], index);
      }
    }

    method EventMatches(s: Stored, ghost e: Event, filters: seq<Filter>) returns (r: Result<bool, NostrError>)
      requires FromEvent(e) == Ok(s)
      ensures r == Ok(Matches(filters, e))
    {
      hide MatchesAny, CollectPTags, StoreEach;
      var pTags := new Bytes32[MAX_TAGS](_ => seq(32, _ => 0));
      ScanFindsAllRecipients(e.tags, MAX_TAGS);
      var count := ScanPTags(s, pTags);
      return Ok(MatchesAny(filters, s.kind, s.pubkey, pTags[..count.value], s.createdAt));
    }

    /** The best event not yet emitted: every other candidate comes after it. */
    static ghost predicate IsBest(es: seq<Event>, filters: seq<Filter>, emitted: seq<bool>, upTo: nat, best: Option<nat>)
      requires upTo <= |es| <= |emitted|
    {
      && (best.Some? ==> best.value < upTo && !emitted[best.value] && Matches(filters, es[best.value]))
      && forall i | 0 <= i < upTo && !emitted[i] && Matches(filters, es[i]) ::
        best.Some? && (i == best.value || Before(es[best.value], es[i]))
    }

    lemma BestAdvances(es: seq<Event>, filters: seq<Filter>, emitted: seq<bool>, index: nat, best: Option<nat>)
      requires index < |es| <= |emitted| && UniqueIds(es) && IsBest(es, filters, emitted, index, best)
      ensures !emitted[index] && Matches(filters, es[index]) && (best.None? || Before(es[index], es[best.value])) ==>
        IsBest(es, filters, emitted, index + 1, Some(index))
      ensures emitted[index] || !Matches(filters, es[index]) || (best.Some? && !Before(es[index], es[best.value])) ==>
        IsBest(es, filters, emitted, index + 1, best)
    {
      hide Before, Matches;
      if best.Some? {
        BeforeIsOrder(es[index], es[best.value], es[index]);
        BeforeIsOrder(es[best.value], es[index], es[index]);
        forall i | 0 <= i < index ensures Before(es[index], es[best.value]) && Before(es[best.value], es[i]) ==> Before(es[index], es[i]) {
          BeforeIsOrder(es[index], es[best.value], es[i]);
        }
      }
    }

    method NextReplayEvent(filters: seq<Filter>, emitted: array<bool>) returns (r: Result<Option<nat>, NostrError>)
      requires Valid() && emitted.Length == events.Length
      ensures r.Ok? && |Value().events| <= emitted.Length
      ensures IsBest(Value().events, filters, emitted[..], |Value().events|, r.value)
      ensures r.value.Some? ==> r.value.value < |Value().events|
    {
      hide ViewRecord, SlotsOwned, SlotsExclusive, AllViewable, WithEvent, FromEvent, ReadStatus, Tables.Queue, UniqueIds,
        AllReadable, Matches, Before, IsBest, SubsOf;
      var best: Option<nat> := None;
      ghost var es := Value().events;
      assert IsBest(es, filters, emitted[..], 0, None) by { NothingYet(es, filters, emitted[..]); }
      for index := 0 to events.Length
        invariant best.Some? ==> best.value < storedEvents
        invariant IsBest(es, filters, emitted[..], if index < storedEvents then index else storedEvents, best)
      {
        assert events[..][index] == events[index];
        if index < storedEvents {
          StoredId(index);
          BestAdvances(es, filters, emitted[..], index, best);
        }
        if emitted[index] || events[index].None? {
          continue;
        }
        var event := events[index].value;
        var matches := EventMatches(event, es[index], filters);
        if !matches.value {
          continue;
        }
        if best.Some? {
          StoredId(best.value);
          assert SortsBefore(event, events[best.value].value) == Before(es[index], es[best.value]) by { SortsAsBefore(event, es[index], events[best.value].value, es[best.value]); }
          if SortsBefore(event, events[best.value].value) {
            best := Some(index);
          }
        } else {
          best := Some(index);
        }
      }
      return Ok(best);
    }

    static lemma SortsAsBefore(a: Stored, ea: Event, b: Stored, eb: Event)
      requires a.id == ea.id && a.createdAt == ea.createdAt && b.id == eb.id && b.createdAt == eb.createdAt
      ensures SortsBefore(a, b) == Before(ea, eb)
    {
    }

    lemma NothingYet(es: seq<Event>, filters: seq<Filter>, emitted: seq<bool>)
      requires |es| <= |emitted|
      ensures IsBest(es, filters, emitted, 0, None)
    {
    }

    /** The events emitted are the first `count` of the ranking. */
    static ghost predicate Marked(emitted: seq<bool>, es: seq<Event>, ranked: seq<Event>, count: nat) {
      && |es| <= |emitted| && count <= |ranked|
      && forall i | 0 <= i < |es| :: emitted[i] <==> es[i] in ranked[..count]
    }

    /** Picking the best of the rest follows the ranking. */
    static lemma BestIsNextRanked(es: seq<Event>, filters: seq<Filter>, emitted: seq<bool>, best: Option<nat>, count: nat)
      requires UniqueIds(es) && |es| <= |emitted|
      requires Marked(emitted, es, Ranked(filters, es), count) && IsBest(es, filters, emitted, |es|, best)
      ensures count < |Ranked(filters, es)| ==> best.Some? && es[best.value] == Ranked(filters, es)[count]
      ensures count == |Ranked(filters, es)| ==> best.None?
    {
      hide Ranked, Matches, Before, NewestFirst;
      var ranked := Ranked(filters, es);
      RankedIsTheSelection(filters, es);
      if best.Some? {
        var b := es[best.value];
        assert b in ranked && b !in ranked[..count];
        var j :| 0 <= j < |ranked| && ranked[j] == b;
        if count < j {
          var x := ranked[count];
          assert Before(x, b);
          OnlyOneBefore(x, b);
          assert x in ranked && x in es;
          var k :| 0 <= k < |es| && es[k] == x;
          NotYetEmitted(ranked, count);
          assert false;
        }
      }
      if count < |ranked| && best.None? {
        var x := ranked[count];
        assert x in ranked && x in es;
        var k :| 0 <= k < |es| && es[k] == x;
        NotYetEmitted(ranked, count);
        assert false;
      }
    }

    static lemma OnlyOneBefore(a: Event, b: Event)
      requires Before(a, b)
      ensures !Before(b, a) && a != b
    {
      BeforeIsOrder(a, b, a);
    }

    static lemma NotYetEmitted(ranked: seq<Event>, count: nat)
      requires Ascending(ranked) && count < |ranked|
      ensures ranked[count] !in ranked[..count]
    {
      hide Before;
      forall j | 0 <= j < count ensures ranked[j] != ranked[count] {
        OnlyOneBefore(ranked[j], ranked[count]);
      }
    }

    static lemma MarkNext(emitted: seq<bool>, es: seq<Event>, ranked: seq<Event>, count: nat, index: nat)
      requires UniqueIds(es) && Marked(emitted, es, ranked, count) && count < |ranked| && index < |es| && es[index] == ranked[count]
      ensures Marked(emitted[index := true], es, ranked, count + 1)
    {
      assert ranked[..count + 1] == ranked[..count] + [ranked[count]];
    }

    static lemma ReplayStopped(st: State, id: string, filters: seq<Filter>, count: nat)
      requires count <= |Limited(ReplayLimit(filters), Ranked(filters, st.events))| && |st.queue| + count == st.outCap
      ensures EnqueueAll(st, ReplayOutputs(st.events, id, filters)) ==
        (st.(queue := st.queue + EventOutputs(id, Ranked(filters, st.events)[..count]), overflows := st.overflows + 1),
         Err(RelayOutputFull(st.outCap)))
    {
      hide Ranked, ReplayLimit, EnqueueAll;
      var outs := ReplayOutputs(st.events, id, filters);
      EnqueueAllFills(st, outs);
      assert (st.queue + outs)[..st.outCap] == st.queue + outs[..count];
      assert outs[..count] == EventOutputs(id, Ranked(filters, st.events)[..count]);
    }

    static lemma ReplayFinished(st: State, id: string, filters: seq<Filter>)
      requires |st.queue| + |Limited(ReplayLimit(filters), Ranked(filters, st.events))| < st.outCap
      ensures var take := Limited(ReplayLimit(filters), Ranked(filters, st.events));
        EnqueueAll(st, ReplayOutputs(st.events, id, filters)) ==
          (st.(queue := st.queue + EventOutputs(id, take) + [EoseOutput(id)]), Ok(()))
    {
      hide Ranked, ReplayLimit, EnqueueAll;
      var outs := ReplayOutputs(st.events, id, filters);
      EnqueueAllFills(st, outs);
      assert st.queue + outs == st.queue + EventOutputs(id, Limited(ReplayLimit(filters), Ranked(filters, st.events))) + [EoseOutput(id)];
    }

    lemma StoredRecordViews(id: string, index: nat)
      requires Prefix(events[..], storedEvents) && AllReadable(events[..], storedEvents) && index < storedEvents
      ensures ViewRecord(StoredEventRecord(id, index), events[..], outputEvents[..])
           == Ok(EventOutput(id, EventsOf(events[..], storedEvents)[index]))
    {
      hide WithEvent, FromEvent;
      StoredId(index);
      assert events[..][index] == events[index];
    }

    method EmitStored(id: string, index: nat) returns (r: Result<(), NostrError>)
      requires Valid() && index < |Value().events|
      modifies this`queuedOutputs, this`outputOverflows, outputs
      ensures Valid() && (Value(), r) == Enqueue(old(Value()), EventOutput(id, old(Value()).events[index]))
    {
      hide ViewRecord, SlotsOwned, SlotsExclusive, AllViewable, Tables.Queue, AllReadable, UniqueIds, ReadStatus;
      StoredRecordViews(id, index);
      r := EnqueueOutputRecord(StoredEventRecord(id, index));
    }

    lemma WithinCapacity()
      requires Valid()
      ensures |Value().queue| <= outputs.Length == Value().outCap && |Value().events| <= events.Length == Value().eventCap
      ensures UniqueIds(Value().events)
    {
    }

    static lemma OneMoreOutput(queue: seq<Output>, id: string, ranked: seq<Event>, count: nat)
      requires count < |ranked|
      ensures queue + EventOutputs(id, ranked[..count]) + [EventOutput(id, ranked[count])]
           == queue + EventOutputs(id, ranked[..count + 1])
    {
      assert EventOutputs(id, ranked[..count + 1]) == EventOutputs(id, ranked[..count]) + [EventOutput(id, ranked[count])];
    }

    /** The next event of the ranking is queued, or the whole replay stops at a full queue. */
    method EmitRanked(id: string, filters: seq<Filter>, index: nat, ghost start: State, ghost count: nat)
      returns (r: Result<(), NostrError>)
      requires Valid() && index < |start.events| && count < |Limited(ReplayLimit(filters), Ranked(filters, start.events))|
      requires count < |Ranked(filters, start.events)| && Ranked(filters, start.events)[count] == start.events[index]
      requires Value() == start.(queue := start.queue + EventOutputs(id, Ranked(filters, start.events)[..count]))
      modifies this`queuedOutputs, this`outputOverflows, outputs
      ensures Valid()
      ensures r.Ok? ==> Value() == start.(queue := start.queue + EventOutputs(id, Ranked(filters, start.events)[..count + 1]))
      ensures r.Err? ==> (Value(), r) == EnqueueAll(start, ReplayOutputs(start.events, id, filters))
    {
      hide FakeNostrRelay.Value, FakeNostrRelay.Valid, Ranked, EnqueueAll, ReplayOutputs, ReplayLimit, EventOutputs;
      OneMoreOutput(start.queue, id, Ranked(filters, start.events), count);
      WithinCapacity();
      r := EmitStored(id, index);
      if r.Err? {
        ReplayStopped(start, id, filters, count);
      }
    }

    method ReplaySubscription(id: string, filters: seq<Filter>) returns (r: Result<(), NostrError>)
      requires Valid() && ValidateSubscriptionId(id) == Ok(())
      modifies this`queuedOutputs, this`outputOverflows, outputs
      ensures Valid()
      ensures (Value(), r) == EnqueueAll(old(Value()), ReplayOutputs(old(Value()).events, id, filters))
    {
      hide FakeNostrRelay.Value, FakeNostrRelay.Valid, Ranked, Marked, IsBest, EnqueueAll, ReplayOutputs, ReplayLimit,
        EventOutputs, Matches, UniqueIds;
      WithinCapacity();
      ghost var start := Value();
      ghost var es := start.events;
      ghost var ranked := Ranked(filters, es);
      var limit := ReplayLimitOf(filters);
      ghost var take := Limited(limit, ranked);
      var emitted := new bool[events.Length](_ => false);
      var count := 0;
      NothingMarked(emitted[..], es, ranked);
      assert EventOutputs(id, ranked[..0]) == [] && start.queue + [] == start.queue;
      while limit.None? || count < limit.value
        invariant Valid() && count <= |take|
        invariant Value() == start.(queue := start.queue + EventOutputs(id, ranked[..count]))
        invariant Marked(emitted[..], es, ranked, count)
        decreases |ranked| - count
      {
        var best := NextReplayEvent(filters, emitted);
        BestIsNextRanked(es, filters, emitted[..], best.value, count);
        if best.value.None? {
          break;
        }
        var index := best.value.value;
        r := EmitRanked(id, filters, index, start, count);
        if r.Err? {
          return;
        }
        MarkNext(emitted[..], es, ranked, count, index);
        emitted[index] := true;
        count := count + 1;
      }
      assert ranked[..count] == take;
      r := FinishReplay(id, filters, start);
    }

    /** The mark that ends a replay whose events have all been queued. */
    method FinishReplay(id: string, filters: seq<Filter>, ghost start: State) returns (r: Result<(), NostrError>)
      requires Valid() && ValidateSubscriptionId(id) == Ok(())
      requires Value() == start.(queue := start.queue + EventOutputs(id, Limited(ReplayLimit(filters), Ranked(filters, start.events))))
      modifies this`queuedOutputs, this`outputOverflows, outputs
      ensures Valid()
      ensures (Value(), r) == EnqueueAll(start, ReplayOutputs(start.events, id, filters))
    {
      hide FakeNostrRelay.Value, FakeNostrRelay.Valid, Ranked, EnqueueAll, ReplayOutputs, ReplayLimit, EventOutputs;
      ghost var take := Limited(ReplayLimit(filters), Ranked(filters, start.events));
      WithinCapacity();
      if |start.queue| + |take| < start.outCap {
        ReplayFinished(start, id, filters);
      } else {
        assert take == Ranked(filters, start.events)[..|take|];
        ReplayStopped(start, id, filters, |take|);
      }
      r := InjectEose(id);
    }

    lemma NothingMarked(emitted: seq<bool>, es: seq<Event>, ranked: seq<Event>)
      requires |es| <= |emitted| && forall i | 0 <= i < |emitted| :: !emitted[i]
      ensures Marked(emitted, es, ranked, 0)
    {
    }
  }
}
