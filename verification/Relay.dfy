/** The bounded relay on values: stored events, subscriptions and the output queue, with
    every operation as a function of the state. */
module Relay {
  import opened Base
  import opened NostrTypes
  import opened Signing
  import opened Stored
  import Utf8

  datatype StatusPrefix =
    Duplicate | Pow | Blocked | RateLimited | Invalid | Restricted | Mute | Error | AuthRequired | UnknownPrefix

  datatype Status = Status(prefix: StatusPrefix, rawPrefix: string, detail: string)

  const EMPTY_STATUS := Status(UnknownPrefix, "", "")
  const DUPLICATE_STATUS := Status(Duplicate, "duplicate", "already stored")
  const INVALID_STATUS := Status(Invalid, "invalid", "invalid event")

  /** What the head of the queue looks like to its reader. */
  datatype Output =
    | OkOutput(eventId: Bytes32, accepted: bool, status: Status)
    | EventOutput(subscriptionId: string, event: Event)
    | EoseOutput(subscriptionId: string)
    | ClosedOutput(subscriptionId: string, status: Status)
    | NoticeOutput(message: string)
    | AuthOutput(challenge: string)

  datatype Outcome = Accepted(message: string) | AcceptedDuplicate(status: Status) | Rejected(status: Status)

  datatype State = State(
    eventCap: nat, subCap: nat, outCap: nat,
    events: seq<Event>, subs: map<string, seq<Filter>>, queue: seq<Output>,
    rejection: Option<Status>, overflows: nat)

  function NewState(eventCap: nat, subCap: nat, outCap: nat): State {
    State(eventCap, subCap, outCap, [], map[], [], None, 0)
  }

  // ---- the queue ----

  function Enqueue(st: State, out: Output): (State, Result<(), NostrError>) {
    if |st.queue| >= st.outCap then (st.(overflows := st.overflows + 1), Err(RelayOutputFull(st.outCap)))
    else (st.(queue := st.queue + [out]), Ok(()))
  }

  /** Outputs go in until one finds the queue full. */
  function EnqueueAll(st: State, outs: seq<Output>): (State, Result<(), NostrError>)
    decreases |outs|
  {
    if outs == [] then (st, Ok(()))
    else
      var (next, r) := Enqueue(st, outs[0]);
      if r.Err? then (next, r) else EnqueueAll(next, outs[1..])
  }

  function Consume(st: State): (State, bool) {
    if st.queue == [] then (st, false) else (st.(queue := st.queue[1..]), true)
  }

  // ---- control outputs and their stored text ----

  function CheckText(max: nat, text: string): Result<(), NostrError> {
    var _ :- StoreString(max, text);
    Ok(())
  }

  function CheckStatus(status: Status): Result<(), NostrError> {
    var _ :- CheckText(MAX_RELAY_STATUS_CHARS, status.rawPrefix);
    CheckText(MAX_RELAY_STATUS_CHARS, status.detail)
  }

  lemma FixedStatusesPass()
    ensures CheckStatus(INVALID_STATUS) == Ok(()) && CheckStatus(DUPLICATE_STATUS) == Ok(()) && CheckStatus(EMPTY_STATUS) == Ok(())
  {
    hide CheckStatus;
    AsciiStatusPasses(INVALID_STATUS);
    AsciiStatusPasses(DUPLICATE_STATUS);
    AsciiStatusPasses(EMPTY_STATUS);
  }

  lemma AsciiStatusPasses(status: Status)
    requires Utf8.Ascii(status.rawPrefix) && Utf8.Ascii(status.detail)
    requires |status.rawPrefix| <= MAX_RELAY_STATUS_CHARS && |status.detail| <= MAX_RELAY_STATUS_CHARS
    ensures CheckStatus(status) == Ok(())
  {
    hide Utf8.Encode;
    Utf8.EncodeAscii(status.rawPrefix);
    Utf8.EncodeAscii(status.detail);
  }

  /** The checks an output passes before it is queued. */
  function CheckOutput(out: Output): Result<(), NostrError> {
    match out
    case OkOutput(_, _, status) => CheckStatus(status)
    case EventOutput(_, event) =>
      var _ :- FromEvent(event);
      Ok(())
    case EoseOutput(id) => ValidateSubscriptionId(id)
    case ClosedOutput(id, status) =>
      var _ :- ValidateSubscriptionId(id);
      CheckStatus(status)
    case NoticeOutput(message) => CheckText(MAX_RELAY_STATUS_CHARS, message)
    case AuthOutput(challenge) => CheckText(MAX_RELAY_STATUS_CHARS, challenge)
  }

  function EnqueueOutput(st: State, out: Output): (State, Result<(), NostrError>) {
    var check := CheckOutput(out);
    if check.Err? then (st, check) else Enqueue(st, out)
  }

  function RejectNext(st: State, status: Status): (State, Result<(), NostrError>) {
    var check := CheckStatus(status);
    if check.Err? then (st, check) else (st.(rejection := Some(status)), check)
  }

  // ---- publishing ----

  predicate Contains(events: seq<Event>, id: Bytes32) {
    exists i | 0 <= i < |events| :: events[i].id == id
  }

  function StoreNew(st: State, e: Event): (State, Result<(), NostrError>) {
    var stored := FromEvent(e);
    if stored.Err? then (st, Err(stored.error))
    else if |st.events| >= st.eventCap then (st, Err(RelayEventStoreFull(st.eventCap)))
    else (st.(events := st.events + [e]), Ok(()))
  }

  function Answer(st: State, out: Output, outcome: Outcome): (State, Result<Outcome, NostrError>) {
    var (next, r) := Enqueue(st, out);
    (next, if r.Err? then Err(r.error) else Ok(outcome))
  }

  /** An event is invalid, a duplicate, due for rejection, or stored, in this order; the
      answer goes through the queue, and its failure takes nothing back. */
  function Publish(st: State, c: Crypto, e: Event, available: nat, profile: PublishProfile)
    : (State, Result<Outcome, NostrError>)
  {
    if ValidateProfile(c, e, available, profile).Err? then
      Answer(st, OkOutput(e.id, false, INVALID_STATUS), Rejected(INVALID_STATUS))
    else if Contains(st.events, e.id) then
      Answer(st, OkOutput(e.id, true, DUPLICATE_STATUS), AcceptedDuplicate(DUPLICATE_STATUS))
    else if st.rejection.Some? then
      var status := st.rejection.value;
      Answer(st.(rejection := None), OkOutput(e.id, false, status), Rejected(status))
    else
      var (kept, r) := StoreNew(st, e);
      if r.Err? then (kept, Err(r.error)) else Answer(kept, OkOutput(e.id, true, EMPTY_STATUS), Accepted(""))
  }

  // ---- subscriptions and replay ----

  predicate MatchesTarget(f: Filter, kind: U16, author: Bytes32, pTags: seq<Bytes32>, createdAt: U64) {
    && (f.kinds == [] || kind in f.kinds)
    && (f.authors == [] || author in f.authors)
    && (f.pTags == [] || exists k | k in f.pTags :: k in pTags)
    && (f.since.Some? ==> createdAt >= f.since.value)
    && (f.until.Some? ==> createdAt <= f.until.value)
  }

  predicate MatchesAny(filters: seq<Filter>, kind: U16, author: Bytes32, pTags: seq<Bytes32>, createdAt: U64) {
    exists i | 0 <= i < |filters| :: MatchesTarget(filters[i], kind, author, pTags, createdAt)
  }

  predicate Matches(filters: seq<Filter>, e: Event) {
    MatchesAny(filters, e.kind, e.pubkey, Recipients(e.tags), e.createdAt)
  }

  /** Bytes compared as numbers are, left to right. */
  predicate LexLess(a: Bytes, b: Bytes) {
    if a == [] then b != []
    else if b == [] then false
    else if a[0] != b[0] then a[0] < b[0]
    else LexLess(a[1..], b[1..])
  }

  /** Newest first, then by smallest id. */
  predicate Before(a: Event, b: Event) {
    a.createdAt > b.createdAt || (a.createdAt == b.createdAt && LexLess(a.id, b.id))
  }

  function Matching(filters: seq<Filter>, events: seq<Event>): seq<Event> {
    if events == [] then []
    else (if Matches(filters, events[0]) then [events[0]] else []) + Matching(filters, events[1..])
  }

  function Insert(e: Event, sorted: seq<Event>): seq<Event> {
    if sorted == [] || Before(e, sorted[0]) then [e] + sorted else [sorted[0]] + Insert(e, sorted[1..])
  }

  function Sort(events: seq<Event>): seq<Event> {
    if events == [] then [] else Insert(events[0], Sort(events[1..]))
  }

  function Ranked(filters: seq<Filter>, events: seq<Event>): seq<Event> {
    Sort(Matching(filters, events))
  }

  function SaturatingAdd(a: nat, b: nat): nat {
    if a + b > USIZE_MAX then USIZE_MAX else a + b
  }

  /** The sum of all limits; no limit at all once one filter has none. */
  function ReplayLimit(filters: seq<Filter>): Option<nat> {
    if filters == [] then Some(0)
    else
      var last := |filters| - 1;
      var rest := ReplayLimit(filters[..last]);
      if rest.None? || filters[last].limit.None? then None
      else Some(SaturatingAdd(rest.value, filters[last].limit.value))
  }

  function Limited(limit: Option<nat>, events: seq<Event>): seq<Event> {
    if limit.Some? && limit.value < |events| then events[..limit.value] else events
  }

  function EventOutputs(id: string, events: seq<Event>): (outs: seq<Output>)
    ensures |outs| == |events|
  {
    seq(|events|, i requires 0 <= i < |events| => EventOutput(id, events[i]))
  }

  /** What a subscription asks to be queued. */
  function ReplayOutputs(events: seq<Event>, id: string, filters: seq<Filter>): seq<Output> {
    EventOutputs(id, Limited(ReplayLimit(filters), Ranked(filters, events))) + [EoseOutput(id)]
  }

  function Remember(st: State, id: string, filters: seq<Filter>): (State, Result<(), NostrError>) {
    var check := ValidateSubscriptionId(id);
    if check.Err? then (st, check)
    else if id !in st.subs && |st.subs| >= st.subCap then (st, Err(RelaySubscriptionFull(st.subCap)))
    else (st.(subs := st.subs[id := filters]), Ok(()))
  }

  function Subscribe(st: State, id: string, filters: seq<Filter>): (State, Result<(), NostrError>) {
    var (next, r) := Remember(st, id, filters);
    if r.Err? then (next, r) else EnqueueAll(next, ReplayOutputs(next.events, id, filters))
  }

  function CloseSubscription(st: State, id: string): (State, Result<bool, NostrError>) {
    var check := ValidateSubscriptionId(id);
    if check.Err? then (st, Err(check.error))
    else (st.(subs := st.subs - {id}), Ok(id in st.subs))
  }

  // ---- the replay order ----

  lemma {:induction false} LexTotal(a: Bytes, b: Bytes)
    ensures LexLess(a, b) || LexLess(b, a) || a == b
    ensures !(LexLess(a, b) && LexLess(b, a)) && !LexLess(a, a)
  {
    if a != [] && b != [] && a[0] == b[0] {
      LexTotal(a[1..], b[1..]);
      assert a == [a[0]] + a[1..] && b == [b[0]] + b[1..];
    }
    if a != [] {
      LexTotal(a[1..], a[1..]);
    }
  }

  lemma {:induction false} LexTransitive(a: Bytes, b: Bytes, c: Bytes)
    requires LexLess(a, b) && LexLess(b, c)
    ensures LexLess(a, c)
  {
    if a != [] && b != [] && c != [] && a[0] == b[0] == c[0] {
      LexTransitive(a[1..], b[1..], c[1..]);
    }
  }

  /** On events with different ids the order is strict and total. */
  lemma BeforeIsOrder(a: Event, b: Event, c: Event)
    ensures Before(a, b) || Before(b, a) || a.id == b.id
    ensures !(Before(a, b) && Before(b, a)) && !Before(a, a)
    ensures Before(a, b) && Before(b, c) ==> Before(a, c)
  {
    LexTotal(a.id, b.id);
    LexTotal(a.id, a.id);
    if LexLess(a.id, b.id) && LexLess(b.id, c.id) {
      LexTransitive(a.id, b.id, c.id);
    }
  }

  /** The byte order on keys of one length is the order of the numbers they spell. */
  lemma {:induction false} LexIsNumeric(a: Bytes, b: Bytes)
    requires |a| == |b|
    ensures LexLess(a, b) <==> FromBigEndian(a) < FromBigEndian(b)
  {
    if a != [] {
      hide FromBigEndian, Pow256;
      LexIsNumeric(a[1..], b[1..]);
      FromBigEndianHead(a);
      FromBigEndianHead(b);
      BigEndianOfFrom(a[1..]);
      BigEndianOfFrom(b[1..]);
      LeadingDecides(a[0], b[0], Pow256(|a| - 1), FromBigEndian(a[1..]), FromBigEndian(b[1..]));
    }
  }

  lemma LeadingDecides(x: int, y: int, width: nat, p: nat, q: nat)
    requires p < width && q < width
    ensures x * width + p < y * width + q <==> x < y || (x == y && p < q)
  {
    if x < y {
      assert (x + 1) * width <= y * width;
    } else if y < x {
      assert (y + 1) * width <= x * width;
    }
  }

  /** Newer events first, and among events of one second the smaller id first. */
  ghost predicate NewestFirst(s: seq<Event>) {
    forall i, j | 0 <= i < j < |s| ::
      && s[i].createdAt >= s[j].createdAt
      && (s[i].createdAt == s[j].createdAt ==> FromBigEndian(s[i].id) < FromBigEndian(s[j].id))
  }

  lemma AscendingMeans(s: seq<Event>)
    ensures Ascending(s) <==> NewestFirst(s)
  {
    forall i, j | 0 <= i < j < |s|
      ensures Before(s[i], s[j]) <==>
        s[i].createdAt >= s[j].createdAt
        && (s[i].createdAt == s[j].createdAt ==> FromBigEndian(s[i].id) < FromBigEndian(s[j].id))
    {
      LexIsNumeric(s[i].id, s[j].id);
    }
  }

  ghost predicate Ascending(s: seq<Event>) {
    forall i, j | 0 <= i < j < |s| :: Before(s[i], s[j])
  }

  ghost predicate UniqueIds(events: seq<Event>) {
    forall i, j | 0 <= i < j < |events| :: events[i].id != events[j].id
  }

  ghost predicate NoId(events: seq<Event>, id: Bytes32) {
    forall i | 0 <= i < |events| :: events[i].id != id
  }

  lemma {:induction false} InsertAdds(e: Event, sorted: seq<Event>)
    ensures multiset(Insert(e, sorted)) == multiset(sorted) + multiset{e}
    ensures forall x :: x in Insert(e, sorted) <==> x == e || x in sorted
  {
    hide Before;
    if sorted != [] {
      assert sorted == [sorted[0]] + sorted[1..];
      InsertAdds(e, sorted[1..]);
    }
  }

  ghost predicate AllAfter(e: Event, s: seq<Event>) {
    forall x | x in s :: Before(e, x)
  }

  lemma AscendingCons(first: Event, tail: seq<Event>)
    ensures Ascending([first] + tail) <==> AllAfter(first, tail) && Ascending(tail)
  {
    hide Before;
    var all := [first] + tail;
    assert forall j | 0 <= j < |tail| :: all[j + 1] == tail[j];
    if Ascending(all) {
      forall x | x in tail ensures Before(first, x) {
        var j :| 0 <= j < |tail| && tail[j] == x;
        assert all[j + 1] == x && Before(all[0], all[j + 1]);
      }
      forall i, j | 0 <= i < j < |tail| ensures Before(tail[i], tail[j]) {
        assert Before(all[i + 1], all[j + 1]);
      }
    }
  }

  lemma {:induction false} InsertKeepsOrder(e: Event, sorted: seq<Event>)
    requires Ascending(sorted) && NoId(sorted, e.id)
    ensures Ascending(Insert(e, sorted))
  {
    hide Before, Ascending;
    if sorted == [] {
      AscendingCons(e, []);
      assert [e] + [] == [e];
    } else {
      var first, tail := sorted[0], sorted[1..];
      assert sorted == [first] + tail;
      AscendingCons(first, tail);
      BeforeIsOrder(e, first, e);
      if Before(e, first) {
        forall x | x in sorted ensures Before(e, x) {
          BeforeIsOrder(e, first, x);
        }
        AscendingCons(e, sorted);
      } else {
        assert NoId(tail, e.id) by {
          assert forall j | 0 <= j < |tail| :: tail[j] == sorted[j + 1];
        }
        InsertKeepsOrder(e, tail);
        InsertAdds(e, tail);
        AscendingCons(first, Insert(e, tail));
      }
    }
  }

  lemma {:induction false} SortKeeps(events: seq<Event>)
    ensures multiset(Sort(events)) == multiset(events)
    ensures forall x :: x in Sort(events) <==> x in events
  {
    hide Insert;
    if events != [] {
      SortKeeps(events[1..]);
      InsertAdds(events[0], Sort(events[1..]));
      assert events == [events[0]] + events[1..];
    }
  }

  lemma NoIdAmong(events: seq<Event>, others: seq<Event>, id: Bytes32)
    requires NoId(events, id) && forall x | x in others :: x in events
    ensures NoId(others, id)
  {
    forall i | 0 <= i < |others| ensures others[i].id != id {
      assert others[i] in others;
    }
  }

  lemma {:induction false} SortSorts(events: seq<Event>)
    requires UniqueIds(events)
    ensures Ascending(Sort(events))
  {
    hide Insert, Ascending;
    if events == [] {
      assert Ascending([]) by { AscendingNothing(); }
    } else {
      var tail := events[1..];
      assert UniqueIds(tail) && NoId(tail, events[0].id);
      SortSorts(tail);
      SortKeeps(tail);
      NoIdAmong(tail, Sort(tail), events[0].id);
      InsertKeepsOrder(events[0], Sort(tail));
    }
  }

  lemma AscendingNothing()
    ensures Ascending([])
  {
  }

  lemma {:induction false} MatchingSelects(filters: seq<Filter>, events: seq<Event>)
    ensures forall e :: e in Matching(filters, events) <==> e in events && Matches(filters, e)
    ensures UniqueIds(events) ==> UniqueIds(Matching(filters, events))
  {
    hide Matches;
    if events != [] {
      var rest := Matching(filters, events[1..]);
      MatchingSelects(filters, events[1..]);
      assert events == [events[0]] + events[1..];
      if UniqueIds(events) {
        forall i | 0 <= i < |rest| ensures rest[i].id != events[0].id {
          assert rest[i] in events[1..];
          var k :| 0 <= k < |events[1..]| && events[1..][k] == rest[i];
          assert events[k + 1] == rest[i];
        }
      }
    }
  }

  /** The ranking holds exactly the matching events, each once, newest first. */
  lemma RankedIsTheSelection(filters: seq<Filter>, events: seq<Event>)
    requires UniqueIds(events)
    ensures Ascending(Ranked(filters, events)) && NewestFirst(Ranked(filters, events))
    ensures multiset(Ranked(filters, events)) == multiset(Matching(filters, events))
    ensures forall e :: e in Ranked(filters, events) <==> e in events && Matches(filters, e)
  {
    hide Matching, Matches, Sort, Before, Ascending, NewestFirst;
    AscendingMeans(Ranked(filters, events));
    MatchingSelects(filters, events);
    SortSorts(Matching(filters, events));
    SortKeeps(Matching(filters, events));
    forall e ensures e in Ranked(filters, events) <==> e in events && Matches(filters, e) {
      assert e in Ranked(filters, events) <==> e in multiset(Ranked(filters, events));
      assert e in Matching(filters, events) <==> e in multiset(Matching(filters, events));
    }
  }

  // ---- a replay through the queue ----

  lemma {:induction false} EnqueueAllFills(st: State, outs: seq<Output>)
    requires |st.queue| <= st.outCap
    ensures var (next, r) := EnqueueAll(st, outs);
      && (r.Ok? <==> |st.queue| + |outs| <= st.outCap)
      && (r.Ok? ==> r == Ok(()) && next == st.(queue := st.queue + outs))
      && (r.Err? ==>
            && r == Err(RelayOutputFull(st.outCap))
            && next == st.(queue := (st.queue + outs)[..st.outCap], overflows := st.overflows + 1))
    decreases |outs|
  {
    if outs == [] {
      assert st.queue + outs == st.queue;
    } else if |st.queue| < st.outCap {
      EnqueueAllFills(st.(queue := st.queue + [outs[0]]), outs[1..]);
      assert st.queue + [outs[0]] + outs[1..] == st.queue + outs;
    } else {
      assert (st.queue + outs)[..st.outCap] == st.queue;
    }
  }

  lemma ReplayOutputsAre(events: seq<Event>, id: string, filters: seq<Filter>)
    ensures var ranked := Ranked(filters, events);
      ReplayOutputs(events, id, filters) == EventOutputs(id, ranked[..ReplayCount(filters, events)]) + [EoseOutput(id)]
  {
    hide Ranked, ReplayLimit;
    var ranked := Ranked(filters, events);
    assert ranked[..|ranked|] == ranked;
  }

  /** How many events a replay is due: all that match, or as many as the limits allow. */
  function ReplayCount(filters: seq<Filter>, events: seq<Event>): (k: nat)
    ensures k <= |Ranked(filters, events)|
  {
    var ranked := |Ranked(filters, events)|;
    var limit := ReplayLimit(filters);
    if limit.Some? && limit.value < ranked then limit.value else ranked
  }

  /** A subscription that succeeds appends the newest matching events, as many as the limits
      allow, and one end-of-stored-events mark; one that finds the queue full leaves the part
      that fitted, and the subscription. */
  lemma SubscribeReplays(st: State, id: string, filters: seq<Filter>)
    requires |st.queue| <= st.outCap && UniqueIds(st.events)
    ensures var (next, r) := Subscribe(st, id, filters);
      var ranked := Ranked(filters, st.events);
      var k := ReplayCount(filters, st.events);
      var outs := EventOutputs(id, ranked[..k]) + [EoseOutput(id)];
      && (r.Ok? ==>
            && next == st.(subs := st.subs[id := filters], queue := st.queue + outs)
            && NewestFirst(ranked) && (forall e :: e in ranked <==> e in st.events && Matches(filters, e)))
      && (r == Err(RelayOutputFull(st.outCap)) <==> Remember(st, id, filters).1.Ok? && |st.queue| + k + 1 > st.outCap)
      && (r == Err(RelayOutputFull(st.outCap)) ==>
            next == st.(subs := st.subs[id := filters], queue := (st.queue + outs)[..st.outCap], overflows := st.overflows + 1))
  {
    hide Ranked, Matches, Ascending, NewestFirst, EnqueueAll, ReplayCount, ReplayOutputs, EventOutputs, UniqueIds;
    RankedIsTheSelection(filters, st.events);
    ReplayOutputsAre(st.events, id, filters);
    var (kept, r) := Remember(st, id, filters);
    EnqueueAllFills(kept, ReplayOutputs(kept.events, id, filters));
  }
}
