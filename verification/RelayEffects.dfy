/** What callers of the relay can rely on, operation by operation, in terms of events, tags
    and limits rather than of the steps taken. */
module RelayEffects {
  import opened Base
  import opened NostrTypes
  import opened Signing
  import opened Stored
  import opened Relay
  import opened RelayRuns
  import Hex
  import Utf8

  ghost function Ids(events: seq<Event>): set<Bytes32> {
    set e | e in events :: e.id
  }

  lemma ContainsIsId(events: seq<Event>, id: Bytes32)
    ensures Contains(events, id) <==> id in Ids(events)
  {
    if Contains(events, id) {
      var i :| 0 <= i < |events| && events[i].id == id;
      assert events[i] in events;
    }
    if id in Ids(events) {
      var e :| e in events && e.id == id;
      var i :| 0 <= i < |events| && events[i] == e;
    }
  }

  // ---- publishing ----

  /** The answer a publish queues: its flag says whether the event is both valid and stored
      afterwards, and its status which of the four cases it was. */
  ghost predicate Answers(st: State, e: Event, valid: bool, next: State, outcome: Outcome, answer: Output) {
    && answer.OkOutput? && answer.eventId == e.id
    && (answer.accepted <==> valid && e.id in Ids(next.events))
    && (outcome.Rejected? <==> !answer.accepted)
    && (outcome.AcceptedDuplicate? <==> valid && e.id in Ids(st.events))
    && (!valid ==> answer.status == Status(Invalid, "invalid", "invalid event"))
    && (outcome.AcceptedDuplicate? ==> answer.status == Status(Duplicate, "duplicate", "already stored"))
    && (valid && outcome.Rejected? ==> Some(answer.status) == st.rejection)
    && (outcome.Accepted? ==> answer.status == Status(UnknownPrefix, "", "") && outcome.message == "")
    && (!outcome.Accepted? ==> outcome.status == answer.status)
  }

  /** Every publish that returns Ok queues exactly one answer, and every other says why it
      could not; a rejection that was set up is used up by the first valid new event. */
  lemma PublishAnswers(c: Crypto, st: State, e: Event, available: nat, profile: PublishProfile)
    requires |st.queue| <= st.outCap
    ensures var (next, r) := Publish(st, c, e, available, profile);
      var valid := ValidateProfile(c, e, available, profile).Ok?;
      && (r.Ok? ==> |next.queue| == |st.queue| + 1 && next.queue[..|st.queue|] == st.queue
                    && Answers(st, e, valid, next, r.value, next.queue[|st.queue|]))
      && (r.Err? ==> next.queue == st.queue
                     && (r.error == RelayOutputFull(st.outCap) <==> next.overflows == st.overflows + 1)
                     && (r.error == RelayOutputFull(st.outCap) ==> |st.queue| == st.outCap)
                     && (r.error != RelayOutputFull(st.outCap) ==>
                           valid && e.id !in Ids(st.events) && st.rejection.None? && (!Fits(e) || |st.events| >= st.eventCap)))
      && next.subs == st.subs
      && next.rejection == if valid && e.id !in Ids(st.events) then None else st.rejection
  {
    hide ValidateProfile, FromEvent, Contains, Ids;
    StoredRoundTrip(e);
    StorableOrNot(e);
    ContainsIsId(st.events, e.id);
    var kept := StoreNew(st, e).0;
    if kept.events == st.events + [e] {
      AddedId(st.events, e);
    }
  }

  lemma AddedId(events: seq<Event>, e: Event)
    ensures e.id in Ids(events + [e])
  {
    assert e in events + [e];
  }

  // ---- starting and consuming ----

  /** A new relay can hold what it was made for, and holds nothing. */
  lemma NewIsEmpty(eventCap: nat, subCap: nat, outCap: nat)
    ensures var st := NewState(eventCap, subCap, outCap);
      && st.eventCap == eventCap && st.subCap == subCap && st.outCap == outCap
      && st.events == [] && |st.subs| == 0 && st.queue == [] && st.rejection.None? && st.overflows == 0
  {
  }

  /** Consuming takes the oldest output and nothing else, and says whether there was one. */
  lemma ConsumeTakes(st: State)
    ensures var (next, took) := Consume(st);
      && (took <==> |st.queue| > 0) && (!took ==> next == st)
      && (took ==> st.queue == [st.queue[0]] + next.queue && next == st.(queue := next.queue))
  {
  }

  // ---- queueing ----

  ghost predicate ShortText(text: string) {
    |Utf8.Encode(text)| <= 256
  }

  ghost predicate GoodId(id: string) {
    1 <= |Utf8.Encode(id)| <= 64
  }

  /** An output all of whose texts are within the limits of what the relay stores. */
  ghost predicate Holdable(out: Output) {
    match out
    case OkOutput(_, _, status) => ShortText(status.rawPrefix) && ShortText(status.detail)
    case EventOutput(_, event) => Fits(event)
    case EoseOutput(id) => GoodId(id)
    case ClosedOutput(id, status) => GoodId(id) && ShortText(status.rawPrefix) && ShortText(status.detail)
    case NoticeOutput(message) => ShortText(message)
    case AuthOutput(challenge) => ShortText(challenge)
  }

  lemma HoldableIff(out: Output)
    ensures CheckOutput(out).Ok? <==> Holdable(out)
    ensures CheckOutput(out).Err? ==> !CheckOutput(out).error.RelayOutputFull?
  {
    hide Utf8.Encode, FromEvent, Fits;
    CheckedError(out);
    if out.EventOutput? {
      StoredRoundTrip(out.event);
    }
  }

  /** An output goes in at the end when it can be held and there is room; without room the
      overflow is counted, and an output that cannot be held changes nothing. */
  lemma EnqueueMeans(st: State, out: Output)
    requires |st.queue| <= st.outCap
    ensures var (next, r) := EnqueueOutput(st, out);
      && (r.Ok? <==> Holdable(out) && |st.queue| < st.outCap)
      && (r.Ok? ==> next == st.(queue := st.queue + [out]))
      && (r.Err? && Holdable(out) ==> r == Err(RelayOutputFull(st.outCap)) && next == st.(overflows := st.overflows + 1))
      && (!Holdable(out) ==> next == st)
  {
    hide CheckOutput, Holdable;
    HoldableIff(out);
  }

  /** A rejection that can be held is what the next valid new event will be answered with. */
  lemma RejectArms(st: State, status: Status)
    ensures var (next, r) := RejectNext(st, status);
      && (r.Ok? <==> ShortText(status.rawPrefix) && ShortText(status.detail))
      && next == if r.Ok? then st.(rejection := Some(status)) else st
  {
    hide Utf8.Encode;
  }

  // ---- closing ----

  /** After a close the id is unknown, every other subscription is as it was, and the result
      says whether there was one. */
  lemma CloseForgets(st: State, id: string)
    ensures var (next, r) := CloseSubscription(st, id);
      && (r.Ok? <==> 1 <= |Utf8.Encode(id)| <= 64)
      && (r.Err? ==> next == st)
      && (r.Ok? ==> r.value == (id in st.subs) && id !in next.subs && next == st.(subs := next.subs)
                    && forall other | other != id :: (other in next.subs <==> other in st.subs)
                                                     && (other in st.subs ==> next.subs[other] == st.subs[other]))
  {
    hide Utf8.Encode;
  }

  /** A subscription succeeds with a good id, a place for it, and room for its whole replay;
      without the first two nothing changes. */
  lemma SubscribeSucceedsIff(st: State, id: string, filters: seq<Filter>)
    requires |st.queue| <= st.outCap
    ensures var (next, r) := Subscribe(st, id, filters);
      var placed := GoodId(id) && (id in st.subs || |st.subs| < st.subCap);
      && (r.Ok? <==> placed && |st.queue| + ReplayCount(filters, st.events) + 1 <= st.outCap)
      && (!placed ==> next == st && (GoodId(id) ==> r == Err(RelaySubscriptionFull(st.subCap))))
      && (placed ==> next.subs == st.subs[id := filters])
  {
    hide Utf8.Encode, Ranked, ReplayCount, ReplayOutputs, EnqueueAll, EventOutputs;
    ReplayOutputsAre(st.events, id, filters);
    var (kept, r) := Remember(st, id, filters);
    EnqueueAllFills(kept, ReplayOutputs(kept.events, id, filters));
    assert |ReplayOutputs(st.events, id, filters)| == ReplayCount(filters, st.events) + 1;
    assert r.Ok? <==> GoodId(id) && (id in st.subs || |st.subs| < st.subCap);
    if r.Ok? {
      assert Subscribe(st, id, filters) == EnqueueAll(kept, ReplayOutputs(kept.events, id, filters));
      assert EnqueueAll(kept, ReplayOutputs(kept.events, id, filters)).0.subs == kept.subs;
    }
  }

  // ---- matching ----

  /** A tag that names a key as a recipient. */
  ghost predicate NamesRecipient(tag: Tag, key: Bytes32) {
    |tag| >= 2 && tag[0] == "p" && tag[1] == Hex.HexText(key)
  }

  lemma {:induction false} RecipientsMeans(tags: seq<Tag>, key: Bytes32)
    ensures key in Recipients(tags) <==> exists i | 0 <= i < |tags| :: NamesRecipient(tags[i], key)
  {
    hide Hex.DecodeFixed, Hex.HexText;
    if tags != [] {
      var rest := tags[1..];
      RecipientsMeans(rest, key);
      if |tags[0]| >= 2 {
        Hex.DecodeFixedIff(32, tags[0][1], key);
      }
      if exists i | 0 <= i < |rest| :: NamesRecipient(rest[i], key) {
        var i :| 0 <= i < |rest| && NamesRecipient(rest[i], key);
        assert tags[i + 1] == rest[i];
      }
      if exists i | 0 <= i < |tags| :: NamesRecipient(tags[i], key) {
        var i :| 0 <= i < |tags| && NamesRecipient(tags[i], key);
        assert i > 0 ==> rest[i - 1] == tags[i];
      }
    }
  }

  /** A filter lets an event through when each list it gives names something of the event,
      and the event lies within the times it gives, both ends included. */
  ghost predicate LetsThrough(f: Filter, e: Event) {
    && (|f.kinds| > 0 ==> exists i | 0 <= i < |f.kinds| :: f.kinds[i] == e.kind)
    && (|f.authors| > 0 ==> exists i | 0 <= i < |f.authors| :: f.authors[i] == e.pubkey)
    && (|f.pTags| > 0 ==> exists i, j | 0 <= i < |f.pTags| && 0 <= j < |e.tags| :: NamesRecipient(e.tags[j], f.pTags[i]))
    && (match f.since case None => true case Some(t) => t <= e.createdAt)
    && (match f.until case None => true case Some(t) => e.createdAt <= t)
  }

  lemma FilterMeans(f: Filter, e: Event)
    ensures MatchesTarget(f, e.kind, e.pubkey, Recipients(e.tags), e.createdAt) <==> LetsThrough(f, e)
  {
    hide NamesRecipient, Recipients;
    RecipientNamed(f, e);
  }

  lemma RecipientNamed(f: Filter, e: Event)
    ensures (exists k | k in f.pTags :: k in Recipients(e.tags)) <==>
      exists i, j | 0 <= i < |f.pTags| && 0 <= j < |e.tags| :: NamesRecipient(e.tags[j], f.pTags[i])
  {
    hide NamesRecipient, Recipients;
    if exists k | k in f.pTags :: k in Recipients(e.tags) {
      var k :| k in f.pTags && k in Recipients(e.tags);
      RecipientsMeans(e.tags, k);
      var i :| 0 <= i < |f.pTags| && f.pTags[i] == k;
      var j :| 0 <= j < |e.tags| && NamesRecipient(e.tags[j], k);
      assert NamesRecipient(e.tags[j], f.pTags[i]);
    }
    if exists i, j | 0 <= i < |f.pTags| && 0 <= j < |e.tags| :: NamesRecipient(e.tags[j], f.pTags[i]) {
      var i, j :| 0 <= i < |f.pTags| && 0 <= j < |e.tags| && NamesRecipient(e.tags[j], f.pTags[i]);
      RecipientsMeans(e.tags, f.pTags[i]);
      assert f.pTags[i] in f.pTags;
    }
  }

  /** An event matches when one of the filters lets it through. */
  lemma MatchesMeans(filters: seq<Filter>, e: Event)
    ensures Matches(filters, e) <==> exists i | 0 <= i < |filters| :: LetsThrough(filters[i], e)
  {
    hide MatchesTarget, LetsThrough;
    forall i | 0 <= i < |filters|
      ensures MatchesTarget(filters[i], e.kind, e.pubkey, Recipients(e.tags), e.createdAt) <==> LetsThrough(filters[i], e)
    {
      FilterMeans(filters[i], e);
    }
  }

  // ---- how much is replayed ----

  /** The limits of the filters that have one, added up without a bound. */
  ghost function LimitSum(filters: seq<Filter>): nat {
    if filters == [] then 0
    else (match filters[0].limit case None => 0 case Some(n) => n) + LimitSum(filters[1..])
  }

  lemma {:induction false} LimitSumSnoc(filters: seq<Filter>, last: Filter)
    ensures LimitSum(filters + [last]) == LimitSum(filters) + match last.limit case None => 0 case Some(n) => n
  {
    if filters == [] {
      assert filters + [last] == [last];
      assert LimitSum([last][1..]) == 0;
    } else {
      assert (filters + [last])[1..] == filters[1..] + [last];
      LimitSumSnoc(filters[1..], last);
    }
  }

  lemma {:induction false} ReplayLimitMeans(filters: seq<Filter>)
    ensures ReplayLimit(filters).None? <==> exists i | 0 <= i < |filters| :: filters[i].limit.None?
    ensures ReplayLimit(filters).Some? ==>
      ReplayLimit(filters).value == if LimitSum(filters) <= 0xFFFF_FFFF_FFFF_FFFF then LimitSum(filters) else 0xFFFF_FFFF_FFFF_FFFF
  {
    if filters != [] {
      var init, last := filters[..|filters| - 1], filters[|filters| - 1];
      assert filters == init + [last];
      ReplayLimitMeans(init);
      LimitSumSnoc(init, last);
      if exists i | 0 <= i < |init| :: init[i].limit.None? {
        var i :| 0 <= i < |init| && init[i].limit.None?;
        assert filters[i].limit.None?;
      }
    }
  }

  /** Everything that matches is due, unless every filter has a limit; then no more than the
      limits add up to, however large, in one machine word. */
  lemma ReplayCountMeans(filters: seq<Filter>, events: seq<Event>)
    ensures var k, all, sum := ReplayCount(filters, events), |Ranked(filters, events)|, LimitSum(filters);
      && ((exists i | 0 <= i < |filters| :: filters[i].limit.None?) ==> k == all)
      && (all <= sum && all <= 0xFFFF_FFFF_FFFF_FFFF ==> k == all)
      && ((forall i | 0 <= i < |filters| :: filters[i].limit.Some?) && sum < all && sum <= 0xFFFF_FFFF_FFFF_FFFF ==> k == sum)
  {
    hide Ranked;
    ReplayLimitMeans(filters);
  }
}
