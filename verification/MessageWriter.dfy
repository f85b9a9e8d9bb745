/** Events, filters and messages, appended piece by piece to a caller's buffer. */
module MessageWriter {
  import opened Base
  import opened NostrTypes
  import opened Json
  import opened JsonLayout
  import opened JsonPieces
  import opened JsonWriter
  import opened Messages
  import Hex
  import JsonParser
  import JsonRoundTrip
  import Utf8

  method WriteEvent(w: Writer, e: Event) returns (r: Result<(), NostrError>)
    requires w.Valid()
    modifies w`len, w.out
    ensures w.Valid() && Wrote(w.out.Length, old(w.Written()), Print(EventJson(e)), r, w.Written())
  {
    hide PrintMembers, AtMember, EventMembers, Print;
    ghost var members := EventMembers(e);
    ghost var before := w.Written();
    ObjectLength(members);
    var _ :- OpenObject(w, members);
    var _ :- WriteEventMembers(w, before + [0x7B], e);
    r := CloseObject(w, before, members);
  }

  method WriteEventMembers(w: Writer, ghost start: Bytes, e: Event) returns (r: Result<(), NostrError>)
    requires AtMember(w, start, EventMembers(e), 0)
    modifies w`len, w.out
    ensures MemberWrote(w, start, EventMembers(e), |EventMembers(e)|, r)
  {
    hide PrintMembers, AtMember, TagsJson, Print;
    var id := HexOf(e.id);
    var pubkey := HexOf(e.pubkey);
    var signature := HexOf(e.sig);
    ghost var members := EventMembers(e);
    var _ :- WriteStringMember(w, start, members, 0, "id", id);
    var _ :- WriteStringMember(w, start, members, 1, "pubkey", pubkey);
    var _ :- WriteNumberMember(w, start, members, 2, "created_at", e.createdAt);
    var _ :- WriteNumberMember(w, start, members, 3, "kind", e.kind);
    var _ :- WriteTagsMember(w, start, members, 4, "tags", e.tags);
    var _ :- WriteStringMember(w, start, members, 5, "content", e.content);
    r := WriteStringMember(w, start, members, 6, "sig", signature);
  }

  // ---- filters: a field that says nothing is skipped, and `k` plays the source's flag ----

  method WriteNumberArray(w: Writer, values: seq<U16>) returns (r: Result<(), NostrError>)
    requires w.Valid()
    modifies w`len, w.out
    ensures w.Valid() && Wrote(w.out.Length, old(w.Written()), Print(NumbersJson(values)), r, w.Written())
  {
    hide AtItem, PrintItems, Print;
    ghost var items := NumbersJson(values).items;
    ghost var before := w.Written();
    ArrayLength(items);
    var _ :- OpenArray(w, items);
    for i := 0 to |values|
      invariant AtItem(w, before + [0x5B], items, i)
    {
      var _ :- WriteNumberItem(w, before + [0x5B], items, i, values[i]);
    }
    r := CloseArray(w, before, items);
  }

  method WriteKeyArray(w: Writer, keys: seq<Bytes32>) returns (r: Result<(), NostrError>)
    requires w.Valid()
    modifies w`len, w.out
    ensures w.Valid() && Wrote(w.out.Length, old(w.Written()), Print(KeysJson(keys)), r, w.Written())
  {
    hide AtItem, PrintItems, Print;
    ghost var items := KeysJson(keys).items;
    ghost var before := w.Written();
    ArrayLength(items);
    var _ :- OpenArray(w, items);
    for i := 0 to |keys|
      invariant AtItem(w, before + [0x5B], items, i)
    {
      var hex := HexOf(keys[i]);
      var _ :- WriteStringItem(w, before + [0x5B], items, i, hex);
    }
    r := CloseArray(w, before, items);
  }

  method WriteKindsField(w: Writer, ghost start: Bytes, ghost members: seq<Member>, k: nat, kinds: seq<U16>)
    returns (r: Result<(), NostrError>, next: nat)
    requires k + |KindsMember(kinds)| <= |members| && AtMember(w, start, members, k)
    requires members[k..k + |KindsMember(kinds)|] == KindsMember(kinds)
    modifies w`len, w.out
    ensures next == k + |KindsMember(kinds)| && MemberWrote(w, start, members, next, r)
  {
    hide PrintString, PrintMembers, NumbersJson, Print;
    next := k;
    if kinds == [] {
      return Ok(()), k;
    }
    next := k + 1;
    assert members[k] == members[k..k + 1][0];
    MembersSoFar(members, k);
    r := w.WriteName(k, "kinds");
    if r.Ok? {
      r := WriteNumberArray(w, kinds);
    }
  }

  method WriteKeysField(w: Writer, ghost start: Bytes, ghost members: seq<Member>, k: nat, name: string, keys: seq<Bytes32>)
    returns (r: Result<(), NostrError>, next: nat)
    requires k + |KeysMember(name, keys)| <= |members| && AtMember(w, start, members, k)
    requires members[k..k + |KeysMember(name, keys)|] == KeysMember(name, keys)
    modifies w`len, w.out
    ensures next == k + |KeysMember(name, keys)| && MemberWrote(w, start, members, next, r)
  {
    hide PrintString, PrintMembers, KeysJson, Print;
    next := k;
    if keys == [] {
      return Ok(()), k;
    }
    next := k + 1;
    assert members[k] == members[k..k + 1][0];
    MembersSoFar(members, k);
    r := w.WriteName(k, name);
    if r.Ok? {
      r := WriteKeyArray(w, keys);
    }
  }

  method WriteNumberField(w: Writer, ghost start: Bytes, ghost members: seq<Member>, k: nat, name: string, value: Option<U64>)
    returns (r: Result<(), NostrError>, next: nat)
    requires k + |NumberMember(name, value)| <= |members| && AtMember(w, start, members, k)
    requires members[k..k + |NumberMember(name, value)|] == NumberMember(name, value)
    modifies w`len, w.out
    ensures next == k + |NumberMember(name, value)| && MemberWrote(w, start, members, next, r)
  {
    hide PrintMembers;
    next := k;
    if value.None? {
      return Ok(()), k;
    }
    next := k + 1;
    assert members[k] == members[k..k + 1][0];
    r := WriteNumberMember(w, start, members, k, name, value.value);
  }

  /** Where each field of a filter stands among the members written for it. */
  lemma FilterLayout(f: Filter)
    ensures var members := FilterMembers(f);
      var a := |KindsMember(f.kinds)|;
      var b := a + |KeysMember("authors", f.authors)|;
      var c := b + |KeysMember("#p", f.pTags)|;
      var d := c + |NumberMember("since", f.since)|;
      var e := d + |NumberMember("until", f.until)|;
      && |members| == e + |NumberMember("limit", f.limit)|
      && members[0..a] == KindsMember(f.kinds)
      && members[a..b] == KeysMember("authors", f.authors)
      && members[b..c] == KeysMember("#p", f.pTags)
      && members[c..d] == NumberMember("since", f.since)
      && members[d..e] == NumberMember("until", f.until)
      && members[e..] == NumberMember("limit", f.limit)
  {
    hide KindsMember, KeysMember, NumberMember;
    var tail5 := NumberMember("until", f.until) + NumberMember("limit", f.limit);
    var tail4 := NumberMember("since", f.since) + tail5;
    var tail3 := KeysMember("#p", f.pTags) + tail4;
    var tail2 := KeysMember("authors", f.authors) + tail3;
    ConcatSlices(KindsMember(f.kinds), tail2, []);
    ConcatSlices(KeysMember("authors", f.authors), tail3, KindsMember(f.kinds));
    ConcatSlices(KeysMember("#p", f.pTags), tail4, KindsMember(f.kinds) + KeysMember("authors", f.authors));
    ConcatSlices(NumberMember("since", f.since), tail5,
      KindsMember(f.kinds) + KeysMember("authors", f.authors) + KeysMember("#p", f.pTags));
    ConcatSlices(NumberMember("until", f.until), NumberMember("limit", f.limit),
      KindsMember(f.kinds) + KeysMember("authors", f.authors) + KeysMember("#p", f.pTags)
        + NumberMember("since", f.since));
    ConcatSlices(NumberMember("limit", f.limit), [],
      KindsMember(f.kinds) + KeysMember("authors", f.authors) + KeysMember("#p", f.pTags)
        + NumberMember("since", f.since) + NumberMember("until", f.until));
    assert NumberMember("limit", f.limit) + [] == NumberMember("limit", f.limit);
  }

  lemma ConcatSlices(part: seq<Member>, tail: seq<Member>, head: seq<Member>)
    ensures var all := head + (part + tail);
      all[|head|..|head| + |part|] == part && all[|head|..] == part + tail && all == head + part + tail
  {
  }

  method WriteFilter(w: Writer, f: Filter) returns (r: Result<(), NostrError>)
    requires w.Valid()
    modifies w`len, w.out
    ensures w.Valid() && Wrote(w.out.Length, old(w.Written()), Print(FilterJson(f)), r, w.Written())
  {
    hide PrintMembers, AtMember, Print, FilterMembers, KindsMember, KeysMember, NumberMember;
    ghost var members := FilterMembers(f);
    ghost var before := w.Written();
    ObjectLength(members);
    FilterLayout(f);
    var _ :- OpenObject(w, members);
    r := WriteFilterFields(w, before + [0x7B], f);
    if r.Ok? {
      r := CloseObject(w, before, members);
    }
  }

  method WriteFilterFields(w: Writer, ghost start: Bytes, f: Filter) returns (r: Result<(), NostrError>)
    requires AtMember(w, start, FilterMembers(f), 0)
    modifies w`len, w.out
    ensures MemberWrote(w, start, FilterMembers(f), |FilterMembers(f)|, r)
  {
    hide PrintMembers, AtMember, FilterMembers, KindsMember, KeysMember, NumberMember;
    ghost var members := FilterMembers(f);
    FilterLayout(f);
    var k;
    r, k := WriteKindsField(w, start, members, 0, f.kinds);
    if r.Ok? {
      r, k := WriteKeysField(w, start, members, k, "authors", f.authors);
    }
    if r.Ok? {
      r, k := WriteKeysField(w, start, members, k, "#p", f.pTags);
    }
    if r.Ok? {
      r, k := WriteNumberField(w, start, members, k, "since", f.since);
    }
    if r.Ok? {
      r, k := WriteNumberField(w, start, members, k, "until", f.until);
    }
    if r.Ok? {
      assert members[k..|members|] == members[k..];
      r, k := WriteNumberField(w, start, members, k, "limit", f.limit);
    }
  }

  method WriteEventItem(w: Writer, ghost start: Bytes, ghost items: seq<JsonValue>, k: nat, e: Event)
    returns (r: Result<(), NostrError>)
    requires k < |items| && items[k] == EventJson(e) && AtItem(w, start, items, k)
    modifies w`len, w.out
    ensures ItemWrote(w, start, items, k + 1, r)
  {
    hide PrintItems, Print, EventJson, Comma;
    ItemsSoFar(items, k);
    var _ :- PushComma(w, k);
    r := WriteEvent(w, e);
  }

  method WriteFilterItem(w: Writer, ghost start: Bytes, ghost items: seq<JsonValue>, k: nat, f: Filter)
    returns (r: Result<(), NostrError>)
    requires k < |items| && items[k] == FilterJson(f) && AtItem(w, start, items, k)
    modifies w`len, w.out
    ensures ItemWrote(w, start, items, k + 1, r)
  {
    hide PrintItems, Print, FilterJson, Comma;
    ItemsSoFar(items, k);
    var _ :- PushComma(w, k);
    r := WriteFilter(w, f);
  }

  /** What a message writer leaves in its buffer and returns: the printed tree if the check
      passes and it fits. */
  ghost predicate Outcome(buffer: Bytes, check: Result<(), NostrError>, tree: JsonValue, r: Result<string, NostrError>) {
    if buffer == [] then r.Err? && TooSmall(0, r.error)
    else if check.Err? then r == Err(check.error)
    else if |Print(tree)| <= |buffer| then
      r.Ok? && Utf8.Encode(r.value) == Print(tree) && buffer[..|Print(tree)|] == Print(tree)
    else r.Err? && TooSmall(|buffer|, r.error)
  }

  /** The buffer's text, which is always well-formed here. */
  method Finish(w: Writer, ghost tree: JsonValue) returns (r: Result<string, NostrError>)
    requires w.Valid() && w.Written() == Print(tree)
    ensures r.Ok? && Utf8.Encode(r.value) == Print(tree)
  {
    JsonRoundTrip.ParsePrint(tree);
    Utf8.EncodeDecode(Print(tree));
    match Utf8.Decode(w.out[..w.len])
    case None => r := Err(Utf8Error);
    case Some(text) => r := Ok(text);
  }

  method WriteClientItems(w: Writer, m: ClientMessage) returns (r: Result<(), NostrError>)
    requires AtItem(w, [0x5B], ClientItems(m), 0)
    modifies w`len, w.out
    ensures ClientCheck(m).Ok? ==> ItemWrote(w, [0x5B], ClientItems(m), |ClientItems(m)|, r)
    ensures ClientCheck(m).Err? ==> r == ClientCheck(m)
  {
    hide AtItem, PrintItems, EventJson, FilterJson, ValidateSubscriptionId;
    ghost var items, start := ClientItems(m), [0x5B];
    match m
    case EventMessage(e) =>
      var _ :- WriteStringItem(w, start, items, 0, "EVENT");
      r := WriteEventItem(w, start, items, 1, e);
    case Req(id, filters) =>
      var _ :- ValidateSubscriptionId(id);
      var _ :- WriteStringItem(w, start, items, 0, "REQ");
      var _ :- WriteStringItem(w, start, items, 1, id);
      for i := 0 to |filters|
        invariant AtItem(w, start, items, i + 2)
      {
        var _ :- WriteFilterItem(w, start, items, i + 2, filters[i]);
      }
      r := Ok(());
    case Close(id) =>
      var _ :- ValidateSubscriptionId(id);
      var _ :- WriteStringItem(w, start, items, 0, "CLOSE");
      r := WriteStringItem(w, start, items, 1, id);
    case AuthEvent(e) =>
      var _ :- WriteStringItem(w, start, items, 0, "AUTH");
      r := WriteEventItem(w, start, items, 1, e);
  }

  method WriteClientMessage(m: ClientMessage, out: array<Byte>) returns (r: Result<string, NostrError>)
    modifies out
    ensures Outcome(out[..], ClientCheck(m), ClientJson(m), r)
  {
    hide AtItem, PrintItems, Print, ClientItems, ClientCheck;
    ghost var items := ClientItems(m);
    ArrayLength(items);
    var w := new Writer(out);
    assert [] + [0x5B] == [0x5B];
    var _ :- OpenArray(w, items);
    var _ :- WriteClientItems(w, m);
    var _ :- CloseArray(w, [], items);
    assert [] + Print(Array(items)) == Print(Array(items));
    r := Finish(w, Array(items));
  }

  method WriteRelayItems(w: Writer, m: RelayMessage) returns (r: Result<(), NostrError>)
    requires AtItem(w, [0x5B], RelayItems(m), 0)
    modifies w`len, w.out
    ensures RelayCheck(m).Ok? ==> ItemWrote(w, [0x5B], RelayItems(m), |RelayItems(m)|, r)
    ensures RelayCheck(m).Err? ==> r == RelayCheck(m)
  {
    hide AtItem, PrintItems, EventJson, ValidateSubscriptionId;
    ghost var items, start := RelayItems(m), [0x5B];
    match m
    case RelayEvent(id, e) =>
      var _ :- ValidateSubscriptionId(id);
      var _ :- WriteStringItem(w, start, items, 0, "EVENT");
      var _ :- WriteStringItem(w, start, items, 1, id);
      r := WriteEventItem(w, start, items, 2, e);
    case RelayOk(id, accepted, message) =>
      var hex := HexOf(id);
      var _ :- WriteStringItem(w, start, items, 0, "OK");
      var _ :- WriteStringItem(w, start, items, 1, hex);
      var _ :- WriteBoolItem(w, start, items, 2, accepted);
      r := WriteStringItem(w, start, items, 3, message);
    case Eose(id) =>
      var _ :- ValidateSubscriptionId(id);
      var _ :- WriteStringItem(w, start, items, 0, "EOSE");
      r := WriteStringItem(w, start, items, 1, id);
    case Closed(id, message) =>
      var _ :- ValidateSubscriptionId(id);
      var _ :- WriteStringItem(w, start, items, 0, "CLOSED");
      var _ :- WriteStringItem(w, start, items, 1, id);
      r := WriteStringItem(w, start, items, 2, message);
    case Notice(message) =>
      var _ :- WriteStringItem(w, start, items, 0, "NOTICE");
      r := WriteStringItem(w, start, items, 1, message);
    case AuthChallenge(challenge) =>
      var _ :- WriteStringItem(w, start, items, 0, "AUTH");
      r := WriteStringItem(w, start, items, 1, challenge);
  }

  method WriteRelayMessage(m: RelayMessage, out: array<Byte>) returns (r: Result<string, NostrError>)
    modifies out
    ensures Outcome(out[..], RelayCheck(m), RelayJson(m), r)
  {
    hide AtItem, PrintItems, Print, RelayItems, RelayCheck;
    ghost var items := RelayItems(m);
    ArrayLength(items);
    var w := new Writer(out);
    assert [] + [0x5B] == [0x5B];
    var _ :- OpenArray(w, items);
    var _ :- WriteRelayItems(w, m);
    var _ :- CloseArray(w, [], items);
    assert [] + Print(Array(items)) == Print(Array(items));
    r := Finish(w, Array(items));
  }

  method DecodeClientMessage(input: string) returns (r: Result<ClientMessage, NostrError>)
    ensures r == DecodeClient(Utf8.Encode(input))
  {
    var v :- JsonParser.ParseText(input);
    r := if v.Array? then ClientOfItems(v.items) else Err(MalformedMessage);
  }

  method DecodeRelayMessage(input: string) returns (r: Result<RelayMessage, NostrError>)
    ensures r == DecodeRelay(Utf8.Encode(input))
  {
    var v :- JsonParser.ParseText(input);
    r := if v.Array? then RelayOfItems(v.items) else Err(MalformedMessage);
  }
}
