/** Decoding undoes writing, for every client and relay message. */
module MessageRoundTrip {
  import opened Base
  import opened NostrTypes
  import opened Json
  import opened Messages
  import Hex
  import JsonRoundTrip
  import opened MessageWriter
  import Utf8

  // ---- fields by name ----

  lemma {:induction false} FieldAt(fields: seq<Member>, k: nat)
    requires k < |fields| && forall i | 0 <= i < k :: fields[i].name != fields[k].name
    ensures OptionalField(fields, fields[k].name) == Some(fields[k].value)
  {
    if k > 0 {
      assert fields[0].name != fields[k].name;
      FieldAt(fields[1..], k - 1);
    }
  }

  lemma {:induction false} FieldInConcat(a: seq<Member>, b: seq<Member>, name: string)
    ensures OptionalField(a + b, name) ==
      if OptionalField(a, name).Some? then OptionalField(a, name) else OptionalField(b, name)
  {
    if a == [] {
      assert a + b == b;
    } else {
      assert (a + b)[1..] == a[1..] + b;
      FieldInConcat(a[1..], b, name);
    }
  }

  lemma HexReadsBack(n: nat, bytes: Bytes)
    requires |bytes| == n
    ensures Hex.DecodeFixed(n, Hex.HexText(bytes)) == Ok(bytes)
  {
    Hex.DecodeFixedIff(n, Hex.HexText(bytes), bytes);
  }

  // ---- events ----

  lemma {:induction false} StringsReadBack(values: seq<string>)
    ensures ParseStrings(Strs(values)) == Ok(values)
  {
    if values != [] {
      StringsReadBack(values[1..]);
      assert Strs(values)[1..] == Strs(values[1..]);
      assert values == [values[0]] + values[1..];
    }
  }

  lemma {:induction false} TagsReadBack(tags: seq<Tag>)
    ensures ParseTags(TagsJson(tags)) == Ok(tags)
  {
    if tags != [] {
      StringsReadBack(tags[0]);
      TagsReadBack(tags[1..]);
      assert TagsJson(tags).items[1..] == TagsJson(tags[1..]).items;
      assert tags == [tags[0]] + tags[1..];
    }
  }

  lemma EventFieldNames(e: Event)
    ensures var fields := EventMembers(e);
      OptionalField(fields, "id") == Some(fields[0].value) &&
      OptionalField(fields, "pubkey") == Some(fields[1].value) &&
      OptionalField(fields, "created_at") == Some(fields[2].value) &&
      OptionalField(fields, "kind") == Some(fields[3].value) &&
      OptionalField(fields, "tags") == Some(fields[4].value) &&
      OptionalField(fields, "content") == Some(fields[5].value) &&
      OptionalField(fields, "sig") == Some(fields[6].value)
  {
    hide OptionalField, TagsJson;
    var fields := EventMembers(e);
    assert "kind"[0] != "tags"[0];
    FieldAt(fields, 0);
    FieldAt(fields, 1);
    FieldAt(fields, 2);
    FieldAt(fields, 3);
    FieldAt(fields, 4);
    FieldAt(fields, 5);
    FieldAt(fields, 6);
  }

  lemma EventReadsBack(e: Event)
    ensures ParseEvent(EventJson(e)) == Ok(e)
  {
    hide OptionalField, TagsJson, ParseTags, Hex.DecodeFixed;
    EventFieldNames(e);
    HexReadsBack(32, e.id);
    HexReadsBack(32, e.pubkey);
    HexReadsBack(64, e.sig);
    TagsReadBack(e.tags);
  }

  // ---- filters ----

  lemma {:induction false} KindsReadBack(kinds: seq<U16>)
    ensures ParseU16s(NumbersJson(kinds).items) == Ok(kinds)
  {
    if kinds != [] {
      KindsReadBack(kinds[1..]);
      assert NumbersJson(kinds).items[1..] == NumbersJson(kinds[1..]).items;
      assert kinds == [kinds[0]] + kinds[1..];
    }
  }

  lemma {:induction false} KeysReadBack(keys: seq<Bytes32>)
    ensures ParseKeys(KeysJson(keys).items) == Ok(keys)
  {
    if keys != [] {
      HexReadsBack(32, keys[0]);
      KeysReadBack(keys[1..]);
      assert KeysJson(keys).items[1..] == KeysJson(keys[1..]).items;
      assert keys == [keys[0]] + keys[1..];
    }
  }

  /** At most one member, so a look-up by another name passes it by. */
  lemma FieldOfOne(part: seq<Member>, own: string, name: string)
    requires |part| <= 1 && (part != [] ==> part[0].name == own)
    ensures OptionalField(part, name) == if part != [] && own == name then Some(part[0].value) else None
  {
  }

  lemma FilterField(f: Filter, name: string)
    ensures OptionalField(FilterMembers(f), name) ==
      if name == "kinds" && f.kinds != [] then Some(NumbersJson(f.kinds))
      else if name == "authors" && f.authors != [] then Some(KeysJson(f.authors))
      else if name == "#p" && f.pTags != [] then Some(KeysJson(f.pTags))
      else if name == "since" && f.since.Some? then Some(Number(f.since.value))
      else if name == "until" && f.until.Some? then Some(Number(f.until.value))
      else if name == "limit" && f.limit.Some? then Some(Number(f.limit.value))
      else None
  {
    hide OptionalField, NumbersJson, KeysJson;
    var limit := NumberMember("limit", f.limit);
    var until := NumberMember("until", f.until);
    var since := NumberMember("since", f.since);
    var pTags := KeysMember("#p", f.pTags);
    var authors := KeysMember("authors", f.authors);
    var kinds := KindsMember(f.kinds);
    FieldInConcat(kinds, authors + (pTags + (since + (until + limit))), name);
    FieldInConcat(authors, pTags + (since + (until + limit)), name);
    FieldInConcat(pTags, since + (until + limit), name);
    FieldInConcat(since, until + limit, name);
    FieldInConcat(until, limit, name);
    FieldOfOne(kinds, "kinds", name);
    FieldOfOne(authors, "authors", name);
    FieldOfOne(pTags, "#p", name);
    FieldOfOne(since, "since", name);
    FieldOfOne(until, "until", name);
    FieldOfOne(limit, "limit", name);
    assert "since"[0] == 's' && "until"[0] == 'u' && "limit"[0] == 'l' && "kinds"[0] == 'k';
  }

  lemma FilterReadsBack(f: Filter)
    ensures ParseFilter(FilterJson(f)) == Ok(f)
  {
    hide OptionalField, FilterMembers, NumbersJson, KeysJson, ParseU16s, ParseKeys;
    FilterField(f, "kinds");
    FilterField(f, "authors");
    FilterField(f, "#p");
    FilterField(f, "since");
    FilterField(f, "until");
    FilterField(f, "limit");
    assert "since"[0] == 's' && "until"[0] == 'u' && "limit"[0] == 'l' && "kinds"[0] == 'k';
    ArraysOfFilter(f);
    KindsReadBack(f.kinds);
    KeysReadBack(f.authors);
    KeysReadBack(f.pTags);
  }

  lemma ArraysOfFilter(f: Filter)
    ensures NumbersJson(f.kinds).Array? && KeysJson(f.authors).Array? && KeysJson(f.pTags).Array?
  {
  }

  lemma {:induction false} FiltersReadBack(filters: seq<Filter>)
    ensures ParseFilters(FiltersJson(filters)) == Ok(filters)
  {
    hide ParseFilter, FilterJson;
    if filters != [] {
      FilterReadsBack(filters[0]);
      FiltersReadBack(filters[1..]);
      assert FiltersJson(filters)[1..] == FiltersJson(filters[1..]);
      assert filters == [filters[0]] + filters[1..];
    }
  }

  // ---- messages ----

  /** Messages the decoder can read back: all but those the writer refuses and the REQ
      without filters, which the writer does not refuse. */
  predicate Decodable(m: ClientMessage) {
    ClientCheck(m).Ok? && !(m.Req? && m.filters == [])
  }

  lemma ClientItemsReadBack(m: ClientMessage)
    ensures ClientOfItems(ClientItems(m)) ==
      if m.Req? && m.filters == [] then Err(MalformedMessage)
      else match ClientCheck(m) { case Ok(_) => Ok(m) case Err(e) => Err(e) }
  {
    hide ParseEvent, EventJson, ParseFilters, FiltersJson, ValidateSubscriptionId;
    assert "EVENT"[0] == 'E' && "CLOSE"[0] == 'C';
    match m
    case EventMessage(e) => EventReadsBack(e);
    case AuthEvent(e) => EventReadsBack(e);
    case Close(_) =>
    case Req(id, filters) =>
      FiltersReadBack(filters);
      assert ClientItems(m)[2..] == FiltersJson(filters);
  }

  lemma RelayItemsReadBack(m: RelayMessage)
    ensures RelayOfItems(RelayItems(m)) == match RelayCheck(m) { case Ok(_) => Ok(m) case Err(e) => Err(e) }
  {
    hide ParseEvent, EventJson, Hex.DecodeFixed, ValidateSubscriptionId;
    assert "EVENT"[0] == 'E' && "EOSE"[1] == 'O' && "AUTH"[0] == 'A';
    assert "CLOSED"[0] == 'C' && "NOTICE"[0] == 'N';
    match m
    case RelayEvent(_, e) => EventReadsBack(e);
    case RelayOk(id, _, _) => HexReadsBack(32, id);
    case Eose(_) =>
    case Closed(_, _) =>
    case Notice(_) =>
    case AuthChallenge(_) =>
  }

  /** The text of a client message decodes to that message exactly when it is decodable;
      the REQ without filters is the only one that can be written and not read back. */
  lemma ClientRoundTripIff(m: ClientMessage)
    ensures DecodeClient(Print(ClientJson(m))) == Ok(m) <==> Decodable(m)
    ensures m.Req? && m.filters == [] ==> DecodeClient(Print(ClientJson(m))) == Err(MalformedMessage)
  {
    hide Parse, Print, ClientItems, ClientOfItems;
    JsonRoundTrip.ParsePrint(ClientJson(m));
    ClientItemsReadBack(m);
  }

  /** The text of a relay message decodes to that message exactly when it can be written. */
  lemma RelayRoundTripIff(m: RelayMessage)
    ensures DecodeRelay(Print(RelayJson(m))) == Ok(m) <==> RelayCheck(m).Ok?
  {
    hide Parse, Print, RelayItems, RelayOfItems;
    JsonRoundTrip.ParsePrint(RelayJson(m));
    RelayItemsReadBack(m);
  }

  /** Whatever a successful writer call returned, the decoder gives the message back. */
  lemma WrittenClientDecodes(m: ClientMessage, buffer: Bytes, text: string)
    requires Outcome(buffer, ClientCheck(m), ClientJson(m), Ok(text))
    ensures DecodeClient(Utf8.Encode(text)) == Ok(m) <==> !(m.Req? && m.filters == [])
  {
    ClientRoundTripIff(m);
  }

  lemma WrittenRelayDecodes(m: RelayMessage, buffer: Bytes, text: string)
    requires Outcome(buffer, RelayCheck(m), RelayJson(m), Ok(text))
    ensures DecodeRelay(Utf8.Encode(text)) == Ok(m)
  {
    RelayRoundTripIff(m);
  }

  /** Every text the client decoder accepts, however spaced, escaped or ordered, stands for
      a message whose own text decodes to the same message. */
  lemma DecodedClientRewrites(input: string, m: ClientMessage)
    requires DecodeClient(Utf8.Encode(input)) == Ok(m)
    ensures Decodable(m) && DecodeClient(Print(ClientJson(m))) == Ok(m)
  {
    hide Parse, Print, ClientJson, ParseEvent;
    FiltersCount(Parse(Utf8.Encode(input)).value.items);
    ClientRoundTripIff(m);
  }

  lemma {:induction false} FilterCount(values: seq<JsonValue>)
    requires ParseFilters(values).Ok?
    ensures |ParseFilters(values).value| == |values|
  {
    if values != [] {
      FilterCount(values[1..]);
    }
  }

  lemma FiltersCount(items: seq<JsonValue>)
    ensures |items| >= 3 && ParseFilters(items[2..]).Ok? ==> ParseFilters(items[2..]).value != []
  {
    if |items| >= 3 && ParseFilters(items[2..]).Ok? {
      FilterCount(items[2..]);
    }
  }

  lemma DecodedRelayRewrites(input: string, m: RelayMessage)
    requires DecodeRelay(Utf8.Encode(input)) == Ok(m)
    ensures RelayCheck(m).Ok? && DecodeRelay(Print(RelayJson(m))) == Ok(m)
  {
    hide Parse, Print, RelayJson, ParseEvent;
    RelayRoundTripIff(m);
  }
}
