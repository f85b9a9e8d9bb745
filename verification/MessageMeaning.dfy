/** Which JSON trees, and which texts, the message decoders accept, and what each of them
    says: unknown and repeated members, any order, any spelling. */
module MessageMeaning {
  import opened Base
  import opened NostrTypes
  import opened Json
  import opened Messages
  import Hex
  import JsonSpelling
  import Utf8

  // ---- members of an object ----

  /** The first member of that name has the value `v`. */
  ghost predicate Has(fields: seq<Member>, name: string, v: JsonValue) {
    exists i | 0 <= i < |fields| :: fields[i] == Member(name, v) && forall j | 0 <= j < i :: fields[j].name != name
  }

  ghost predicate Lacks(fields: seq<Member>, name: string) {
    forall i | 0 <= i < |fields| :: fields[i].name != name
  }

  lemma {:induction false} FieldIff(fields: seq<Member>, name: string, v: JsonValue)
    ensures OptionalField(fields, name) == Some(v) <==> Has(fields, name, v)
    ensures OptionalField(fields, name).None? <==> Lacks(fields, name)
  {
    if fields != [] {
      var rest := fields[1..];
      FieldIff(rest, name, v);
      if fields[0].name == name {
        assert OptionalField(fields, name) == Some(fields[0].value);
        if fields[0].value == v {
          assert fields[0] == Member(name, v);
        }
      } else {
        if Has(rest, name, v) {
          var i :| 0 <= i < |rest| && rest[i] == Member(name, v) && forall j | 0 <= j < i :: rest[j].name != name;
          assert fields[i + 1] == rest[i];
          assert forall j | 0 <= j < i + 1 :: fields[j].name != name by {
            assert forall j | 0 < j < i + 1 :: fields[j] == rest[j - 1];
          }
        }
        if Has(fields, name, v) {
          var i :| 0 <= i < |fields| && fields[i] == Member(name, v) && forall j | 0 <= j < i :: fields[j].name != name;
          assert rest[i - 1] == fields[i];
          assert forall j | 0 <= j < i - 1 :: rest[j] == fields[j + 1];
        }
        assert forall j | 0 <= j < |rest| :: rest[j] == fields[j + 1];
      }
    }
  }

  /** At most one value has a given name. */
  lemma OneValue(fields: seq<Member>, name: string, v: JsonValue)
    requires Has(fields, name, v)
    ensures !Lacks(fields, name) && OptionalField(fields, name) == Some(v)
  {
    FieldIff(fields, name, v);
  }

  // ---- lists ----

  lemma {:induction false} StringsIff(items: seq<JsonValue>, texts: seq<string>)
    ensures ParseStrings(items) == Ok(texts) <==> items == Strs(texts)
  {
    if items != [] && texts != [] {
      StringsIff(items[1..], texts[1..]);
      assert Strs(texts) == [Str(texts[0])] + Strs(texts[1..]);
      assert items == [items[0]] + items[1..] && texts == [texts[0]] + texts[1..];
    }
  }

  lemma {:induction false} TagsIff(items: seq<JsonValue>, tags: seq<Tag>)
    ensures ParseTagList(items) == Ok(tags) <==> Array(items) == TagsJson(tags)
  {
    hide ParseStrings, Strs;
    if items != [] && tags != [] {
      TagsIff(items[1..], tags[1..]);
      if items[0].Array? {
        StringsIff(items[0].items, tags[0]);
      }
      assert TagsJson(tags).items == [Array(Strs(tags[0]))] + TagsJson(tags[1..]).items;
      assert items == [items[0]] + items[1..] && tags == [tags[0]] + tags[1..];
    }
  }

  lemma {:induction false} NumbersIff(items: seq<JsonValue>, kinds: seq<U16>)
    ensures ParseU16s(items) == Ok(kinds) <==> Array(items) == NumbersJson(kinds)
  {
    if items != [] && kinds != [] {
      NumbersIff(items[1..], kinds[1..]);
      assert NumbersJson(kinds).items == [Number(kinds[0])] + NumbersJson(kinds[1..]).items;
      assert items == [items[0]] + items[1..] && kinds == [kinds[0]] + kinds[1..];
    }
  }

  lemma {:induction false} KeysIff(items: seq<JsonValue>, keys: seq<Bytes32>)
    ensures ParseKeys(items) == Ok(keys) <==> Array(items) == KeysJson(keys)
  {
    hide Hex.DecodeFixed, Hex.HexText;
    if items != [] && keys != [] {
      KeysIff(items[1..], keys[1..]);
      if items[0].Str? {
        Hex.DecodeFixedIff(32, items[0].text, keys[0]);
      }
      assert KeysJson(keys).items == [Str(Hex.HexText(keys[0]))] + KeysJson(keys[1..]).items;
      assert items == [items[0]] + items[1..] && keys == [keys[0]] + keys[1..];
    }
  }

  // ---- events and filters ----

  /** The tree says what the event is; other members do not matter. */
  ghost predicate SaysEvent(v: JsonValue, e: Event) {
    && v.Object?
    && Has(v.members, "id", Str(Hex.HexText(e.id))) && Has(v.members, "pubkey", Str(Hex.HexText(e.pubkey)))
    && Has(v.members, "created_at", Number(e.createdAt)) && Has(v.members, "kind", Number(e.kind))
    && Has(v.members, "tags", TagsJson(e.tags)) && Has(v.members, "content", Str(e.content))
    && Has(v.members, "sig", Str(Hex.HexText(e.sig)))
  }

  lemma HexIff(fields: seq<Member>, name: string, n: nat, bytes: Bytes)
    ensures HexField(fields, name, n) == Ok(bytes) <==> |bytes| == n && Has(fields, name, Str(Hex.HexText(bytes)))
  {
    hide Hex.DecodeFixed, Hex.HexText;
    FieldIff(fields, name, Str(Hex.HexText(bytes)));
    var found := OptionalField(fields, name);
    if found.Some? && found.value.Str? {
      Hex.DecodeFixedIff(n, found.value.text, bytes);
    }
  }

  lemma NumberIff(fields: seq<Member>, name: string, n: U64)
    ensures NumberField(fields, name) == Ok(n) <==> Has(fields, name, Number(n))
  {
    FieldIff(fields, name, Number(n));
  }

  lemma StringIff(fields: seq<Member>, name: string, text: string)
    ensures StringField(fields, name) == Ok(text) <==> Has(fields, name, Str(text))
  {
    FieldIff(fields, name, Str(text));
  }

  lemma TagsFieldIff(fields: seq<Member>, tags: seq<Tag>)
    ensures RequiredField(fields, "tags").Ok? && ParseTags(RequiredField(fields, "tags").value) == Ok(tags)
            <==> Has(fields, "tags", TagsJson(tags))
  {
    hide ParseTagList;
    FieldIff(fields, "tags", TagsJson(tags));
    var found := OptionalField(fields, "tags");
    if found.Some? && found.value.Array? {
      TagsIff(found.value.items, tags);
    }
  }

  lemma EventIff(v: JsonValue, e: Event)
    ensures ParseEvent(v) == Ok(e) <==> SaysEvent(v, e)
  {
    hide HexField, NumberField, StringField, RequiredField, ParseTags, Has, Hex.HexText, TagsJson;
    if v.Object? {
      HexIff(v.members, "id", 32, e.id);
      HexIff(v.members, "pubkey", 32, e.pubkey);
      HexIff(v.members, "sig", 64, e.sig);
      NumberIff(v.members, "created_at", e.createdAt);
      NumberIff(v.members, "kind", e.kind);
      StringIff(v.members, "content", e.content);
      TagsFieldIff(v.members, e.tags);
    }
  }

  /** A list is given, or it is left out and empty. */
  ghost predicate SaysList(fields: seq<Member>, name: string, list: JsonValue, empty: bool) {
    Has(fields, name, list) || (Lacks(fields, name) && empty)
  }

  ghost predicate SaysNumber(fields: seq<Member>, name: string, n: Option<U64>) {
    match n
    case None => Lacks(fields, name)
    case Some(value) => Has(fields, name, Number(value))
  }

  ghost predicate SaysFilter(v: JsonValue, f: Filter) {
    && v.Object?
    && SaysList(v.members, "kinds", NumbersJson(f.kinds), f.kinds == [])
    && SaysList(v.members, "authors", KeysJson(f.authors), f.authors == [])
    && SaysList(v.members, "#p", KeysJson(f.pTags), f.pTags == [])
    && SaysNumber(v.members, "since", f.since) && SaysNumber(v.members, "until", f.until) && SaysNumber(v.members, "limit", f.limit)
  }

  lemma KindsIff(fields: seq<Member>, name: string, kinds: seq<U16>)
    ensures OptionalNumberArray(fields, name) == Ok(kinds) <==> SaysList(fields, name, NumbersJson(kinds), kinds == [])
  {
    hide Has, Lacks, ParseU16s;
    FieldIff(fields, name, NumbersJson(kinds));
    var found := OptionalField(fields, name);
    if found.Some? && found.value.Array? {
      NumbersIff(found.value.items, kinds);
    }
  }

  lemma KeyListIff(fields: seq<Member>, name: string, keys: seq<Bytes32>)
    ensures OptionalKeyArray(fields, name) == Ok(keys) <==> SaysList(fields, name, KeysJson(keys), keys == [])
  {
    hide Has, Lacks, ParseKeys;
    FieldIff(fields, name, KeysJson(keys));
    var found := OptionalField(fields, name);
    if found.Some? && found.value.Array? {
      KeysIff(found.value.items, keys);
    }
  }

  lemma OptionalNumberIff(fields: seq<Member>, name: string, n: Option<U64>)
    ensures OptionalNumber(fields, name) == Ok(n) <==> SaysNumber(fields, name, n)
  {
    hide Has, Lacks;
    FieldIff(fields, name, Number(if n.Some? then n.value else 0));
  }

  lemma FilterIff(v: JsonValue, f: Filter)
    ensures ParseFilter(v) == Ok(f) <==> SaysFilter(v, f)
  {
    hide OptionalNumberArray, OptionalKeyArray, OptionalNumber, SaysList, SaysNumber, NumbersJson, KeysJson;
    if v.Object? {
      KindsIff(v.members, "kinds", f.kinds);
      KeyListIff(v.members, "authors", f.authors);
      KeyListIff(v.members, "#p", f.pTags);
      OptionalNumberIff(v.members, "since", f.since);
      OptionalNumberIff(v.members, "until", f.until);
      OptionalNumberIff(v.members, "limit", f.limit);
    }
  }

  ghost predicate SaysFilters(items: seq<JsonValue>, filters: seq<Filter>) {
    |items| == |filters| && forall i | 0 <= i < |items| :: SaysFilter(items[i], filters[i])
  }

  lemma {:induction false} FiltersIff(items: seq<JsonValue>, filters: seq<Filter>)
    ensures ParseFilters(items) == Ok(filters) <==> SaysFilters(items, filters)
  {
    hide ParseFilter, SaysFilter;
    if items != [] && filters != [] {
      FilterIff(items[0], filters[0]);
      FiltersIff(items[1..], filters[1..]);
      assert filters == [filters[0]] + filters[1..];
      if SaysFilters(items[1..], filters[1..]) && SaysFilter(items[0], filters[0]) {
        forall i | 0 <= i < |items| ensures SaysFilter(items[i], filters[i]) {
          if i > 0 {
            assert SaysFilter(items[1..][i - 1], filters[1..][i - 1]);
          }
        }
      }
      if SaysFilters(items, filters) {
        forall i | 0 <= i < |items| - 1 ensures SaysFilter(items[1..][i], filters[1..][i]) {
          assert SaysFilter(items[i + 1], filters[i + 1]);
        }
      }
    }
  }

  // ---- messages ----

  ghost predicate GoodId(id: string) {
    1 <= |Utf8.Encode(id)| <= 64
  }

  ghost predicate SaysClient(v: JsonValue, m: ClientMessage) {
    && v.Array?
    && match m {
         case EventMessage(e) => |v.items| == 2 && v.items[0] == Str("EVENT") && SaysEvent(v.items[1], e)
         case Req(id, filters) =>
           |v.items| >= 3 && v.items[0] == Str("REQ") && v.items[1] == Str(id) && GoodId(id) && SaysFilters(v.items[2..], filters)
         case Close(id) => v.items == [Str("CLOSE"), Str(id)] && GoodId(id)
         case AuthEvent(e) => |v.items| == 2 && v.items[0] == Str("AUTH") && SaysEvent(v.items[1], e)
       }
  }

  ghost predicate SaysRelay(v: JsonValue, m: RelayMessage) {
    && v.Array?
    && match m {
         case RelayEvent(id, e) =>
           |v.items| == 3 && v.items[0] == Str("EVENT") && v.items[1] == Str(id) && GoodId(id) && SaysEvent(v.items[2], e)
         case RelayOk(id, accepted, message) => v.items == [Str("OK"), Str(Hex.HexText(id)), Bool(accepted), Str(message)]
         case Eose(id) => v.items == [Str("EOSE"), Str(id)] && GoodId(id)
         case Closed(id, message) => v.items == [Str("CLOSED"), Str(id), Str(message)] && GoodId(id)
         case Notice(message) => v.items == [Str("NOTICE"), Str(message)]
         case AuthChallenge(challenge) => v.items == [Str("AUTH"), Str(challenge)]
       }
  }

  lemma IdIff(v: JsonValue, id: string)
    ensures ParseSubscriptionId(v) == Ok(id) <==> v == Str(id) && GoodId(id)
  {
    hide Utf8.Encode;
  }

  lemma ClientIff(items: seq<JsonValue>, m: ClientMessage)
    ensures ClientOfItems(items) == Ok(m) <==> SaysClient(Array(items), m)
  {
    hide ParseEvent, ParseFilters, ParseSubscriptionId, SaysEvent, SaysFilters, GoodId;
    match m
    case EventMessage(e) => if |items| >= 2 { EventIff(items[1], e); }
    case Req(id, filters) =>
      if |items| >= 3 {
        IdIff(items[1], id);
        FiltersIff(items[2..], filters);
      }
    case Close(id) => if |items| >= 2 { IdIff(items[1], id); }
    case AuthEvent(e) => if |items| >= 2 { EventIff(items[1], e); }
  }

  lemma RelayIff(items: seq<JsonValue>, m: RelayMessage)
    ensures RelayOfItems(items) == Ok(m) <==> SaysRelay(Array(items), m)
  {
    hide ParseEvent, ParseSubscriptionId, SaysEvent, GoodId, Hex.DecodeFixed, Hex.HexText;
    match m
    case RelayEvent(id, e) =>
      if |items| >= 3 {
        IdIff(items[1], id);
        EventIff(items[2], e);
      }
    case RelayOk(id, _, _) =>
      if |items| >= 2 && items[1].Str? {
        Hex.DecodeFixedIff(32, items[1].text, id);
      }
    case Eose(id) => if |items| >= 2 { IdIff(items[1], id); }
    case Closed(id, _) => if |items| >= 2 { IdIff(items[1], id); }
    case Notice(_) =>
    case AuthChallenge(_) =>
  }

  /** A text decodes to a message exactly when it spells a tree that says the message. */
  lemma DecodeClientIff(s: Bytes, m: ClientMessage)
    requires Utf8.Valid(s)
    ensures DecodeClient(s) == Ok(m) <==> exists v :: JsonSpelling.SpacedValue(v, s) && SaysClient(v, m)
  {
    hide Parse, ClientOfItems, SaysClient, JsonSpelling.SpacedValue;
    forall v ensures Parse(s) == Ok(v) <==> JsonSpelling.SpacedValue(v, s) {
      JsonSpelling.ParseIff(s, v);
    }
    forall v: JsonValue | v.Array? ensures ClientOfItems(v.items) == Ok(m) <==> SaysClient(v, m) {
      ClientIff(v.items, m);
      assert v == Array(v.items);
    }
    forall v | SaysClient(v, m) ensures v.Array? {
      ClientIsArray(v, m);
    }
  }

  lemma ClientIsArray(v: JsonValue, m: ClientMessage)
    requires SaysClient(v, m)
    ensures v.Array?
  {
  }

  lemma DecodeRelayIff(s: Bytes, m: RelayMessage)
    requires Utf8.Valid(s)
    ensures DecodeRelay(s) == Ok(m) <==> exists v :: JsonSpelling.SpacedValue(v, s) && SaysRelay(v, m)
  {
    hide Parse, RelayOfItems, SaysRelay, JsonSpelling.SpacedValue;
    forall v ensures Parse(s) == Ok(v) <==> JsonSpelling.SpacedValue(v, s) {
      JsonSpelling.ParseIff(s, v);
    }
    forall v: JsonValue | v.Array? ensures RelayOfItems(v.items) == Ok(m) <==> SaysRelay(v, m) {
      RelayIff(v.items, m);
      assert v == Array(v.items);
    }
    forall v | SaysRelay(v, m) ensures v.Array? {
      RelayIsArray(v, m);
    }
  }

  lemma RelayIsArray(v: JsonValue, m: RelayMessage)
    requires SaysRelay(v, m)
    ensures v.Array?
  {
  }
}
