/** NIP-01 client and relay messages: the JSON tree each is written as, and the decoding
    of such trees ("Communication between clients and relays"). */
module Messages {
  import opened Base
  import opened NostrTypes
  import opened Json
  import Hex
  import Utf8

  datatype ClientMessage =
    | EventMessage(event: Event)
    | Req(subscriptionId: string, filters: seq<Filter>)
    | Close(subscriptionId: string)
    | AuthEvent(event: Event)

  datatype RelayMessage =
    | RelayEvent(subscriptionId: string, event: Event)
    | RelayOk(eventId: Bytes32, accepted: bool, message: string)
    | Eose(subscriptionId: string)
    | Closed(subscriptionId: string, message: string)
    | Notice(message: string)
    | AuthChallenge(challenge: string)

  // ---- what is written ----

  function Strs(values: seq<string>): (items: seq<JsonValue>)
    ensures |items| == |values|
  {
    seq(|values|, i requires 0 <= i < |values| => Str(values[i]))
  }

  function TagsJson(tags: seq<Tag>): JsonValue {
    Array(seq(|tags|, i requires 0 <= i < |tags| => Array(Strs(tags[i]))))
  }

  function EventMembers(e: Event): seq<Member> {
    [ Member("id", Str(Hex.HexText(e.id))),
      Member("pubkey", Str(Hex.HexText(e.pubkey))),
      Member("created_at", Number(e.createdAt)),
      Member("kind", Number(e.kind)),
      Member("tags", TagsJson(e.tags)),
      Member("content", Str(e.content)),
      Member("sig", Str(Hex.HexText(e.sig))) ]
  }

  function EventJson(e: Event): JsonValue {
    Object(EventMembers(e))
  }

  function NumbersJson(values: seq<U16>): JsonValue {
    Array(seq(|values|, i requires 0 <= i < |values| => Number(values[i])))
  }

  function KeysJson(keys: seq<Bytes32>): JsonValue {
    Array(seq(|keys|, i requires 0 <= i < |keys| => Str(Hex.HexText(keys[i]))))
  }

  function KindsMember(kinds: seq<U16>): seq<Member> {
    if kinds == [] then [] else [Member("kinds", NumbersJson(kinds))]
  }

  function KeysMember(name: string, keys: seq<Bytes32>): seq<Member> {
    if keys == [] then [] else [Member(name, KeysJson(keys))]
  }

  function NumberMember(name: string, value: Option<U64>): seq<Member> {
    if value.None? then [] else [Member(name, Number(value.value))]
  }

  /** A field that says nothing is not written. */
  function FilterMembers(f: Filter): seq<Member> {
    KindsMember(f.kinds) + (KeysMember("authors", f.authors) + (KeysMember("#p", f.pTags)
      + (NumberMember("since", f.since) + (NumberMember("until", f.until) + NumberMember("limit", f.limit)))))
  }

  function FilterJson(f: Filter): JsonValue {
    Object(FilterMembers(f))
  }

  function FiltersJson(filters: seq<Filter>): (items: seq<JsonValue>)
    ensures |items| == |filters|
  {
    seq(|filters|, i requires 0 <= i < |filters| => FilterJson(filters[i]))
  }

  function ClientItems(m: ClientMessage): seq<JsonValue> {
    match m
    case EventMessage(e) => [Str("EVENT"), EventJson(e)]
    case Req(id, filters) => [Str("REQ"), Str(id)] + FiltersJson(filters)
    case Close(id) => [Str("CLOSE"), Str(id)]
    case AuthEvent(e) => [Str("AUTH"), EventJson(e)]
  }

  function ClientJson(m: ClientMessage): JsonValue {
    Array(ClientItems(m))
  }

  function RelayItems(m: RelayMessage): seq<JsonValue> {
    match m
    case RelayEvent(id, e) => [Str("EVENT"), Str(id), EventJson(e)]
    case RelayOk(id, accepted, message) => [Str("OK"), Str(Hex.HexText(id)), Bool(accepted), Str(message)]
    case Eose(id) => [Str("EOSE"), Str(id)]
    case Closed(id, message) => [Str("CLOSED"), Str(id), Str(message)]
    case Notice(message) => [Str("NOTICE"), Str(message)]
    case AuthChallenge(challenge) => [Str("AUTH"), Str(challenge)]
  }

  function RelayJson(m: RelayMessage): JsonValue {
    Array(RelayItems(m))
  }

  /** The check both writers make before anything else of the message is written. */
  function ClientCheck(m: ClientMessage): Result<(), NostrError> {
    if m.Req? || m.Close? then ValidateSubscriptionId(m.subscriptionId) else Ok(())
  }

  function RelayCheck(m: RelayMessage): Result<(), NostrError> {
    if m.RelayEvent? || m.Eose? || m.Closed? then ValidateSubscriptionId(m.subscriptionId) else Ok(())
  }

  // ---- decoding ----

  function ExpectObject(v: JsonValue): Result<seq<Member>, NostrError> {
    if v.Object? then Ok(v.members) else Err(MalformedMessage)
  }

  function ExpectString(v: JsonValue): Result<string, NostrError> {
    if v.Str? then Ok(v.text) else Err(MalformedMessage)
  }

  function ExpectNumber(v: JsonValue): Result<U64, NostrError> {
    if v.Number? then Ok(v.n) else Err(MalformedMessage)
  }

  function ExpectBool(v: JsonValue): Result<bool, NostrError> {
    if v.Bool? then Ok(v.b) else Err(MalformedMessage)
  }

  function NumberToU16(n: U64): Result<U16, NostrError> {
    if n < 0x1_0000 then Ok(n) else Err(MalformedMessage)
  }

  /** The first member of that name; later ones are ignored. */
  function OptionalField(fields: seq<Member>, name: string): Option<JsonValue> {
    if fields == [] then None
    else if fields[0].name == name then Some(fields[0].value)
    else OptionalField(fields[1..], name)
  }

  function RequiredField(fields: seq<Member>, name: string): Result<JsonValue, NostrError> {
    match OptionalField(fields, name)
    case None => Err(MalformedMessage)
    case Some(v) => Ok(v)
  }

  function StringField(fields: seq<Member>, name: string): Result<string, NostrError> {
    var v :- RequiredField(fields, name);
    ExpectString(v)
  }

  function NumberField(fields: seq<Member>, name: string): Result<U64, NostrError> {
    var v :- RequiredField(fields, name);
    ExpectNumber(v)
  }

  function HexField(fields: seq<Member>, name: string, n: nat): (r: Result<Bytes, NostrError>)
    ensures r.Ok? ==> |r.value| == n
  {
    var text :- StringField(fields, name);
    Hex.DecodeFixed(n, text)
  }

  function ParseStrings(values: seq<JsonValue>): (r: Result<seq<string>, NostrError>)
    ensures r.Ok? ==> |r.value| == |values|
  {
    if values == [] then Ok([])
    else
      var first :- ExpectString(values[0]);
      var rest :- ParseStrings(values[1..]);
      Ok([first] + rest)
  }

  function ParseTag(v: JsonValue): Result<Tag, NostrError> {
    if !v.Array? then Err(MalformedMessage)
    else if v.items == [] then Err(TagEmpty)
    else ParseStrings(v.items)
  }

  function ParseTagList(values: seq<JsonValue>): Result<seq<Tag>, NostrError> {
    if values == [] then Ok([])
    else
      var first :- ParseTag(values[0]);
      var rest :- ParseTagList(values[1..]);
      Ok([first] + rest)
  }

  function ParseTags(v: JsonValue): Result<seq<Tag>, NostrError> {
    if v.Array? then ParseTagList(v.items) else Err(MalformedMessage)
  }

  function ParseEvent(v: JsonValue): Result<Event, NostrError> {
    var fields :- ExpectObject(v);
    var id :- HexField(fields, "id", 32);
    var pubkey :- HexField(fields, "pubkey", 32);
    var createdAt :- NumberField(fields, "created_at");
    var kindNumber :- NumberField(fields, "kind");
    var kind :- NumberToU16(kindNumber);
    var tagsValue :- RequiredField(fields, "tags");
    var tags :- ParseTags(tagsValue);
    var content :- StringField(fields, "content");
    var sig :- HexField(fields, "sig", 64);
    Ok(Event(id, pubkey, createdAt, kind, tags, content, sig))
  }

  function ParseU16s(values: seq<JsonValue>): Result<seq<U16>, NostrError> {
    if values == [] then Ok([])
    else
      var n :- ExpectNumber(values[0]);
      var first :- NumberToU16(n);
      var rest :- ParseU16s(values[1..]);
      Ok([first] + rest)
  }

  function ParseKeys(values: seq<JsonValue>): Result<seq<Bytes32>, NostrError> {
    if values == [] then Ok([])
    else
      var text :- ExpectString(values[0]);
      var first :- Hex.DecodeFixed(32, text);
      var rest :- ParseKeys(values[1..]);
      Ok([first] + rest)
  }

  function OptionalNumberArray(fields: seq<Member>, name: string): Result<seq<U16>, NostrError> {
    match OptionalField(fields, name)
    case None => Ok([])
    case Some(v) => if v.Array? then ParseU16s(v.items) else Err(MalformedMessage)
  }

  function OptionalKeyArray(fields: seq<Member>, name: string): Result<seq<Bytes32>, NostrError> {
    match OptionalField(fields, name)
    case None => Ok([])
    case Some(v) => if v.Array? then ParseKeys(v.items) else Err(MalformedMessage)
  }

  function OptionalNumber(fields: seq<Member>, name: string): Result<Option<U64>, NostrError> {
    match OptionalField(fields, name)
    case None => Ok(None)
    case Some(v) =>
      var n :- ExpectNumber(v);
      Ok(Some(n))
  }

  function ParseFilter(v: JsonValue): Result<Filter, NostrError> {
    var fields :- ExpectObject(v);
    var kinds :- OptionalNumberArray(fields, "kinds");
    var authors :- OptionalKeyArray(fields, "authors");
    var pTags :- OptionalKeyArray(fields, "#p");
    var since :- OptionalNumber(fields, "since");
    var until :- OptionalNumber(fields, "until");
    var limit :- OptionalNumber(fields, "limit");
    Ok(Filter(kinds, authors, pTags, since, until, limit))
  }

  function ParseFilters(values: seq<JsonValue>): Result<seq<Filter>, NostrError> {
    if values == [] then Ok([])
    else
      var first :- ParseFilter(values[0]);
      var rest :- ParseFilters(values[1..]);
      Ok([first] + rest)
  }

  /** A string accepted as a subscription id. */
  function ParseSubscriptionId(v: JsonValue): Result<string, NostrError> {
    var id :- ExpectString(v);
    var _ :- ValidateSubscriptionId(id);
    Ok(id)
  }

  function ClientOfItems(items: seq<JsonValue>): Result<ClientMessage, NostrError> {
    if items == [] || !items[0].Str? then Err(MalformedMessage)
    else
      var kind := items[0].text;
      if kind == "EVENT" then
        if |items| != 2 then Err(MalformedMessage)
        else
          var event :- ParseEvent(items[1]);
          Ok(EventMessage(event))
      else if kind == "REQ" then
        if |items| < 3 then Err(MalformedMessage)
        else
          var id :- ParseSubscriptionId(items[1]);
          var filters :- ParseFilters(items[2..]);
          Ok(Req(id, filters))
      else if kind == "CLOSE" then
        if |items| != 2 then Err(MalformedMessage)
        else
          var id :- ParseSubscriptionId(items[1]);
          Ok(Close(id))
      else if kind == "AUTH" then
        if |items| != 2 then Err(MalformedMessage)
        else
          var event :- ParseEvent(items[1]);
          Ok(AuthEvent(event))
      else Err(UnsupportedMessage)
  }

  function RelayOfItems(items: seq<JsonValue>): Result<RelayMessage, NostrError> {
    if items == [] || !items[0].Str? then Err(MalformedMessage)
    else
      var kind := items[0].text;
      if kind == "EVENT" then
        if |items| != 3 then Err(MalformedMessage)
        else
          var id :- ParseSubscriptionId(items[1]);
          var event :- ParseEvent(items[2]);
          Ok(RelayEvent(id, event))
      else if kind == "OK" then
        if |items| != 4 then Err(MalformedMessage)
        else
          var text :- ExpectString(items[1]);
          var id :- Hex.DecodeFixed(32, text);
          var accepted :- ExpectBool(items[2]);
          var message :- ExpectString(items[3]);
          Ok(RelayOk(id, accepted, message))
      else if kind == "EOSE" then
        if |items| != 2 then Err(MalformedMessage)
        else
          var id :- ParseSubscriptionId(items[1]);
          Ok(Eose(id))
      else if kind == "CLOSED" then
        if |items| != 3 then Err(MalformedMessage)
        else
          var id :- ParseSubscriptionId(items[1]);
          var message :- ExpectString(items[2]);
          Ok(Closed(id, message))
      else if kind == "NOTICE" then
        if |items| != 2 then Err(MalformedMessage)
        else
          var message :- ExpectString(items[1]);
          Ok(Notice(message))
      else if kind == "AUTH" then
        if |items| != 2 then Err(MalformedMessage)
        else
          var challenge :- ExpectString(items[1]);
          Ok(AuthChallenge(challenge))
      else Err(UnsupportedMessage)
  }

  function DecodeClient(s: Bytes): Result<ClientMessage, NostrError> {
    var v :- Parse(s);
    if v.Array? then ClientOfItems(v.items) else Err(MalformedMessage)
  }

  function DecodeRelay(s: Bytes): Result<RelayMessage, NostrError> {
    var v :- Parse(s);
    if v.Array? then RelayOfItems(v.items) else Err(MalformedMessage)
  }
}
