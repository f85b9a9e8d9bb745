/** How the relay keeps text and events: UTF-8 bytes within fixed limits, read back as the
    text and the event they came from. */
module Stored {
  import opened Base
  import opened NostrTypes
  import Hex
  import Utf8

  /** An event as stored; a tag is the list of its values' bytes. */
  datatype Stored = Stored(id: Bytes32, pubkey: Bytes32, createdAt: U64, kind: U16, sig: Bytes64,
                           content: Bytes, tags: seq<seq<Bytes>>)

  // ---- text ----

  function StoreString(max: nat, text: string): Result<Bytes, NostrError> {
    var bytes := Utf8.Encode(text);
    if |bytes| > max then Err(StoredStringTooLarge(|bytes|, max)) else Ok(bytes)
  }

  function AsStr(bytes: Bytes): Result<string, NostrError> {
    match Utf8.Decode(bytes)
    case None => Err(Utf8Error)
    case Some(text) => Ok(text)
  }

  lemma StringReadsBack(text: string)
    ensures AsStr(Utf8.Encode(text)) == Ok(text)
  {
    Utf8.DecodeEncode(text);
  }

  // ---- tags ----

  function StoreValues(values: seq<string>): Result<seq<Bytes>, NostrError> {
    if values == [] then Ok([])
    else if ByteLen(values[0]) > MAX_TAG_VALUE_CHARS then Err(TagValueTooLarge(ByteLen(values[0]), MAX_TAG_VALUE_CHARS))
    else
      var tail :- StoreValues(values[1..]);
      Ok([Utf8.Encode(values[0])] + tail)
  }

  function StoreTag(values: seq<string>): Result<seq<Bytes>, NostrError> {
    if |values| > MAX_TAG_VALUES then Err(TagValueCountTooLarge(|values|, MAX_TAG_VALUES)) else StoreValues(values)
  }

  function StoreEach(tags: seq<Tag>): Result<seq<seq<Bytes>>, NostrError> {
    if tags == [] then Ok([])
    else
      var first :- StoreTag(tags[0]);
      var tail :- StoreEach(tags[1..]);
      Ok([first] + tail)
  }

  function StoreTags(tags: seq<Tag>): Result<seq<seq<Bytes>>, NostrError> {
    if |tags| > MAX_TAGS then Err(TagCountTooLarge(|tags|, MAX_TAGS)) else StoreEach(tags)
  }

  function FromEvent(e: Event): Result<Stored, NostrError> {
    var content :- StoreString(MAX_CONTENT_CHARS, e.content);
    var tags :- StoreTags(e.tags);
    Ok(Stored(e.id, e.pubkey, e.createdAt, e.kind, e.sig, content, tags))
  }

  function ReadValues(values: seq<Bytes>): Result<seq<string>, NostrError> {
    if values == [] then Ok([])
    else
      var first :- AsStr(values[0]);
      var tail :- ReadValues(values[1..]);
      Ok([first] + tail)
  }

  function ReadTags(tags: seq<seq<Bytes>>): Result<seq<seq<string>>, NostrError> {
    if tags == [] then Ok([])
    else
      var first :- ReadValues(tags[0]);
      var tail :- ReadTags(tags[1..]);
      Ok([first] + tail)
  }

  /** A tag reference cannot be made of no values. */
  function MakeTags(tags: seq<seq<string>>): Result<seq<Tag>, NostrError> {
    if tags == [] then Ok([])
    else if tags[0] == [] then Err(TagEmpty)
    else
      var tail :- MakeTags(tags[1..]);
      Ok([tags[0]] + tail)
  }

  function WithEvent(s: Stored): Result<Event, NostrError> {
    var texts :- ReadTags(s.tags);
    var tags :- MakeTags(texts);
    var content :- AsStr(s.content);
    var _ :- ValidateContentLen(content);
    Ok(Event(s.id, s.pubkey, s.createdAt, s.kind, tags, content, s.sig))
  }

  // ---- what fits is kept exactly ----

  predicate ValuesFit(values: seq<string>) {
    forall i | 0 <= i < |values| :: ByteLen(values[i]) <= MAX_TAG_VALUE_CHARS
  }

  predicate TagFits(values: seq<string>) {
    |values| <= MAX_TAG_VALUES && ValuesFit(values)
  }

  predicate Fits(e: Event) {
    && ByteLen(e.content) <= MAX_CONTENT_CHARS && |e.tags| <= MAX_TAGS
    && forall i | 0 <= i < |e.tags| :: TagFits(e.tags[i])
  }

  lemma {:induction false} ValuesRoundTrip(values: seq<string>)
    ensures StoreValues(values).Ok? <==> ValuesFit(values)
    ensures StoreValues(values).Ok? ==>
      |StoreValues(values).value| == |values| && ReadValues(StoreValues(values).value) == Ok(values)
  {
    if values != [] {
      ValuesRoundTrip(values[1..]);
      StringReadsBack(values[0]);
      assert ValuesFit(values) <==> ByteLen(values[0]) <= MAX_TAG_VALUE_CHARS && ValuesFit(values[1..]);
      assert values == [values[0]] + values[1..];
    }
  }

  lemma {:induction false} TagsRoundTrip(tags: seq<Tag>)
    ensures StoreEach(tags).Ok? <==> forall i | 0 <= i < |tags| :: TagFits(tags[i])
    ensures StoreEach(tags).Ok? ==>
      |StoreEach(tags).value| == |tags| && ReadTags(StoreEach(tags).value) == Ok(tags) && MakeTags(tags) == Ok(tags)
  {
    hide ValuesFit, StoreValues, ReadValues;
    if tags != [] {
      ValuesRoundTrip(tags[0]);
      TagsRoundTrip(tags[1..]);
      assert tags == [tags[0]] + tags[1..];
      if StoreEach(tags).Ok? {
        var stored := StoreEach(tags).value;
        assert stored[1..] == StoreEach(tags[1..]).value && stored[0] == StoreTag(tags[0]).value;
      }
    }
  }

  /** Storing succeeds exactly within the limits, and what is stored is the event. */
  lemma StoredRoundTrip(e: Event)
    ensures FromEvent(e).Ok? <==> Fits(e)
    ensures FromEvent(e).Ok? ==> WithEvent(FromEvent(e).value) == Ok(e)
  {
    hide StoreEach, ReadTags, MakeTags;
    TagsRoundTrip(e.tags);
    StringReadsBack(e.content);
  }

  // ---- recipients ----

  function ValueAt(tag: seq<Bytes>, index: nat): Result<Option<string>, NostrError> {
    if index >= |tag| then Ok(None)
    else
      var text :- AsStr(tag[index]);
      Ok(Some(text))
  }

  /** Keys of the "p" tags, as many as there is room for. */
  function CollectPTags(tags: seq<seq<Bytes>>, room: nat): Result<seq<Bytes32>, NostrError>
    decreases |tags|
  {
    if tags == [] then Ok([])
    else
      var name :- ValueAt(tags[0], 0);
      if name != Some("p") || room == 0 then CollectPTags(tags[1..], room)
      else
        var value :- ValueAt(tags[0], 1);
        if value.None? || Hex.DecodeFixed(32, value.value).Err? then CollectPTags(tags[1..], room)
        else
          var tail :- CollectPTags(tags[1..], room - 1);
          Ok([Hex.DecodeFixed(32, value.value).value] + tail)
  }

  /** The recipients of an event: the well-formed keys of all its "p" tags, in order. */
  function Recipients(tags: seq<Tag>): (keys: seq<Bytes32>)
    ensures |keys| <= |tags|
  {
    if tags == [] then []
    else
      var t := tags[0];
      (if t[0] == "p" && |t| > 1 && Hex.DecodeFixed(32, t[1]).Ok? then [Hex.DecodeFixed(32, t[1]).value] else [])
      + Recipients(tags[1..])
  }

  lemma {:induction false} StoredValueAt(values: seq<string>, index: nat)
    requires StoreValues(values).Ok?
    ensures ValueAt(StoreValues(values).value, index) == Ok(if index < |values| then Some(values[index]) else None)
    decreases |values|
  {
    ValuesRoundTrip(values);
    if values != [] {
      StringReadsBack(values[0]);
      var stored := StoreValues(values).value;
      assert stored[1..] == StoreValues(values[1..]).value;
      if 0 < index {
        StoredValueAt(values[1..], index - 1);
      }
    }
  }

  /** The scan loses no recipient as long as there is room for every tag. */
  lemma {:induction false} ScanFindsAllRecipients(tags: seq<Tag>, room: nat)
    requires StoreEach(tags).Ok? && |tags| <= room
    ensures CollectPTags(StoreEach(tags).value, room) == Ok(Recipients(tags))
    decreases |tags|
  {
    hide StoreValues, ValueAt, Hex.DecodeFixed;
    if tags != [] {
      var stored := StoreEach(tags).value;
      assert stored[0] == StoreTag(tags[0]).value && stored[1..] == StoreEach(tags[1..]).value;
      StoredValueAt(tags[0], 0);
      StoredValueAt(tags[0], 1);
      ScanFindsAllRecipients(tags[1..], room);
      ScanFindsAllRecipients(tags[1..], room - 1);
      assert [] + Recipients(tags[1..]) == Recipients(tags[1..]);
    }
  }

  // ---- the loops ----

  method StoreTagLoop(values: seq<string>) returns (r: Result<seq<Bytes>, NostrError>)
    ensures r == StoreTag(values)
  {
    if |values| > MAX_TAG_VALUES {
      return Err(TagValueCountTooLarge(|values|, MAX_TAG_VALUES));
    }
    var slots := new Bytes[MAX_TAG_VALUES](_ => []);
    assert slots[..0] == [] && values[0..] == values;
    ghost var whole := StoreValues(values);
    assert whole.Ok? ==> [] + whole.value == whole.value;
    for index := 0 to |values|
      invariant whole == Prepended(slots[..index], StoreValues(values[index..]))
    {
      var value := values[index];
      if ByteLen(value) > MAX_TAG_VALUE_CHARS {
        return Err(TagValueTooLarge(ByteLen(value), MAX_TAG_VALUE_CHARS));
      }
      ghost var done := slots[..index];
      assert values[index..][1..] == values[index + 1..];
      slots[index] := Utf8.Encode(value);
      assert slots[..index + 1] == done + [slots[index]];
      PrependedStep(done, slots[index], StoreValues(values[index + 1..]));
    }
    assert slots[..|values|] + [] == slots[..|values|];
    return Ok(slots[..|values|]);
  }

  ghost function Prepended<T>(done: seq<T>, r: Result<seq<T>, NostrError>): Result<seq<T>, NostrError> {
    match r
    case Err(e) => Err(e)
    case Ok(tail) => Ok(done + tail)
  }

  lemma PrependedStep<T>(done: seq<T>, x: T, r: Result<seq<T>, NostrError>)
    ensures r.Ok? ==> Prepended(done, Ok([x] + r.value)) == Prepended(done + [x], r)
  {
    if r.Ok? {
      assert done + ([x] + r.value) == done + [x] + r.value;
    }
  }

  method StoreTagsLoop(tags: seq<Tag>) returns (r: Result<seq<seq<Bytes>>, NostrError>)
    ensures r == StoreTags(tags)
  {
    hide StoreTag;
    if |tags| > MAX_TAGS {
      return Err(TagCountTooLarge(|tags|, MAX_TAGS));
    }
    var slots := new seq<Bytes>[MAX_TAGS](_ => []);
    assert slots[..0] == [] && tags[0..] == tags;
    ghost var whole := StoreEach(tags);
    assert whole.Ok? ==> [] + whole.value == whole.value;
    for index := 0 to |tags|
      invariant whole == Prepended(slots[..index], StoreEach(tags[index..]))
    {
      ghost var done := slots[..index];
      assert tags[index..][1..] == tags[index + 1..];
      var stored :- StoreTagLoop(tags[index]);
      slots[index] := stored;
      assert slots[..index + 1] == done + [stored];
      PrependedStep(done, stored, StoreEach(tags[index + 1..]));
    }
    assert slots[..|tags|] + [] == slots[..|tags|];
    return Ok(slots[..|tags|]);
  }

  method StoreEvent(e: Event) returns (r: Result<Stored, NostrError>)
    ensures r == FromEvent(e)
  {
    hide StoreTags;
    var content :- StoreString(MAX_CONTENT_CHARS, e.content);
    var tags :- StoreTagsLoop(e.tags);
    return Ok(Stored(e.id, e.pubkey, e.createdAt, e.kind, e.sig, content, tags));
  }

  method ScanPTags(s: Stored, out: array<Bytes32>) returns (r: Result<nat, NostrError>)
    modifies out
    ensures match CollectPTags(s.tags, out.Length) {
      case Err(e) => r == Err(e)
      case Ok(keys) => r == Ok(|keys|) && |keys| <= out.Length && out[..|keys|] == keys
    }
  {
    hide ValueAt, Hex.DecodeFixed;
    var count := 0;
    ghost var whole := CollectPTags(s.tags, out.Length);
    assert s.tags[0..] == s.tags && out[..0] == [];
    assert whole.Ok? ==> [] + whole.value == whole.value;
    for index := 0 to |s.tags|
      invariant count <= out.Length
      invariant whole == Prepended(out[..count], CollectPTags(s.tags[index..], out.Length - count))
    {
      ghost var rest := s.tags[index..];
      assert rest[0] == s.tags[index] && rest[1..] == s.tags[index + 1..];
      var tag := s.tags[index];
      var name :- ValueAt(tag, 0);
      if name != Some("p") || count == out.Length {
        continue;
      }
      var value :- ValueAt(tag, 1);
      if value.None? {
        continue;
      }
      var key := Hex.DecodeFixed(32, value.value);
      if key.Err? {
        continue;
      }
      ghost var done := out[..count];
      out[count] := key.value;
      count := count + 1;
      assert out[..count] == done + [key.value];
      PrependedStep(done, key.value, CollectPTags(s.tags[index + 1..], out.Length - count));
    }
    assert s.tags[|s.tags|..] == [];
    assert out[..count] + [] == out[..count];
    return Ok(count);
  }
}
