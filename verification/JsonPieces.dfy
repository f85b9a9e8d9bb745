/** Arrays and objects appended element by element, and the parts of events that both the
    messages and the canonical text are made of. */
module JsonPieces {
  import opened Base
  import opened NostrTypes
  import opened Json
  import opened JsonLayout
  import opened JsonWriter
  import opened Messages
  import Hex

  method HexOf(bytes: Bytes) returns (text: string)
    ensures text == Hex.HexText(bytes)
  {
    var scratch := new Byte[2 * |bytes|];
    var r := Hex.EncodeLowerHexTo(bytes, scratch);
    text := r.value;
  }

  // ---- arrays, item by item ----

  lemma ItemsSoFar(items: seq<JsonValue>, k: nat)
    requires k < |items|
    ensures PrintItems(items[..k + 1]) == PrintItems(items[..k]) + Comma(k) + Print(items[k])
    ensures |PrintItems(items[..k + 1])| <= |PrintItems(items)|
  {
    hide PrintItems, Print, Comma;
    ItemsStep(items, k);
    ItemsPrefix(items, k + 1);
  }

  /** After `start`, the first `k` items have been written. */
  ghost predicate AtItem(w: Writer, start: Bytes, items: seq<JsonValue>, k: nat)
    requires k <= |items|
    reads w, w.out
  {
    w.Valid() && w.Written() == start + PrintItems(items[..k])
  }

  /** Either the next item is written too, or the array has no room. */
  ghost predicate ItemWrote(w: Writer, start: Bytes, items: seq<JsonValue>, k: nat, r: Result<(), NostrError>)
    requires k <= |items|
    reads w, w.out
  {
    match r
    case Ok(_) => AtItem(w, start, items, k)
    case Err(e) => w.Valid() && TooSmall(w.out.Length, e) && |start| + |PrintItems(items)| > w.out.Length
  }

  method OpenArray(w: Writer, ghost items: seq<JsonValue>) returns (r: Result<(), NostrError>)
    requires w.Valid()
    modifies w`len, w.out
    ensures ItemWrote(w, old(w.Written()) + [0x5B], items, 0, r)
    ensures r.Ok? <==> |old(w.Written())| < w.out.Length
  {
    EmptyLayouts();
    assert items[..0] == [];
    r := w.PushByte(0x5B);
  }

  method CloseArray(w: Writer, ghost before: Bytes, ghost items: seq<JsonValue>) returns (r: Result<(), NostrError>)
    requires AtItem(w, before + [0x5B], items, |items|)
    modifies w`len, w.out
    ensures w.Valid() && Wrote(w.out.Length, before, Print(Array(items)), r, w.Written())
  {
    hide PrintItems;
    assert items[..|items|] == items;
    r := w.PushByte(0x5D);
  }

  lemma ArrayLength(items: seq<JsonValue>)
    ensures |Print(Array(items))| == |PrintItems(items)| + 2
  {
  }

  method PushComma(w: Writer, k: nat) returns (r: Result<(), NostrError>)
    requires w.Valid()
    modifies w`len, w.out
    ensures w.Valid() && Wrote(w.out.Length, old(w.Written()), Comma(k), r, w.Written())
  {
    if k > 0 {
      r := w.PushByte(0x2C);
    } else {
      r := w.WriteBytes([]);
    }
  }

  method WriteStringItem(w: Writer, ghost start: Bytes, ghost items: seq<JsonValue>, k: nat, text: string)
    returns (r: Result<(), NostrError>)
    requires k < |items| && items[k] == Str(text) && AtItem(w, start, items, k)
    modifies w`len, w.out
    ensures ItemWrote(w, start, items, k + 1, r)
  {
    hide PrintItems, PrintString, Comma;
    ItemsSoFar(items, k);
    var _ :- PushComma(w, k);
    r := w.WriteJsonString(text);
  }

  method WriteNumberItem(w: Writer, ghost start: Bytes, ghost items: seq<JsonValue>, k: nat, n: U64)
    returns (r: Result<(), NostrError>)
    requires k < |items| && items[k] == Number(n) && AtItem(w, start, items, k)
    modifies w`len, w.out
    ensures ItemWrote(w, start, items, k + 1, r)
  {
    hide PrintItems, Digits, Comma;
    ItemsSoFar(items, k);
    var _ :- PushComma(w, k);
    r := w.WriteU64(n);
  }

  method WriteBoolItem(w: Writer, ghost start: Bytes, ghost items: seq<JsonValue>, k: nat, b: bool)
    returns (r: Result<(), NostrError>)
    requires k < |items| && items[k] == Bool(b) && AtItem(w, start, items, k)
    modifies w`len, w.out
    ensures ItemWrote(w, start, items, k + 1, r)
  {
    hide PrintItems, Comma;
    ItemsSoFar(items, k);
    var _ :- PushComma(w, k);
    r := w.WriteBool(b);
  }

  method WriteTag(w: Writer, tag: Tag) returns (r: Result<(), NostrError>)
    requires w.Valid()
    modifies w`len, w.out
    ensures w.Valid() && Wrote(w.out.Length, old(w.Written()), Print(Array(Strs(tag))), r, w.Written())
  {
    hide AtItem, PrintItems, Print;
    ghost var items := Strs(tag);
    ghost var before := w.Written();
    ArrayLength(items);
    var _ :- OpenArray(w, items);
    for i := 0 to |tag|
      invariant AtItem(w, before + [0x5B], items, i)
    {
      var _ :- WriteStringItem(w, before + [0x5B], items, i, tag[i]);
    }
    r := CloseArray(w, before, items);
  }

  method WriteTagItem(w: Writer, ghost start: Bytes, ghost items: seq<JsonValue>, k: nat, tag: Tag)
    returns (r: Result<(), NostrError>)
    requires k < |items| && items[k] == Array(Strs(tag)) && AtItem(w, start, items, k)
    modifies w`len, w.out
    ensures ItemWrote(w, start, items, k + 1, r)
  {
    hide PrintItems, Print, Strs, Comma;
    ItemsSoFar(items, k);
    var _ :- PushComma(w, k);
    r := WriteTag(w, tag);
  }

  method WriteTags(w: Writer, tags: seq<Tag>) returns (r: Result<(), NostrError>)
    requires w.Valid()
    modifies w`len, w.out
    ensures w.Valid() && Wrote(w.out.Length, old(w.Written()), Print(TagsJson(tags)), r, w.Written())
  {
    hide AtItem, PrintItems, Print, Strs;
    ghost var items := TagsJson(tags).items;
    ghost var before := w.Written();
    ArrayLength(items);
    var _ :- OpenArray(w, items);
    for i := 0 to |tags|
      invariant AtItem(w, before + [0x5B], items, i)
    {
      var _ :- WriteTagItem(w, before + [0x5B], items, i, tags[i]);
    }
    r := CloseArray(w, before, items);
  }

  // ---- objects, member by member ----

  lemma MembersSoFar(members: seq<Member>, k: nat)
    requires k < |members|
    ensures PrintMembers(members[..k + 1]) == PrintMembers(members[..k]) + (Comma(k) + PrintMember(members[k]))
    ensures |PrintMembers(members[..k + 1])| <= |PrintMembers(members)|
  {
    hide PrintMembers, PrintMember, Comma;
    MembersStep(members, k);
    MembersPrefix(members, k + 1);
    assert PrintMembers(members[..k]) + Comma(k) + PrintMember(members[k])
        == PrintMembers(members[..k]) + (Comma(k) + PrintMember(members[k]));
  }

  /** After `start`, the first `k` members have been written. */
  ghost predicate AtMember(w: Writer, start: Bytes, members: seq<Member>, k: nat)
    requires k <= |members|
    reads w, w.out
  {
    w.Valid() && w.Written() == start + PrintMembers(members[..k])
  }

  /** Either the next member is written too, or the whole object has no room. */
  ghost predicate MemberWrote(w: Writer, start: Bytes, members: seq<Member>, k: nat, r: Result<(), NostrError>)
    requires k <= |members|
    reads w, w.out
  {
    match r
    case Ok(_) => AtMember(w, start, members, k)
    case Err(e) => w.Valid() && TooSmall(w.out.Length, e) && |start| + |PrintMembers(members)| > w.out.Length
  }

  method WriteStringMember(w: Writer, ghost start: Bytes, ghost members: seq<Member>, k: nat, name: string, text: string)
    returns (r: Result<(), NostrError>)
    requires k < |members| && members[k] == Member(name, Str(text)) && AtMember(w, start, members, k)
    modifies w`len, w.out
    ensures MemberWrote(w, start, members, k + 1, r)
  {
    hide PrintString, PrintMembers;
    MembersSoFar(members, k);
    var _ :- w.WriteName(k, name);
    r := w.WriteJsonString(text);
  }

  method WriteNumberMember(w: Writer, ghost start: Bytes, ghost members: seq<Member>, k: nat, name: string, n: U64)
    returns (r: Result<(), NostrError>)
    requires k < |members| && members[k] == Member(name, Number(n)) && AtMember(w, start, members, k)
    modifies w`len, w.out
    ensures MemberWrote(w, start, members, k + 1, r)
  {
    hide PrintString, PrintMembers, Digits;
    MembersSoFar(members, k);
    var _ :- w.WriteName(k, name);
    r := w.WriteU64(n);
  }

  method WriteTagsMember(w: Writer, ghost start: Bytes, ghost members: seq<Member>, k: nat, name: string, tags: seq<Tag>)
    returns (r: Result<(), NostrError>)
    requires k < |members| && members[k] == Member(name, TagsJson(tags)) && AtMember(w, start, members, k)
    modifies w`len, w.out
    ensures MemberWrote(w, start, members, k + 1, r)
  {
    hide PrintString, PrintMembers, TagsJson, Print;
    MembersSoFar(members, k);
    var _ :- w.WriteName(k, name);
    r := WriteTags(w, tags);
  }

  method OpenObject(w: Writer, ghost members: seq<Member>) returns (r: Result<(), NostrError>)
    requires w.Valid()
    modifies w`len, w.out
    ensures MemberWrote(w, old(w.Written()) + [0x7B], members, 0, r)
  {
    EmptyLayouts();
    assert members[..0] == [];
    r := w.PushByte(0x7B);
  }

  method CloseObject(w: Writer, ghost before: Bytes, ghost members: seq<Member>) returns (r: Result<(), NostrError>)
    requires AtMember(w, before + [0x7B], members, |members|)
    modifies w`len, w.out
    ensures w.Valid() && Wrote(w.out.Length, before, Print(Object(members)), r, w.Written())
  {
    hide PrintMembers;
    assert members[..|members|] == members;
    r := w.PushByte(0x7D);
  }

  lemma ObjectLength(members: seq<Member>)
    ensures |Print(Object(members))| == |PrintMembers(members)| + 2
  {
  }
}
