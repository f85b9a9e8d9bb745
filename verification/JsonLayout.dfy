/** How printed arrays, objects, strings and numbers grow piece by piece: what a writer
    that appends needs. */
module JsonLayout {
  import opened Base
  import opened Json

  function Comma(k: nat): (s: Bytes)
    ensures |s| <= 1
  {
    if k == 0 then [] else [0x2C]
  }

  lemma {:induction false} ItemsSnoc(items: seq<JsonValue>, v: JsonValue)
    ensures PrintItems(items + [v]) == PrintItems(items) + Comma(|items|) + Print(v)
  {
    hide Print;
    if items == [] {
      assert items + [v] == [v];
    } else {
      assert (items + [v])[1..] == items[1..] + [v];
      ItemsSnoc(items[1..], v);
      if |items| == 1 {
        assert PrintItems(items[1..]) + Comma(0) + Print(v) == Print(v);
      }
    }
  }

  lemma ItemsStep(items: seq<JsonValue>, k: nat)
    requires k < |items|
    ensures PrintItems(items[..k + 1]) == PrintItems(items[..k]) + Comma(k) + Print(items[k])
  {
    assert items[..k + 1] == items[..k] + [items[k]];
    ItemsSnoc(items[..k], items[k]);
  }

  lemma {:induction false} ItemsPrefix(items: seq<JsonValue>, k: nat)
    requires k <= |items|
    ensures |PrintItems(items[..k])| <= |PrintItems(items)|
    decreases |items| - k
  {
    hide PrintItems, Print;
    if k < |items| {
      ItemsStep(items, k);
      ItemsPrefix(items, k + 1);
    } else {
      assert items[..k] == items;
    }
  }

  lemma {:induction false} MembersSnoc(members: seq<Member>, m: Member)
    ensures PrintMembers(members + [m]) == PrintMembers(members) + Comma(|members|) + PrintMember(m)
  {
    hide PrintMember;
    if members == [] {
      assert members + [m] == [m];
    } else {
      assert (members + [m])[1..] == members[1..] + [m];
      MembersSnoc(members[1..], m);
      if |members| == 1 {
        assert PrintMembers(members[1..]) + Comma(0) + PrintMember(m) == PrintMember(m);
      }
    }
  }

  lemma MembersStep(members: seq<Member>, k: nat)
    requires k < |members|
    ensures PrintMembers(members[..k + 1]) == PrintMembers(members[..k]) + Comma(k) + PrintMember(members[k])
  {
    assert members[..k + 1] == members[..k] + [members[k]];
    MembersSnoc(members[..k], members[k]);
  }

  lemma {:induction false} MembersPrefix(members: seq<Member>, k: nat)
    requires k <= |members|
    ensures |PrintMembers(members[..k])| <= |PrintMembers(members)|
    decreases |members| - k
  {
    hide PrintMembers, PrintMember;
    if k < |members| {
      MembersStep(members, k);
      MembersPrefix(members, k + 1);
    } else {
      assert members[..k] == members;
    }
  }

  lemma {:induction false} EscapeSplit(text: string, k: nat)
    requires k <= |text|
    ensures Escape(text) == Escape(text[..k]) + Escape(text[k..])
  {
    hide EscapeChar;
    if k == 0 {
      assert text[0..] == text;
    } else {
      EscapeSplit(text[1..], k - 1);
      assert text[..k][1..] == text[1..][..k - 1] && text[1..][k - 1..] == text[k..];
    }
  }

  lemma EscapeStep(text: string, k: nat)
    requires k < |text|
    ensures Escape(text[..k + 1]) == Escape(text[..k]) + EscapeChar(text[k])
    ensures |Escape(text[..k + 1])| <= |Escape(text)|
  {
    hide EscapeChar;
    var t := text[..k + 1];
    EscapeSplit(t, k);
    assert t[..k] == text[..k] && t[k..] == [text[k]];
    assert Escape([text[k]]) == EscapeChar(text[k]) + Escape([]);
    EscapeSplit(text, k + 1);
  }

  lemma EmptyLayouts()
    ensures PrintItems([]) == [] && PrintMembers([]) == [] && Escape([]) == []
  {
  }

  function Pow10(k: nat): nat {
    if k == 0 then 1 else 10 * Pow10(k - 1)
  }

  lemma {:induction false} DigitsFit(n: nat, k: nat)
    requires k > 0 && n < Pow10(k)
    ensures |Digits(n)| <= k
  {
    if n >= 10 {
      DigitsFit(n / 10, k - 1);
    }
  }

  /** The digits still to be written in front, once `v` is what remains of the number. */
  function DigitsAhead(v: nat): (s: Bytes)
    ensures s == [] <==> v == 0
  {
    if v == 0 then [] else Digits(v)
  }

  lemma DigitsStep(v: nat, tail: Bytes)
    ensures Digits(v) + tail == DigitsAhead(v / 10) + ([0x30 + v % 10] + tail)
    ensures v > 0 ==> DigitsAhead(v) == Digits(v)
  {
    assert Digits(v) == DigitsAhead(v / 10) + [0x30 + v % 10];
  }

  /** Twenty digits hold every 64-bit number. */
  lemma U64Fits(n: U64)
    ensures |Digits(n)| <= 20
  {
    assert Pow10(5) == 10_0000;
    assert Pow10(10) == 100_0000_0000;
    assert Pow10(15) == 1000_0000_0000_0000;
    assert Pow10(20) == 1_0000_0000_0000_0000_0000;
    DigitsFit(n, 20);
  }
}
