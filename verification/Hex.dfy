/** Lower-case hexadecimal: the only spelling the source accepts for keys, ids,
    signatures and envelope content. */
module Hex {
  import opened Base
  import opened NostrTypes
  import Json
  import Utf8

  function NibbleChar(v: nat): (c: char)
    requires v < 16
    ensures c as int == Json.HexNibble(v)
  {
    Json.HexNibble(v) as char
  }

  lemma DigitIs(v: nat)
    requires v < 16
    ensures NibbleChar(v) == "0123456789abcdef"[v]
  {
  }

  function HexText(bytes: Bytes): (text: string)
    ensures |text| == 2 * |bytes| && Utf8.Ascii(text)
    ensures forall i | 0 <= i < |bytes| ::
      text[2 * i] == NibbleChar(bytes[i] / 16) && text[2 * i + 1] == NibbleChar(bytes[i] % 16)
  {
    if bytes == [] then []
    else [NibbleChar(bytes[0] / 16), NibbleChar(bytes[0] % 16)] + HexText(bytes[1..])
  }

  /** Two digits for each byte, high one first. */
  ghost predicate Spells(s: Bytes, bytes: Bytes) {
    |s| == 2 * |bytes| && forall i | 0 <= i < |bytes| :: PairSpells(s, bytes, i)
  }

  ghost predicate PairSpells(s: Bytes, bytes: Bytes, i: nat)
    requires |s| == 2 * |bytes| && i < |bytes|
  {
    s[2 * i] == Json.HexNibble(bytes[i] / 16) && s[2 * i + 1] == Json.HexNibble(bytes[i] % 16)
  }

  lemma HexTextBytes(bytes: Bytes)
    ensures Spells(Utf8.Encode(HexText(bytes)), bytes)
  {
    Utf8.EncodeAscii(HexText(bytes));
  }

  lemma SpellingUnique(s: Bytes, t: Bytes, bytes: Bytes)
    requires Spells(s, bytes) && Spells(t, bytes)
    ensures s == t
  {
    forall i | 0 <= i < |s| ensures s[i] == t[i] {
      assert i == 2 * (i / 2) || i == 2 * (i / 2) + 1;
      assert PairSpells(s, bytes, i / 2) && PairSpells(t, bytes, i / 2);
    }
  }

  function DecodeNibble(b: Byte, index: nat): Result<nat, NostrError> {
    if 0x30 <= b <= 0x39 then Ok(b - 0x30)
    else if 0x61 <= b <= 0x66 then Ok(b - 0x61 + 10)
    else if 0x41 <= b <= 0x46 then Err(NonCanonicalHex(index, b))
    else Err(InvalidHexChar(index, b))
  }

  /** The bytes spelled from pair `from` on; the first bad digit decides the error. */
  function DecodePairs(s: Bytes, from: nat): (r: Result<Bytes, NostrError>)
    requires |s| % 2 == 0 && 2 * from <= |s|
    ensures r.Ok? ==> |r.value| == |s| / 2 - from
    decreases |s| - 2 * from
  {
    if 2 * from == |s| then Ok([])
    else
      var high :- DecodeNibble(s[2 * from], 2 * from);
      var low :- DecodeNibble(s[2 * from + 1], 2 * from + 1);
      var tail :- DecodePairs(s, from + 1);
      Ok([16 * high + low] + tail)
  }

  function DecodeLowerHex(s: Bytes, available: nat): Result<Bytes, NostrError> {
    if |s| % 2 != 0 then Err(OddHexLength(|s|))
    else if available < |s| / 2 then Err(OutputTooSmall(|s| / 2, available))
    else DecodePairs(s, 0)
  }

  function DecodeFixed(n: nat, text: string): (r: Result<Bytes, NostrError>)
    ensures r.Ok? ==> |r.value| == n
  {
    var s := Utf8.Encode(text);
    if |s| != 2 * n then Err(HexLength(2 * n, |s|)) else DecodeLowerHex(s, n)
  }

  lemma NibbleRoundTrip(v: nat, index: nat)
    requires v < 16
    ensures DecodeNibble(Json.HexNibble(v), index) == Ok(v)
  {
  }

  lemma {:induction false} DecodePairsOfHex(bytes: Bytes, s: Bytes, from: nat)
    requires Spells(s, bytes) && from <= |bytes|
    ensures DecodePairs(s, from) == Ok(bytes[from..])
    decreases |bytes| - from
  {
    hide DecodeNibble, Json.HexNibble;
    if from < |bytes| {
      var b: int := bytes[from];
      assert PairSpells(s, bytes, from);
      DecodePairsOfHex(bytes, s, from + 1);
      NibbleRoundTrip(b / 16, 2 * from);
      NibbleRoundTrip(b % 16, 2 * from + 1);
      assert 16 * (b / 16) + b % 16 == b;
      assert bytes[from..] == [bytes[from]] + bytes[from + 1..];
    } else {
      assert bytes[from..] == [];
    }
  }

  lemma NibbleOfDecode(b: Byte, index: nat)
    requires DecodeNibble(b, index).Ok?
    ensures DecodeNibble(b, index).value < 16 && Json.HexNibble(DecodeNibble(b, index).value) == b
  {
  }

  lemma {:induction false} PairsSpell(s: Bytes, from: nat, bytes: Bytes)
    requires |s| == 2 * |bytes| && from <= |bytes| && DecodePairs(s, from) == Ok(bytes[from..])
    ensures forall i | from <= i < |bytes| :: PairSpells(s, bytes, i)
    decreases |bytes| - from
  {
    hide DecodeNibble, Json.HexNibble;
    if from < |bytes| {
      NibbleOfDecode(s[2 * from], 2 * from);
      NibbleOfDecode(s[2 * from + 1], 2 * from + 1);
      var high := DecodeNibble(s[2 * from], 2 * from).value;
      var low := DecodeNibble(s[2 * from + 1], 2 * from + 1).value;
      assert bytes[from..][0] == 16 * high + low;
      assert (16 * high + low) / 16 == high && (16 * high + low) % 16 == low;
      assert DecodePairs(s, from + 1).value == bytes[from..][1..] == bytes[from + 1..];
      PairsSpell(s, from + 1, bytes);
    }
  }

  /** Bytes of a fixed length have exactly one accepted spelling. */
  lemma DecodeFixedIff(n: nat, text: string, bytes: Bytes)
    ensures DecodeFixed(n, text) == Ok(bytes) <==> |bytes| == n && text == HexText(bytes)
  {
    var s, t := Utf8.Encode(text), Utf8.Encode(HexText(bytes));
    HexTextBytes(bytes);
    if |bytes| == n && text == HexText(bytes) {
      DecodePairsOfHex(bytes, s, 0);
      assert bytes[0..] == bytes;
    }
    if DecodeFixed(n, text) == Ok(bytes) {
      assert bytes[0..] == bytes;
      PairsSpell(s, 0, bytes);
      SpellingUnique(s, t, bytes);
      Utf8.EncodeInjective(text, HexText(bytes));
    }
  }

  /** `b` is no digit at all, or one of the upper-case digits, which are refused by name. */
  ghost predicate BadDigit(b: Byte, index: nat, e: NostrError) {
    if exists v: nat | 10 <= v < 16 :: b == "0123456789ABCDEF"[v] as int then e == NonCanonicalHex(index, b)
    else e == InvalidHexChar(index, b) && forall v: nat | v < 16 :: b != "0123456789abcdef"[v] as int
  }

  lemma NibbleErrors(b: Byte, index: nat)
    ensures DecodeNibble(b, index).Err? ==> BadDigit(b, index, DecodeNibble(b, index).error)
    ensures DecodeNibble(b, index).Ok? <==> exists v: nat | v < 16 :: b == "0123456789abcdef"[v] as int
  {
    Letters();
    if DecodeNibble(b, index).Ok? {
      NibbleOfDecode(b, index);
      var v := DecodeNibble(b, index).value;
      assert b == "0123456789abcdef"[v] as int;
    }
    if 0x41 <= b <= 0x46 {
      var v: nat := b - 0x37;
      assert b == "0123456789ABCDEF"[v] as int;
    }
  }

  lemma Letters()
    ensures forall v: nat | v < 16 :: "0123456789abcdef"[v] as int == if v < 10 then 0x30 + v else 0x57 + v
    ensures forall v: nat | 10 <= v < 16 :: "0123456789ABCDEF"[v] as int == 0x37 + v
  {
    var lower, upper := "0123456789abcdef", "0123456789ABCDEF";
    forall v: nat | v < 16
      ensures lower[v] as int == (if v < 10 then 0x30 + v else 0x57 + v) && (v >= 10 ==> upper[v] as int == 0x37 + v)
    {
    }
  }

  lemma {:induction false} PairsError(s: Bytes, from: nat)
    requires |s| % 2 == 0 && 2 * from <= |s|
    ensures DecodePairs(s, from).Err? ==>
      exists i | 2 * from <= i < |s| ::
        BadDigit(s[i], i, DecodePairs(s, from).error) && forall j | 2 * from <= j < i :: DecodeNibble(s[j], j).Ok?
    decreases |s| - 2 * from
  {
    hide DecodeNibble, BadDigit;
    if 2 * from < |s| && DecodePairs(s, from).Err? {
      var a := 2 * from;
      NibbleErrors(s[a], a);
      NibbleErrors(s[a + 1], a + 1);
      if DecodeNibble(s[a], a).Ok? && DecodeNibble(s[a + 1], a + 1).Ok? {
        PairsError(s, from + 1);
      }
    }
  }

  /** Why text is refused: an odd length, no room, or its first bad digit by place and byte. */
  lemma LowerHexErrors(s: Bytes, available: nat)
    ensures |s| % 2 != 0 ==> DecodeLowerHex(s, available) == Err(OddHexLength(|s|))
    ensures |s| % 2 == 0 && available < |s| / 2 ==> DecodeLowerHex(s, available) == Err(OutputTooSmall(|s| / 2, available))
    ensures |s| % 2 == 0 && available >= |s| / 2 && DecodeLowerHex(s, available).Err? ==>
      exists i | 0 <= i < |s| ::
        BadDigit(s[i], i, DecodeLowerHex(s, available).error) && forall j | 0 <= j < i :: DecodeNibble(s[j], j).Ok?
  {
    hide DecodePairs, DecodeNibble, BadDigit;
    if |s| % 2 == 0 {
      PairsError(s, 0);
    }
  }

  lemma FixedErrors(n: nat, text: string)
    ensures |Utf8.Encode(text)| != 2 * n ==> DecodeFixed(n, text) == Err(HexLength(2 * n, |Utf8.Encode(text)|))
    ensures |Utf8.Encode(text)| == 2 * n ==> DecodeFixed(n, text) == DecodeLowerHex(Utf8.Encode(text), n)
  {
  }

  // ---- the loops ----

  method EncodeLowerHexTo(bytes: Bytes, out: array<Byte>) returns (r: Result<string, NostrError>)
    modifies out
    ensures 2 * |bytes| > out.Length ==>
      r == Err(OutputTooSmall(2 * |bytes|, out.Length)) && out[..] == old(out[..])
    ensures 2 * |bytes| <= out.Length ==>
      r == Ok(HexText(bytes)) && out[..2 * |bytes|] == Utf8.Encode(HexText(bytes))
      && out[2 * |bytes|..] == old(out[2 * |bytes|..])
  {
    var needed := 2 * |bytes|;
    if out.Length < needed {
      return Err(OutputTooSmall(needed, out.Length));
    }
    HexTextBytes(bytes);
    ghost var spelled := Utf8.Encode(HexText(bytes));
    for index := 0 to |bytes|
      invariant forall i | 0 <= i < 2 * index :: out[i] == spelled[i]
      invariant out[needed..] == old(out[needed..])
    {
      assert PairSpells(spelled, bytes, index);
      out[index * 2] := Json.HexNibble(bytes[index] / 16);
      out[index * 2 + 1] := Json.HexNibble(bytes[index] % 16);
    }
    assert out[..needed] == spelled;
    Utf8.DecodeEncode(HexText(bytes));
    match Utf8.Decode(out[..needed])
    case None => r := Err(Utf8Error);
    case Some(text) => r := Ok(text);
  }

  method DecodeLowerHexTo(s: Bytes, out: array<Byte>) returns (r: Result<nat, NostrError>)
    modifies out
    ensures match DecodeLowerHex(s, out.Length) {
      case Err(e) => r == Err(e)
      case Ok(bytes) => r == Ok(|bytes|) && |bytes| <= out.Length && out[..|bytes|] == bytes
        && out[|bytes|..] == old(out[|bytes|..])
    }
  {
    hide DecodeNibble, DecodePairs, PrependBytes;
    if |s| % 2 != 0 {
      return Err(OddHexLength(|s|));
    }
    var needed := |s| / 2;
    if out.Length < needed {
      return Err(OutputTooSmall(needed, out.Length));
    }
    ghost var all := DecodePairs(s, 0);
    assert all == PrependBytes(out[..0], all) by { NothingDecoded(all); }
    for index := 0 to needed
      invariant all == PrependBytes(out[..index], DecodePairs(s, index))
      invariant out[needed..] == old(out[needed..])
    {
      ghost var done := out[..index];
      DecodeStep(s, index, done);
      var high :- DecodeNibble(s[index * 2], index * 2);
      var low :- DecodeNibble(s[index * 2 + 1], index * 2 + 1);
      out[index] := 16 * high + low;
      assert out[..index + 1] == done + [out[index]];
    }
    AllDecoded(s, out[..needed]);
    return Ok(needed);
  }

  /** One pair of digits, after the bytes decoded so far. */
  lemma DecodeStep(s: Bytes, index: nat, done: Bytes)
    requires |s| % 2 == 0 && index < |s| / 2
    ensures var high, low := DecodeNibble(s[index * 2], index * 2), DecodeNibble(s[index * 2 + 1], index * 2 + 1);
      && (high.Err? ==> PrependBytes(done, DecodePairs(s, index)) == Err(high.error))
      && (high.Ok? && low.Err? ==> PrependBytes(done, DecodePairs(s, index)) == Err(low.error))
      && (high.Ok? && low.Ok? ==>
            && high.value < 16 && low.value < 16
            && PrependBytes(done, DecodePairs(s, index))
            == PrependBytes(done + [16 * high.value + low.value], DecodePairs(s, index + 1)))
  {
    hide DecodeNibble;
    var high, low := DecodeNibble(s[index * 2], index * 2), DecodeNibble(s[index * 2 + 1], index * 2 + 1);
    if high.Ok? && low.Ok? {
      NibbleOfDecode(s[index * 2], index * 2);
      NibbleOfDecode(s[index * 2 + 1], index * 2 + 1);
      var rest := DecodePairs(s, index + 1);
      if rest.Ok? {
        assert done + ([16 * high.value + low.value] + rest.value) == done + [16 * high.value + low.value] + rest.value;
      }
    }
  }

  lemma NothingDecoded(r: Result<Bytes, NostrError>)
    ensures PrependBytes([], r) == r
  {
    if r.Ok? {
      assert [] + r.value == r.value;
    }
  }

  lemma AllDecoded(s: Bytes, done: Bytes)
    requires |s| % 2 == 0
    ensures PrependBytes(done, DecodePairs(s, |s| / 2)) == Ok(done)
  {
    assert done + [] == done;
  }

  ghost function PrependBytes(done: Bytes, r: Result<Bytes, NostrError>): Result<Bytes, NostrError> {
    match r
    case Err(e) => Err(e)
    case Ok(tail) => Ok(done + tail)
  }
}
