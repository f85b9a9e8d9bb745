/** The bounded writer: appends to a caller's buffer, and either everything fits or the
    write fails with the size that did not. */
module JsonWriter {
  import opened Base
  import opened NostrTypes
  import opened Json
  import opened JsonLayout
  import Utf8

  /** Writing `text` after `before` into `capacity` bytes: it succeeds exactly when it fits. */
  ghost predicate Wrote(capacity: nat, before: Bytes, text: Bytes, r: Result<(), NostrError>, after: Bytes) {
    if |before| + |text| <= capacity then r == Ok(()) && after == before + text
    else r.Err? && TooSmall(capacity, r.error)
  }

  ghost predicate TooSmall(capacity: nat, e: NostrError) {
    e.OutputTooSmall? && e.available == capacity && e.needed > capacity
  }

  class Writer {
    const out: array<Byte>
    var len: nat

    ghost predicate Valid()
      reads this
    {
      len <= out.Length
    }

    ghost function Written(): Bytes
      requires Valid()
      reads this, out
    {
      out[..len]
    }

    constructor (out: array<Byte>)
      ensures this.out == out && Valid() && Written() == []
    {
      this.out, len := out, 0;
    }

    method WriteBytes(bytes: Bytes) returns (r: Result<(), NostrError>)
      requires Valid()
      modifies this`len, out
      ensures Valid() && Wrote(out.Length, old(Written()), bytes, r, Written())
      ensures r.Err? ==> Written() == old(Written())
    {
      var needed := len + |bytes|;
      if needed > out.Length {
        return Err(OutputTooSmall(needed, out.Length));
      }
      forall i | 0 <= i < |bytes| {
        out[len + i] := bytes[i];
      }
      assert out[..needed] == old(out[..len]) + bytes;
      len := needed;
      return Ok(());
    }

    method PushByte(b: Byte) returns (r: Result<(), NostrError>)
      requires Valid()
      modifies this`len, out
      ensures Valid() && Wrote(out.Length, old(Written()), [b], r, Written())
    {
      r := WriteBytes([b]);
    }

    method WriteBool(b: bool) returns (r: Result<(), NostrError>)
      requires Valid()
      modifies this`len, out
      ensures Valid() && Wrote(out.Length, old(Written()), Print(Bool(b)), r, Written())
    {
      if b {
        r := WriteBytes([0x74, 0x72, 0x75, 0x65]);
      } else {
        r := WriteBytes([0x66, 0x61, 0x6C, 0x73, 0x65]);
      }
    }

    method WriteControlEscape(c: char) returns (r: Result<(), NostrError>)
      requires Valid() && c as int < 0x20
      modifies this`len, out
      ensures var v := c as int;
        Valid() && Wrote(out.Length, old(Written()),
          [0x5C, 0x75, 0x30, 0x30, HexNibble(v / 16), HexNibble(v % 16)], r, Written())
    {
      var v := c as int;
      r := WriteBytes([0x5C, 0x75, 0x30, 0x30, HexNibble(v / 16), HexNibble(v % 16)]);
    }

    method WriteChar(c: char) returns (r: Result<(), NostrError>)
      requires Valid()
      modifies this`len, out
      ensures Valid() && Wrote(out.Length, old(Written()), EscapeChar(c), r, Written())
    {
      if c == '"' {
        r := WriteBytes([0x5C, 0x22]);
      } else if c == '\\' {
        r := WriteBytes([0x5C, 0x5C]);
      } else if c == '\n' {
        r := WriteBytes([0x5C, 0x6E]);
      } else if c == '\r' {
        r := WriteBytes([0x5C, 0x72]);
      } else if c == '\t' {
        r := WriteBytes([0x5C, 0x74]);
      } else if c as int == 0x08 {
        r := WriteBytes([0x5C, 0x62]);
      } else if c as int == 0x0C {
        r := WriteBytes([0x5C, 0x66]);
      } else if c as int < 0x20 {
        r := WriteControlEscape(c);
      } else {
        r := WriteBytes(Utf8.EncodeChar(c));
      }
    }

    method WriteJsonString(text: string) returns (r: Result<(), NostrError>)
      requires Valid()
      modifies this`len, out
      ensures Valid() && Wrote(out.Length, old(Written()), PrintString(text), r, Written())
    {
      hide Escape, EscapeChar;
      var _ :- PushByte(0x22);
      ghost var start := Written();
      EmptyLayouts();
      assert text[..0] == [];
      for i := 0 to |text|
        invariant Valid() && Written() == start + Escape(text[..i])
      {
        EscapeStep(text, i);
        var _ :- WriteChar(text[i]);
      }
      assert text[..|text|] == text;
      r := PushByte(0x22);
    }

    /** Digits go into a scratch array from its far end. */
    method WriteU64(n: U64) returns (r: Result<(), NostrError>)
      requires Valid()
      modifies this`len, out
      ensures Valid() && Wrote(out.Length, old(Written()), Digits(n), r, Written())
    {
      if n == 0 {
        r := PushByte(0x30);
        return;
      }
      U64Fits(n);
      var scratch := new Byte[20];
      var cursor := scratch.Length;
      var value: nat := n;
      assert Digits(n) == DigitsAhead(n) + scratch[cursor..];
      hide Digits;
      while value > 0
        invariant 0 <= cursor <= 20
        invariant Digits(n) == DigitsAhead(value) + scratch[cursor..]
        modifies scratch
      {
        ghost var tail := scratch[cursor..];
        cursor := cursor - 1;
        scratch[cursor] := 0x30 + value % 10;
        assert scratch[cursor..] == [scratch[cursor]] + tail;
        DigitsStep(value, tail);
        value := value / 10;
      }
      assert [] + scratch[cursor..] == scratch[cursor..];
      r := WriteBytes(scratch[cursor..]);
    }

    /** A member name and its colon, after a comma unless it is the first. */
    method WriteName(k: nat, name: string) returns (r: Result<(), NostrError>)
      requires Valid()
      modifies this`len, out
      ensures Valid() && Wrote(out.Length, old(Written()), Comma(k) + PrintString(name) + [0x3A], r, Written())
    {
      hide PrintString;
      if k > 0 {
        var _ :- PushByte(0x2C);
      }
      var _ :- WriteJsonString(name);
      r := PushByte(0x3A);
    }
  }
}
