/** Shared vocabulary: bytes, machine integers, and failure-compatible results. */
module Base {
  type Byte = b: int | 0 <= b < 0x100
  type U16 = n: int | 0 <= n < 0x1_0000
  type U64 = n: int | 0 <= n < 0x1_0000_0000_0000_0000

  type Bytes = seq<Byte>
  type Bytes8 = s: Bytes | |s| == 8 witness seq(8, _ => 0)
  type Bytes16 = s: Bytes | |s| == 16 witness seq(16, _ => 0)
  type Bytes32 = s: Bytes | |s| == 32 witness seq(32, _ => 0)
  type Bytes64 = s: Bytes | |s| == 64 witness seq(64, _ => 0)

  /** `usize` is 64 bits wide. */
  const USIZE_MAX: int := 0xFFFF_FFFF_FFFF_FFFF

  datatype Option<+T> = None | Some(value: T)

  datatype Result<+T, +E> = Ok(value: T) | Err(error: E) {
    predicate IsFailure() {
      Err?
    }

    function PropagateFailure<U>(): Result<U, E>
      requires Err?
    {
      Err(error)
    }

    function Extract(): T
      requires Ok?
    {
      value
    }
  }

  /** All the elements of a sequence of sequences, in order. */
  function Concat<T>(parts: seq<seq<T>>): seq<T> {
    if parts == [] then [] else parts[0] + Concat(parts[1..])
  }

  lemma {:induction false} ConcatSnoc<T>(parts: seq<seq<T>>, last: seq<T>)
    ensures Concat(parts + [last]) == Concat(parts) + last
  {
    if parts == [] {
      assert Concat([last]) == last + Concat<T>([]);
    } else {
      assert (parts + [last])[1..] == parts[1..] + [last];
      ConcatSnoc(parts[1..], last);
    }
  }

  // ---- big-endian numbers ----

  function Pow256(width: nat): (p: nat)
    ensures p > 0
  {
    if width == 0 then 1 else 0x100 * Pow256(width - 1)
  }

  function BigEndian(n: nat, width: nat): (s: Bytes)
    ensures |s| == width
  {
    if width == 0 then [] else BigEndian(n / 0x100, width - 1) + [n % 0x100]
  }

  function FromBigEndian(s: Bytes): nat {
    if s == [] then 0
    else
      var last: int := s[|s| - 1];
      FromBigEndian(s[..|s| - 1]) * 0x100 + last
  }

  lemma {:induction false} FromBigEndianOf(n: nat, width: nat)
    requires n < Pow256(width)
    ensures FromBigEndian(BigEndian(n, width)) == n
  {
    if width > 0 {
      FromBigEndianOf(n / 0x100, width - 1);
      assert BigEndian(n, width)[..width - 1] == BigEndian(n / 0x100, width - 1);
    }
  }

  lemma {:induction false} BigEndianOfFrom(s: Bytes)
    ensures BigEndian(FromBigEndian(s), |s|) == s && FromBigEndian(s) < Pow256(|s|)
  {
    if s != [] {
      var last: int := s[|s| - 1];
      var high := FromBigEndian(s[..|s| - 1]);
      BigEndianOfFrom(s[..|s| - 1]);
      assert (high * 0x100 + last) / 0x100 == high && (high * 0x100 + last) % 0x100 == last;
    }
  }

  lemma {:induction false} FromBigEndianHead(s: Bytes)
    requires s != []
    ensures var first: int := s[0];
      FromBigEndian(s) == first * Pow256(|s| - 1) + FromBigEndian(s[1..])
  {
    var first, last: int := s[0], s[|s| - 1];
    var init := s[..|s| - 1];
    if |s| == 1 {
      assert FromBigEndian(init) == 0;
    } else {
      FromBigEndianHead(init);
      assert init[1..] == s[1..][..|s| - 2];
      assert FromBigEndian(s) == (first * Pow256(|s| - 2) + FromBigEndian(init[1..])) * 0x100 + last;
      assert first * Pow256(|s| - 2) * 0x100 == first * Pow256(|s| - 1);
    }
  }

  lemma WidthsOfMachineIntegers()
    ensures Pow256(1) == 0x100 && Pow256(2) == 0x1_0000 && Pow256(4) == 0x1_0000_0000
    ensures Pow256(8) == 0x1_0000_0000_0000_0000
  {
    assert Pow256(2) == 0x100 * Pow256(1);
    assert Pow256(4) == 0x100 * Pow256(3) == 0x100 * (0x100 * Pow256(2));
    assert Pow256(6) == 0x100 * Pow256(5) == 0x100 * (0x100 * Pow256(4));
    assert Pow256(8) == 0x100 * Pow256(7) == 0x100 * (0x100 * Pow256(6));
  }

  function U64Of(s: Bytes): U64
    requires |s| == 8
  {
    BigEndianOfFrom(s);
    WidthsOfMachineIntegers();
    FromBigEndian(s)
  }
}
