/** The ring of recently accepted message keys, and what it guarantees over any run. */
module Dedupe {
  import opened Base
  import opened BridgeTypes

  datatype DedupeError = DedupeCapacityZero

  /** Offering a key to a window of the last accepted ones, oldest first. */
  function Offer(n: nat, window: seq<MessageKey>, key: MessageKey): (seq<MessageKey>, Result<bool, DedupeError>) {
    if key in window then (window, Ok(false))
    else if n == 0 then (window, Err(DedupeCapacityZero))
    else ((if |window| >= n then window[1..] else window) + [key], Ok(true))
  }

  class BridgeDedupeSet {
    const keys: array<Option<MessageKey>>
    var nextIndex: nat
    var len: nat

    ghost predicate Valid()
      reads this, keys
    {
      && len <= keys.Length
      && (forall i | 0 <= i < keys.Length :: keys[i].Some? <==> i < len)
      && (len < keys.Length ==> nextIndex == len)
      && (len == keys.Length ==> nextIndex < keys.Length || (keys.Length == 0 && nextIndex == 0))
    }

    /** The slots in the order they were filled, oldest first. */
    ghost function Ordered(): (s: seq<Option<MessageKey>>)
      requires Valid()
      reads this, keys
      ensures |s| == len && forall i | 0 <= i < |s| :: s[i].Some?
    {
      if len < keys.Length then keys[..len] else keys[nextIndex..] + keys[..nextIndex]
    }

    ghost function Window(): (w: seq<MessageKey>)
      requires Valid()
      reads this, keys
      ensures |w| == len
    {
      Values(Ordered())
    }

    static ghost function Values(s: seq<Option<MessageKey>>): (w: seq<MessageKey>)
      requires forall i | 0 <= i < |s| :: s[i].Some?
      ensures |w| == |s|
    {
      seq(|s|, i requires 0 <= i < |s| => s[i].value)
    }

    constructor (n: nat)
      ensures Valid() && Window() == [] && keys.Length == n && fresh(keys)
    {
      keys := new Option<MessageKey>[n](_ => None);
      nextIndex, len := 0, 0;
    }

    lemma InSlots(key: MessageKey)
      requires Valid()
      ensures key in Window() <==> exists i | 0 <= i < keys.Length :: keys[i] == Some(key)
    {
      var s, w := Ordered(), Window();
      if key in w {
        var i :| 0 <= i < |w| && w[i] == key;
        assert s[i] == Some(key);
        assert s[i] in keys[..];
      }
      if i :| 0 <= i < keys.Length && keys[i] == Some(key) {
        assert len == keys.Length ==> s[if i >= nextIndex then i - nextIndex else keys.Length - nextIndex + i] == keys[i];
        assert Some(key) in s;
        var j :| 0 <= j < |s| && s[j] == Some(key);
        assert w[j] == key;
      }
    }

    method Contains(key: MessageKey) returns (found: bool)
      requires Valid()
      ensures found <==> key in Window()
    {
      InSlots(key);
      for i := 0 to keys.Length
        invariant forall j | 0 <= j < i :: keys[j] != Some(key)
      {
        if keys[i] == Some(key) {
          return true;
        }
      }
      return false;
    }

    method Insert(key: MessageKey) returns (r: Result<bool, DedupeError>)
      requires Valid()
      modifies this, keys
      ensures Valid() && (Window(), r) == Offer(keys.Length, old(Window()), key)
    {
      var known := Contains(key);
      if known {
        return Ok(false);
      }
      if keys.Length == 0 {
        return Err(DedupeCapacityZero);
      }
      ghost var before := Ordered();
      Place(key);
      assert Window() == (if |before| == keys.Length then Values(before)[1..] else Values(before)) + [key];
      return Ok(true);
    }

    /** The key goes into the next slot, which is free or holds the oldest key. */
    method Place(key: MessageKey)
      requires Valid() && keys.Length > 0
      modifies this, keys
      ensures Valid()
      ensures Ordered() == (if old(len) == keys.Length then old(Ordered())[1..] else old(Ordered())) + [Some(key)]
    {
      ghost var at, slots := nextIndex, keys[..];
      Turned(slots, at, Some(key));
      NextOf(at, keys.Length);
      keys[nextIndex] := Some(key);
      nextIndex := (nextIndex + 1) % keys.Length;
      assert keys[..] == slots[at := Some(key)];
      if len < keys.Length {
        len := len + 1;
        assert keys[..len] == slots[..at] + [Some(key)];
        assert len == keys.Length ==> keys[nextIndex..] + keys[..nextIndex] == keys[..len];
      }
    }

    static lemma NextOf(at: nat, n: nat)
      requires at < n
      ensures (at + 1) % n == if at + 1 == n then 0 else at + 1
    {
    }

    /** A full ring, read from its next slot, drops its oldest entry for the new one. */
    static lemma Turned(slots: seq<Option<MessageKey>>, at: nat, v: Option<MessageKey>)
      requires at < |slots|
      ensures var next := slots[at := v];
        var to := (at + 1) % |slots|;
        next[to..] + next[..to] == (slots[at..] + slots[..at])[1..] + [v]
    {
      var next := slots[at := v];
      if at + 1 < |slots| {
        assert (at + 1) % |slots| == at + 1;
        assert next[at + 1..] == slots[at + 1..] && next[..at + 1] == slots[..at] + [v];
      } else {
        assert (at + 1) % |slots| == 0;
        assert next[0..] == slots[..at] + [v];
      }
    }
  }

  // ---- runs ----

  /** The keys of a run that were accepted, in order, and the window it ends with. */
  datatype Run = Run(window: seq<MessageKey>, accepted: seq<MessageKey>)

  function RunOffers(n: nat, window: seq<MessageKey>, keys: seq<MessageKey>): Run
    decreases |keys|
  {
    if keys == [] then Run(window, [])
    else
      var (next, r) := Offer(n, window, keys[0]);
      var rest := RunOffers(n, next, keys[1..]);
      Run(rest.window, (if r == Ok(true) then [keys[0]] else []) + rest.accepted)
  }

  function LastOf(n: nat, s: seq<MessageKey>): seq<MessageKey> {
    if |s| <= n then s else s[|s| - n..]
  }

  /** Equal keys are more than `n` places apart. */
  ghost predicate Spaced(n: nat, s: seq<MessageKey>) {
    forall i, j | 0 <= i < j < |s| && j - i <= n :: s[i] != s[j]
  }

  /** One offer, after a history of accepted keys. */
  lemma OfferExtends(n: nat, history: seq<MessageKey>, key: MessageKey)
    requires Spaced(n, history)
    ensures var (window, r) := Offer(n, LastOf(n, history), key);
      var next := history + (if r == Ok(true) then [key] else []);
      window == LastOf(n, next) && Spaced(n, next)
    ensures n > 0 ==> (Offer(n, LastOf(n, history), key).1 == Ok(true) <==> key !in LastOf(n, history))
  {
    var window := LastOf(n, history);
    assert history + [] == history;
    if key !in window && n > 0 {
      var next := history + [key];
      forall i | 0 <= i < |history| && |history| - i <= n ensures history[i] != key {
        assert history[i] == window[|window| - (|history| - i)];
      }
      if |history| >= n {
        assert LastOf(n, next) == window[1..] + [key];
      }
    }
  }

  /** Over any run the window is exactly the last `n` keys accepted, and a key is accepted
      again only after at least `n` others, all different, have been accepted in between. */
  lemma {:induction false} OncePerWindow(n: nat, history: seq<MessageKey>, keys: seq<MessageKey>)
    requires Spaced(n, history)
    ensures var run := RunOffers(n, LastOf(n, history), keys);
      run.window == LastOf(n, history + run.accepted) && Spaced(n, history + run.accepted)
    decreases |keys|
  {
    hide Offer, LastOf, Spaced;
    assert history + [] == history;
    if keys != [] {
      OfferExtends(n, history, keys[0]);
      var (next, r) := Offer(n, LastOf(n, history), keys[0]);
      var first := if r == Ok(true) then [keys[0]] else [];
      OncePerWindow(n, history + first, keys[1..]);
      var rest := RunOffers(n, next, keys[1..]);
      assert history + first + rest.accepted == history + (first + rest.accepted);
    }
  }

  /** The keys accepted in the `count` places after place `i`. */
  ghost function After(s: seq<MessageKey>, i: nat, count: nat): set<MessageKey>
    requires i + count < |s|
  {
    if count == 0 then {} else After(s, i, count - 1) + {s[i + count]}
  }

  /** What spacing says about two acceptances of one key: between them lie `n` others, no two
      of them equal. */
  lemma SpacedMeans(n: nat, s: seq<MessageKey>, i: nat, j: nat)
    requires Spaced(n, s) && i < j < |s| && s[i] == s[j]
    ensures j - i > n && |After(s, i, n)| == n && s[i] !in After(s, i, n)
  {
    AfterIsDistinct(n, s, i, n, i);
  }

  lemma {:induction false} AfterIsDistinct(n: nat, s: seq<MessageKey>, i: nat, count: nat, k: nat)
    requires Spaced(n, s) && count <= n && i + count < |s|
    requires k == i || (i + count < k <= i + n && k < |s|)
    ensures |After(s, i, count)| == count && s[k] !in After(s, i, count)
  {
    if count > 0 {
      AfterIsDistinct(n, s, i, count - 1, k);
      AfterIsDistinct(n, s, i, count - 1, i + count);
    }
  }
}
