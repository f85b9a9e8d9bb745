/** Which protocols a message leaves on: the configured ones, each once, in order, and not
    the one it came from unless echo is allowed. */
module Policy {
  import opened Base
  import opened BridgeTypes

  datatype RoutePolicy = RoutePolicy(allowEcho: bool, egress: seq<Option<Protocol>>) {
    predicate Blocked(origin: Protocol, p: Protocol) {
      !allowEcho && origin == p
    }
  }

  datatype PolicyError = OutputTooSmall(actual: nat, required: nat)

  function Index(p: Protocol): nat {
    match p
    case HyfProtocol => 0
    case BitChatProtocol => 1
    case LxmfProtocol => 2
    case NostrProtocol => 3
  }

  predicate Admits(policy: RoutePolicy, origin: Protocol, entry: Option<Protocol>) {
    entry.Some? && !policy.Blocked(origin, entry.value)
  }

  /** The protocols selected by the first `k` entries. */
  function SelectedUpTo(policy: RoutePolicy, origin: Protocol, k: nat): seq<Protocol>
    requires k <= |policy.egress|
  {
    if k == 0 then []
    else
      var before := SelectedUpTo(policy, origin, k - 1);
      var entry := policy.egress[k - 1];
      if Admits(policy, origin, entry) && entry.value !in before then before + [entry.value] else before
  }

  function Selected(policy: RoutePolicy, origin: Protocol): seq<Protocol> {
    SelectedUpTo(policy, origin, |policy.egress|)
  }

  ghost predicate Distinct(s: seq<Protocol>) {
    forall i, j | 0 <= i < j < |s| :: s[i] != s[j]
  }

  /** Where a protocol first stands in the configuration. */
  ghost predicate FirstAt(policy: RoutePolicy, p: Protocol, at: nat) {
    at < |policy.egress| && policy.egress[at] == Some(p) && forall i | 0 <= i < at :: policy.egress[i] != Some(p)
  }

  lemma {:induction false} SelectedPrefix(policy: RoutePolicy, origin: Protocol, k: nat)
    requires k <= |policy.egress|
    ensures var s := SelectedUpTo(policy, origin, k);
      && Distinct(s) && |s| <= k
      && (forall p :: p in s <==> !policy.Blocked(origin, p) && exists i | 0 <= i < k :: policy.egress[i] == Some(p))
  {
    if k > 0 {
      SelectedPrefix(policy, origin, k - 1);
    }
  }

  /** Selection is duplicate-free, and selects exactly the configured protocols other than
      the origin; the origin too when echo is on. */
  lemma SelectionMeans(policy: RoutePolicy, origin: Protocol)
    ensures var s := Selected(policy, origin);
      && Distinct(s)
      && (forall p :: p in s <==> Some(p) in policy.egress && (p != origin || policy.allowEcho))
  {
    hide SelectedUpTo;
    SelectedPrefix(policy, origin, |policy.egress|);
  }

  /** Selection keeps the order in which protocols are first configured. */
  lemma {:induction false} SelectionKeepsOrder(policy: RoutePolicy, origin: Protocol, k: nat, i: nat, j: nat, a: nat, b: nat)
    requires k <= |policy.egress|
    requires var s := SelectedUpTo(policy, origin, k);
      i < j < |s| && FirstAt(policy, s[i], a) && FirstAt(policy, s[j], b)
    ensures a < b
  {
    SelectedPrefix(policy, origin, k - 1);
    var before := SelectedUpTo(policy, origin, k - 1);
    var s := SelectedUpTo(policy, origin, k);
    if j < |before| {
      SelectionKeepsOrder(policy, origin, k - 1, i, j, a, b);
    } else {
      assert s[j] == policy.egress[k - 1].value && s[j] !in before;
      assert s[i] in before;
      var e :| 0 <= e < k - 1 && policy.egress[e] == Some(s[i]);
      assert b >= k - 1;
    }
  }

  // ---- the loops ----

  ghost predicate Marks(seen: seq<bool>, s: seq<Protocol>) {
    |seen| == 4 && forall p: Protocol :: seen[Index(p)] <==> p in s
  }

  method MarkSeen(seen: array<bool>, p: Protocol, ghost s: seq<Protocol>) returns (was: bool)
    requires seen.Length == 4 && Marks(seen[..], s)
    modifies seen
    ensures was <==> p in s
    ensures Marks(seen[..], if was then s else s + [p])
  {
    was := seen[Index(p)];
    seen[Index(p)] := true;
  }

  method SelectedEgressCount(policy: RoutePolicy, origin: Protocol) returns (count: nat)
    ensures count == |Selected(policy, origin)|
  {
    hide Marks;
    var seen := new bool[4](_ => false);
    count := 0;
    NothingSeen(seen[..]);
    for k := 0 to |policy.egress|
      invariant Marks(seen[..], SelectedUpTo(policy, origin, k)) && count == |SelectedUpTo(policy, origin, k)|
    {
      var entry := policy.egress[k];
      if entry.None? || policy.Blocked(origin, entry.value) {
        continue;
      }
      var was := MarkSeen(seen, entry.value, SelectedUpTo(policy, origin, k));
      if was {
        continue;
      }
      count := count + 1;
    }
  }

  lemma NothingSeen(seen: seq<bool>)
    requires |seen| == 4 && forall i | 0 <= i < 4 :: !seen[i]
    ensures Marks(seen, [])
  {
  }

  lemma SelectedStep(policy: RoutePolicy, origin: Protocol, k: nat)
    requires k < |policy.egress|
    ensures var before, entry := SelectedUpTo(policy, origin, k), policy.egress[k];
      SelectedUpTo(policy, origin, k + 1) ==
        if entry.Some? && !policy.Blocked(origin, entry.value) && entry.value !in before then before + [entry.value] else before
  {
  }

  lemma NothingSelected(policy: RoutePolicy, origin: Protocol)
    ensures SelectedUpTo(policy, origin, 0) == []
  {
  }

  method SelectEgress(policy: RoutePolicy, origin: Protocol, output: array<Protocol>) returns (r: Result<nat, PolicyError>)
    modifies output
    ensures var s := Selected(policy, origin);
      if output.Length < |s| then r == Err(PolicyError.OutputTooSmall(output.Length, |s|)) && output[..] == old(output[..])
      else r == Ok(|s|) && output[..|s|] == s && output[|s|..] == old(output[|s|..])
  {
    hide Marks, SelectedUpTo, RoutePolicy.Blocked;
    var required := SelectedEgressCount(policy, origin);
    if output.Length < required {
      return Err(PolicyError.OutputTooSmall(output.Length, required));
    }
    var seen := new bool[4](_ => false);
    var count := 0;
    NothingSeen(seen[..]);
    NothingSelected(policy, origin);
    for k := 0 to |policy.egress|
      invariant Marks(seen[..], SelectedUpTo(policy, origin, k)) && count == |SelectedUpTo(policy, origin, k)| <= output.Length
      invariant output[..count] == SelectedUpTo(policy, origin, k)
      invariant output[count..] == old(output[..])[count..]
    {
      SelectedStep(policy, origin, k);
      var entry := policy.egress[k];
      if entry.None? || policy.Blocked(origin, entry.value) {
        continue;
      }
      ghost var sofar := SelectedUpTo(policy, origin, k);
      var was := MarkSeen(seen, entry.value, sofar);
      if was {
        continue;
      }
      SelectionGrows(policy, origin, k + 1);
      output[count] := entry.value;
      assert output[count + 1..] == output[count..][1..];
      count := count + 1;
      assert output[..count] == sofar + [entry.value];
    }
    return Ok(count);
  }

  lemma {:induction false} SelectionGrows(policy: RoutePolicy, origin: Protocol, k: nat)
    requires k <= |policy.egress|
    ensures |SelectedUpTo(policy, origin, k)| <= |Selected(policy, origin)|
    decreases |policy.egress| - k
  {
    if k < |policy.egress| {
      SelectionGrows(policy, origin, k + 1);
    }
  }
}
