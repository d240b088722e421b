/** Criticality tiers on a node: which are present, which pods belong to one, which pod is the heaviest,
    and which tier comes next. */
module Tiers {
  import opened GoTypes
  import opened Criticality
  import opened Ordering
  import opened CpuPool

  const MIN_MILLI := 10

  /** A container's CPU request in millicores; absent when it has no requests at all. */
  datatype Container = Container(request: Option<int>)

  /** A pod of the node, with the application its label names (empty when it has none). */
  datatype Pod = Pod(name: string, app: string, containers: seq<Container>)

  /** The criticality of each application. */
  type RTData = map<string, string>

  predicate HasCriticality(p: Pod, rtData: RTData, criticality: string) {
    p.app != "" && p.app in rtData && rtData[p.app] == criticality
  }

  // ---------- Tiers present ----------

  predicate Present(pods: seq<Pod>, rtData: RTData, tier: string) {
    exists p :: p in pods && HasCriticality(p, rtData, tier)
  }

  /** The ranked criticalities present, lowest first. */
  function PresentTiers(pods: seq<Pod>, rtData: RTData): (tiers: seq<string>)
    ensures forall t :: t in tiers <==> IsRanked(t) && Present(pods, rtData, t)
    ensures Ascending(tiers)
  {
    (if Present(pods, rtData, "LOW") then ["LOW"] else [])
    + (if Present(pods, rtData, "MIDDLE") then ["MIDDLE"] else [])
    + (if Present(pods, rtData, "HIGH") then ["HIGH"] else [])
  }

  predicate Ascending(tiers: seq<string>) {
    forall i, j | 0 <= i < j < |tiers| :: Rank(tiers[i]) < Rank(tiers[j])
  }

  lemma RankIdentifies(a: string, b: string)
    requires IsRanked(a) && IsRanked(b) && Rank(a) == Rank(b)
    ensures a == b
  {
  }

  /** A strictly ascending list is determined by its members. */
  lemma {:induction false} AscendingIsUnique(a: seq<string>, b: seq<string>)
    requires Ascending(a) && Ascending(b)
    requires forall t :: t in a <==> t in b
    ensures a == b
  {
    assert b != [] ==> b[0] in b;
    if a != [] {
      assert a[0] in a && a[0] in b;
      assert b[0] in b && b[0] in a;
      FirstIsLowest(a, b[0]);
      FirstIsLowest(b, a[0]);
      var i :| 0 <= i < |b| && b[i] == a[0];
      assert i == 0;
      forall t
        ensures t in a[1..] <==> t in b[1..]
      {
        RestOf(a, t);
        RestOf(b, t);
      }
      AscendingIsUnique(a[1..], b[1..]);
    }
  }

  lemma FirstIsLowest(a: seq<string>, t: string)
    requires Ascending(a) && t in a
    ensures Rank(a[0]) <= Rank(t)
  {
  }

  lemma RestOf(a: seq<string>, t: string)
    requires Ascending(a) && a != []
    ensures t in a[1..] <==> t in a && t != a[0]
  {
    if t in a && t != a[0] {
      var i :| 0 <= i < |a| && a[i] == t;
      assert a[1..][i - 1] == t;
    }
  }

  lemma PresentNext(pods: seq<Pod>, k: nat, rtData: RTData)
    requires k < |pods|
    ensures forall t :: Present(pods[..k + 1], rtData, t) <==>
                        Present(pods[..k], rtData, t) || HasCriticality(pods[k], rtData, t)
  {
    assert pods[..k + 1] == pods[..k] + [pods[k]];
    assert forall p :: p in pods[..k + 1] <==> p in pods[..k] || p == pods[k];
  }

  /** Collects the tiers into a set, lists that set in an arbitrary order, and sorts the list by exchange. */
  method CollectSortedTiers(pods: seq<Pod>, rtData: RTData) returns (tiers: seq<string>)
    ensures tiers == PresentTiers(pods, rtData)
  {
    var seen: set<string> := {};
    for k := 0 to |pods|
      invariant forall t :: t in seen <==> IsRanked(t) && Present(pods[..k], rtData, t)
    {
      var p := pods[k];
      PresentNext(pods, k, rtData);
      if p.app != "" && p.app in rtData && IsRanked(rtData[p.app]) {
        seen := seen + {rtData[p.app]};
      }
    }
    assert pods[..|pods|] == pods;
    tiers := ListAnyOrder(seen);
    var a := new string[|tiers|](i requires 0 <= i < |tiers| => tiers[i]);
    assert a[..] == tiers;
    forall i | 0 <= i < a.Length
      ensures IsRanked(a[i])
    {
      assert a[i] in multiset(tiers);
    }
    SortByRank(a);
    tiers := a[..];
    assert forall t :: t in tiers <==> t in multiset(tiers);
    AscendingIsUnique(tiers, PresentTiers(pods, rtData));
  }

  method ListAnyOrder(seen: set<string>) returns (list: seq<string>)
    ensures multiset(list) == multiset(seen)
  {
    list := [];
    var todo := seen;
    while todo != {}
      invariant todo <= seen && multiset(list) == multiset(seen - todo)
      decreases |todo|
    {
      var t := NextKey(todo);
      assert seen - (todo - {t}) == (seen - todo) + {t};
      list := list + [t];
      todo := todo - {t};
    }
    assert seen - todo == seen;
  }

  method SortByRank(a: array<string>)
    requires forall i | 0 <= i < a.Length :: IsRanked(a[i])
    requires forall t :: multiset(a[..])[t] <= 1
    modifies a
    ensures Ascending(a[..]) && multiset(a[..]) == multiset(old(a[..]))
  {
    for i := 0 to a.Length
      invariant multiset(a[..]) == multiset(old(a[..]))
      invariant OrderedUpTo(a[..], i)
    {
      LowestTo(a, i);
    }
    OrderedDistinctAscend(a[..]);
  }

  /** The first `i` elements are in order and none outranks any later element. */
  ghost predicate OrderedUpTo(s: seq<string>, i: int) {
    forall k, l | 0 <= k < i && k < l < |s| :: Rank(s[k]) <= Rank(s[l])
  }

  ghost predicate LowestOf(s: seq<string>, i: int, j: int)
    requires 0 <= i < |s| && j <= |s|
  {
    forall l | i < l < j :: Rank(s[i]) <= Rank(s[l])
  }

  function Swapped(s: seq<string>, i: nat, j: nat): seq<string>
    requires i < |s| && j < |s|
  {
    s[i := s[j]][j := s[i]]
  }

  method Exchange(a: array<string>, i: nat, j: nat)
    requires i < a.Length && j < a.Length
    modifies a
    ensures a[..] == Swapped(old(a[..]), i, j) && multiset(a[..]) == multiset(old(a[..]))
  {
    a[i], a[j] := a[j], a[i];
  }

  lemma SwapKeepsOrder(s: seq<string>, i: nat, j: nat)
    requires i < j < |s| && OrderedUpTo(s, i) && LowestOf(s, i, j) && Rank(s[j]) < Rank(s[i])
    ensures OrderedUpTo(Swapped(s, i, j), i) && LowestOf(Swapped(s, i, j), i, j + 1)
  {
  }

  /** The inner loop of the exchange sort: brings the lowest remaining tier to position i. */
  method LowestTo(a: array<string>, i: nat)
    requires i < a.Length && OrderedUpTo(a[..], i)
    modifies a
    ensures OrderedUpTo(a[..], i + 1) && multiset(a[..]) == multiset(old(a[..]))
  {
    for j := i + 1 to a.Length
      invariant multiset(a[..]) == multiset(old(a[..]))
      invariant OrderedUpTo(a[..], i) && LowestOf(a[..], i, j)
    {
      if Rank(a[j]) < Rank(a[i]) {
        SwapKeepsOrder(a[..], i, j);
        Exchange(a, i, j);
      }
    }
  }

  lemma OrderedDistinctAscend(s: seq<string>)
    requires forall k, l | 0 <= k < l < |s| :: Rank(s[k]) <= Rank(s[l])
    requires forall t :: multiset(s)[t] <= 1
    requires forall t :: t in multiset(s) ==> IsRanked(t)
    ensures Ascending(s)
  {
    forall k, l | 0 <= k < l < |s|
      ensures Rank(s[k]) < Rank(s[l])
    {
      assert s[k] in multiset(s) && s[l] in multiset(s);
      TwiceInSequence(s, k, l);
      if Rank(s[k]) == Rank(s[l]) {
        RankIdentifies(s[k], s[l]);
      }
    }
  }

  // ---------- The next tier up ----------

  /** The lowest present tier that ranks above the given one. */
  function NextHigher(cur: string, tiers: seq<string>): Option<string> {
    if !IsRanked(cur) then None
    else if Rank(cur) < 1 && "MIDDLE" in tiers then Some("MIDDLE")
    else if Rank(cur) < 2 && "HIGH" in tiers then Some("HIGH")
    else None
  }

  method NextHigherTier(cur: string, tiers: seq<string>) returns (next: Option<string>)
    ensures next == NextHigher(cur, tiers)
  {
    if !IsRanked(cur) {
      return None;
    }
    var curRank := Rank(cur);
    var bestRank, best := 0x4000_0000, "";
    for k := 0 to |tiers|
      invariant best == "" ==> bestRank == 0x4000_0000
      invariant best != "" ==> best in tiers[..k] && IsRanked(best) && curRank < Rank(best) == bestRank
      invariant forall t | t in tiers[..k] && IsRanked(t) && Rank(t) > curRank :: best != "" && bestRank <= Rank(t)
    {
      var t := tiers[k];
      if IsRanked(t) && Rank(t) > curRank && Rank(t) < bestRank {
        bestRank, best := Rank(t), t;
      }
      assert tiers[..k + 1] == tiers[..k] + [t];
    }
    assert tiers[..|tiers|] == tiers;
    next := if best == "" then None else Some(best);
    if next.Some? {
      assert "MIDDLE" in tiers && 1 > curRank ==> bestRank <= 1;
      RankIdentifies(best, if bestRank == 1 then "MIDDLE" else "HIGH");
    }
  }

  /** It is in the list, above the given tier, and nothing ranked lies between. */
  lemma NextHigherIsNext(cur: string, tiers: seq<string>)
    ensures !IsRanked(cur) ==> NextHigher(cur, tiers) == None
    ensures NextHigher(cur, tiers).Some? ==>
      var next := NextHigher(cur, tiers).value;
      && next in tiers && IsRanked(next) && Rank(cur) < Rank(next)
      && forall t | t in tiers && IsRanked(t) && Rank(t) > Rank(cur) :: Rank(t) >= Rank(next)
    ensures NextHigher(cur, tiers).None? && IsRanked(cur) ==>
      forall t | t in tiers && IsRanked(t) :: Rank(t) <= Rank(cur)
  {
  }

  // ---------- Pods of a tier ----------

  function InTier(pods: seq<Pod>, rtData: RTData, tier: string): seq<Pod> {
    if pods == [] then []
    else
      var rest := InTier(pods[..|pods| - 1], rtData, tier);
      var last := pods[|pods| - 1];
      if HasCriticality(last, rtData, tier) then rest + [last] else rest
  }

  method FilterPodsByCriticality(pods: seq<Pod>, rtData: RTData, tier: string) returns (list: seq<Pod>)
    ensures list == InTier(pods, rtData, tier)
  {
    list := [];
    for k := 0 to |pods|
      invariant list == InTier(pods[..k], rtData, tier)
    {
      assert pods[..k + 1][..k] == pods[..k];
      if HasCriticality(pods[k], rtData, tier) {
        list := list + [pods[k]];
      }
    }
    assert pods[..|pods|] == pods;
  }

  /** Exactly the pods of the tier, and a tier is present just when it has one. */
  lemma {:induction false} InTierMembers(pods: seq<Pod>, rtData: RTData, tier: string)
    ensures forall p :: p in InTier(pods, rtData, tier) <==> p in pods && HasCriticality(p, rtData, tier)
    ensures InTier(pods, rtData, tier) != [] <==> Present(pods, rtData, tier)
    decreases |pods|
  {
    if pods != [] {
      var n := |pods| - 1;
      InTierMembers(pods[..n], rtData, tier);
      assert pods == pods[..n] + [pods[n]];
    }
    var list := InTier(pods, rtData, tier);
    assert list != [] ==> list[0] in list;
  }

  /** The order of the pods is kept: the tier of a list in two parts is that of the first, then that of the
      second. */
  lemma {:induction false} InTierConcat(a: seq<Pod>, b: seq<Pod>, rtData: RTData, tier: string)
    ensures InTier(a + b, rtData, tier) == InTier(a, rtData, tier) + InTier(b, rtData, tier)
    decreases |b|
  {
    if b == [] {
      assert a + b == a;
    } else {
      var n := |b| - 1;
      assert (a + b)[..|a + b| - 1] == a + b[..n];
      InTierConcat(a, b[..n], rtData, tier);
    }
  }

  predicate IsActionable(p: Pod) {
    exists c :: c in p.containers && c.request.Some? && c.request.value > MIN_MILLI
  }

  /** Some container in the tier still requests more than the minimum. */
  predicate Actionable(pods: seq<Pod>, rtData: RTData, tier: string) {
    exists p :: p in pods && HasCriticality(p, rtData, tier) && IsActionable(p)
  }

  method HasActionableInTier(pods: seq<Pod>, rtData: RTData, tier: string) returns (actionable: bool)
    ensures actionable <==> Actionable(pods, rtData, tier)
  {
    var targets := FilterPodsByCriticality(pods, rtData, tier);
    InTierMembers(pods, rtData, tier);
    if |targets| == 0 {
      return false;
    }
    for k := 0 to |targets|
      invariant forall p | p in targets[..k] :: !IsActionable(p)
    {
      var cs := targets[k].containers;
      for l := 0 to |cs|
        invariant forall c | c in cs[..l] :: !(c.request.Some? && c.request.value > MIN_MILLI)
      {
        if cs[l].request.Some? && cs[l].request.value > MIN_MILLI {
          assert targets[k] in targets;
          return true;
        }
        assert cs[..l + 1] == cs[..l] + [cs[l]];
      }
      assert cs[..|cs|] == cs;
      assert targets[..k + 1] == targets[..k] + [targets[k]];
    }
    assert targets[..|targets|] == targets;
    return false;
  }

  // ---------- The heaviest pod ----------

  predicate IsListed(p: Pod, podMilli: map<string, int>) {
    p.name in podMilli && podMilli[p.name] >= 0
  }

  /** The position of the first of the heaviest listed pods. */
  ghost predicate IsHighest(pods: seq<Pod>, podMilli: map<string, int>, k: int) {
    && 0 <= k < |pods| && IsListed(pods[k], podMilli)
    && forall j | 0 <= j < |pods| && IsListed(pods[j], podMilli) ::
         podMilli[pods[j].name] <= podMilli[pods[k].name]
         && (j < k ==> podMilli[pods[j].name] < podMilli[pods[k].name])
  }

  function Highest(pods: seq<Pod>, podMilli: map<string, int>): (k: Option<nat>)
    ensures k.Some? ==> k.value < |pods| && IsListed(pods[k.value], podMilli)
  {
    if pods == [] then None
    else
      var n := |pods| - 1;
      var k := Highest(pods[..n], podMilli);
      if IsListed(pods[n], podMilli) && (k.None? || podMilli[pods[n].name] > podMilli[pods[k.value].name])
      then Some(n) else k
  }

  lemma {:induction false} HighestIsFirstMaximum(pods: seq<Pod>, podMilli: map<string, int>)
    ensures Highest(pods, podMilli).Some? ==> IsHighest(pods, podMilli, Highest(pods, podMilli).value)
    ensures Highest(pods, podMilli).None? <==> forall p | p in pods :: !IsListed(p, podMilli)
    decreases |pods|
  {
    if pods != [] {
      var n := |pods| - 1;
      HighestIsFirstMaximum(pods[..n], podMilli);
      assert pods == pods[..n] + [pods[n]];
      assert forall j | 0 <= j < n :: pods[..n][j] == pods[j];
    }
  }

  method PickHighestCPUFromMilli(pods: seq<Pod>, podMilli: map<string, int>) returns (best: Option<nat>)
    ensures best == Highest(pods, podMilli)
  {
    best := None;
    var bestMilli := -1;
    for k := 0 to |pods|
      invariant best == Highest(pods[..k], podMilli)
      invariant bestMilli == if best.Some? then podMilli[pods[best.value].name] else -1
    {
      assert pods[..k + 1][..k] == pods[..k];
      if pods[k].name in podMilli {
        var m := podMilli[pods[k].name];
        if m > bestMilli {
          bestMilli, best := m, Some(k);
        }
      }
    }
    assert pods[..|pods|] == pods;
  }
}
