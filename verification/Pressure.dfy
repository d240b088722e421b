/** What one CPU-pressure event does to the state kept for a node, as a function: degrade, then evict,
    then escalate to the next criticality tier. */
module Pressure {
  import opened GoTypes
  import opened Criticality
  import opened Tiers
  import opened Degradation

  const TIER_MISSING_TOLERANCE := 2
  const NO_FURTHER_DEGRADATION := 999

  /** The state of one tier; the last two fields are history: how many degradations succeeded and how many
      evictions were attempted. */
  datatype TierState = TierState(
    degradeCount: int, evictTried: bool, missingTicks: int, lastDegradeTime: int,
    successes: nat, attempts: nat)

  const FRESH := TierState(0, false, 0, 0, 0, 0)

  datatype NodeState = NodeState(
    aboveSec: int, tiers: seq<string>, currentIdx: int, current: string, perTier: map<string, TierState>)

  const INITIAL := NodeState(0, [], 0, "", map[])

  /** What an event sees and what the API answers: the node's pods, their applications' criticality, their
      requests, for how long the node has been busy, whether a resize patch is accepted, and the pods as
      API responses would leave them. */
  datatype Snapshot = Snapshot(
    pods: seq<Pod>, rtData: RTData, podMilli: map<string, int>, overSec: nat, accepted: bool, refreshed: seq<Pod>)

  /** The busy time from its annotation: absent, unreadable and negative values count as zero. */
  function OverSec(parsed: Option<int>): (seconds: nat)
    ensures parsed.Some? && parsed.value >= 0 ==> parsed == Some(seconds)
    ensures parsed.None? || parsed.value < 0 ==> seconds == 0
  {
    if parsed.Some? && parsed.value >= 0 then parsed.value else 0
  }

  function At(s: Snapshot, busyFor: Option<int>): Snapshot {
    s.(overSec := OverSec(busyFor))
  }

  // ---------- One tier ----------

  predicate ShouldDegrade(ts: TierState, overSec: nat) {
    overSec >= 1 && !ts.evictTried && (ts.degradeCount == 0 || overSec - ts.lastDegradeTime >= 3)
  }

  function DegradeStep(ts: TierState, targets: seq<Pod>, s: Snapshot): TierState {
    var top := Highest(targets, s.podMilli);
    if !ShouldDegrade(ts, s.overSec) || top.None? then ts
    else if s.podMilli[targets[top.value].name] <= MIN_MILLI then ts.(degradeCount := NO_FURTHER_DEGRADATION)
    else if Succeeds(targets[top.value], s.accepted) then
      ts.(degradeCount := ts.degradeCount + 1, lastDegradeTime := s.overSec, successes := ts.successes + 1)
    else ts
  }

  function EvictStep(ts: TierState, targets: seq<Pod>, s: Snapshot): TierState {
    if s.overSec >= 10 && ts.degradeCount > 0 && !ts.evictTried && Highest(targets, s.podMilli).Some?
    then ts.(evictTried := true, attempts := ts.attempts + 1)
    else ts
  }

  function Act(ts: TierState, targets: seq<Pod>, s: Snapshot): TierState {
    EvictStep(DegradeStep(ts, targets, s), targets, s)
  }

  /** The pods as the handler sees them after its calls. */
  function SeenAfter(before: TierState, after: TierState, s: Snapshot): seq<Pod> {
    if after.successes != before.successes || after.attempts != before.attempts then s.refreshed else s.pods
  }

  /** The tier is through: degraded, its eviction tried, and nothing in it above the minimum request. */
  predicate IsThrough(before: TierState, after: TierState, tier: string, s: Snapshot) {
    after.degradeCount > 0 && after.evictTried && !Actionable(SeenAfter(before, after, s), s.rtData, tier)
  }

  // ---------- The node ----------

  function TierOf(ns: NodeState, tier: string): TierState {
    if tier in ns.perTier then ns.perTier[tier] else FRESH
  }

  function IndexOf(tiers: seq<string>, t: string): (i: nat)
    requires t in tiers
    ensures i < |tiers| && tiers[i] == t && t !in tiers[..i]
  {
    if tiers[0] == t then 0 else 1 + IndexOf(tiers[1..], t)
  }

  function WithTier(ns: NodeState, tier: string, ts: TierState): NodeState {
    ns.(perTier := ns.perTier[tier := ts])
  }

  /** Makes a present tier the current one. */
  function Enter(ns: NodeState, tier: string): NodeState
    requires tier in ns.tiers
  {
    ns.(current := tier, currentIdx := IndexOf(ns.tiers, tier), perTier := ns.perTier[tier := TierOf(ns, tier)])
  }

  function ProcessPresent(ns: NodeState, targets: seq<Pod>, s: Snapshot): NodeState {
    var before := TierOf(ns, ns.current);
    var after := Act(before.(missingTicks := 0), targets, s);
    var done := WithTier(ns, ns.current, after);
    var next := NextHigher(ns.current, ns.tiers);
    if IsThrough(before, after, ns.current, s) && next.Some? then Enter(done, next.value) else done
  }

  function ProcessTier(ns: NodeState, s: Snapshot): NodeState
    decreases 2 - Rank(ns.current)
  {
    var targets := InTier(s.pods, s.rtData, ns.current);
    if targets != [] then ProcessPresent(ns, targets, s)
    else
      var before := TierOf(ns, ns.current);
      var missed := before.(missingTicks := before.missingTicks + 1);
      var done := WithTier(ns, ns.current, missed);
      var next := NextHigher(ns.current, ns.tiers);
      if missed.missingTicks >= TIER_MISSING_TOLERANCE && next.Some? then ProcessTier(Enter(done, next.value), s)
      else done
  }

  function Reindex(ns: NodeState): NodeState {
    if ns.tiers == [] then ns.(current := "", currentIdx := 0)
    else if ns.current in ns.tiers then ns.(currentIdx := IndexOf(ns.tiers, ns.current))
    else ns.(current := ns.tiers[0], currentIdx := 0)
  }

  /** The state just before the current tier is processed. */
  function Refresh(ns: NodeState, s: Snapshot): NodeState {
    Reindex(ns.(tiers := PresentTiers(s.pods, s.rtData), aboveSec := s.overSec))
  }

  /** One pressure event on a node with pods. */
  function Handle(ns: NodeState, s: Snapshot): NodeState {
    var ready := Refresh(ns, s);
    if ready.tiers == [] then ready else ProcessTier(ready, s)
  }

  /** Everything that can happen to a node's entry: a pressure event whose inputs could not all be read, a
      pressure event, and a recovery, which clears the entry unless it stops early. */
  datatype Event = Unread | Busy(s: Snapshot) | Recovered(cleared: bool)

  function Next(state: Option<NodeState>, e: Event): Option<NodeState> {
    match e
    case Unread => state
    case Busy(s) =>
      if s.pods == [] then state
      else Some(Handle(if state.Some? then state.value else INITIAL, s))
    case Recovered(cleared) => if cleared then None else state
  }

  function Run(state: Option<NodeState>, events: seq<Event>): Option<NodeState>
    decreases |events|
  {
    if events == [] then state else Next(Run(state, events[..|events| - 1]), events[|events| - 1])
  }
}
