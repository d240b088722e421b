/** The event handler as the program runs it: per-node state objects with per-tier records, updated in
    place. Every method states its effect as a function of module Pressure on the abstract state. */
module EventHandler {
  import opened GoTypes
  import opened Criticality
  import opened Tiers
  import opened Degradation
  import opened Pressure
  import opened PressureTheorems

  class PerTierState {
    ghost const owner: NodePressureState
    ghost const tier: string
    var degradeCount: int
    var evictTried: bool
    var missingTicks: int
    var lastDegradeTime: int
    ghost var successes: nat
    ghost var attempts: nat

    constructor (ghost owner: NodePressureState, ghost tier: string)
      ensures this.owner == owner && this.tier == tier && View() == FRESH
    {
      this.owner, this.tier := owner, tier;
      degradeCount, evictTried, missingTicks, lastDegradeTime := 0, false, 0, 0;
      successes, attempts := 0, 0;
    }

    ghost function View(): TierState
      reads this
    {
      TierState(degradeCount, evictTried, missingTicks, lastDegradeTime, successes, attempts)
    }

    /** The degradation part of processing a tier. */
    method Degrade(targets: seq<Pod>, podMilli: map<string, int>, overSec: nat, accepted: bool, ghost s: Snapshot)
      returns (done: bool)
      requires s.podMilli == podMilli && s.overSec == overSec && s.accepted == accepted
      modifies this
      ensures View() == DegradeStep(old(View()), targets, s)
      ensures done <==> successes != old(successes)
    {
      done := false;
      if overSec >= 1 && !evictTried {
        var shouldDegrade := degradeCount == 0 || overSec - lastDegradeTime >= 3;
        if shouldDegrade {
          var top := PickHighestCPUFromMilli(targets, podMilli);
          if top.Some? {
            var currentMilli := 0;
            if podMilli[targets[top.value].name] > 0 {
              currentMilli := podMilli[targets[top.value].name];
            }
            if currentMilli > MIN_MILLI {
              var ok, _ := DegradePodRequests(targets[top.value], accepted);
              if ok {
                degradeCount := degradeCount + 1;
                lastDegradeTime := overSec;
                successes := successes + 1;
                done := true;
              }
            } else {
              degradeCount := NO_FURTHER_DEGRADATION;
            }
          }
        }
      }
    }

    /** The eviction part: one attempt, whether or not the API grants it. */
    method Evict(targets: seq<Pod>, podMilli: map<string, int>, overSec: nat, ghost s: Snapshot)
      returns (tried: bool)
      requires s.podMilli == podMilli && s.overSec == overSec
      modifies this
      ensures View() == EvictStep(old(View()), targets, s)
      ensures tried <==> attempts != old(attempts)
    {
      tried := false;
      if overSec >= 10 && degradeCount > 0 && !evictTried {
        var victim := PickHighestCPUFromMilli(targets, podMilli);
        if victim.Some? {
          evictTried := true;
          attempts := attempts + 1;
          tried := true;
        }
      }
    }

    /** Degrades and evicts; the result is the node's pods after the calls. */
    method ActOn(targets: seq<Pod>, s: Snapshot) returns (seen: seq<Pod>)
      modifies this
      ensures View() == Act(old(View()).(missingTicks := 0), targets, s)
      ensures seen == SeenAfter(old(View()), View(), s)
    {
      missingTicks := 0;
      var done := Degrade(targets, s.podMilli, s.overSec, s.accepted, s);
      var tried := Evict(targets, s.podMilli, s.overSec, s);
      seen := if done || tried then s.refreshed else s.pods;
    }
  }

  class NodePressureState {
    var aboveSec: int
    var tiers: seq<string>
    var currentTierIdx: int
    var currentTier: string
    var perTier: map<string, PerTierState>
    ghost const name: string
    ghost var Repr: set<PerTierState>

    /** The records belong to this object and each to its own tier, so that none is shared. */
    ghost predicate Valid()
      reads this, Repr
    {
      && (forall r | r in Repr :: r.owner == this)
      && (forall t | t in perTier :: perTier[t] in Repr && perTier[t].tier == t)
    }

    ghost function Records(): map<string, TierState>
      requires Valid()
      reads this, Repr
    {
      map t | t in perTier :: perTier[t].View()
    }

    ghost function View(): NodeState
      requires Valid()
      reads this, Repr
    {
      NodeState(aboveSec, tiers, currentTierIdx, currentTier, Records())
    }

    constructor (ghost name: string)
      ensures this.name == name && Valid() && View() == INITIAL && Repr == {}
    {
      this.name := name;
      aboveSec, tiers, currentTierIdx, currentTier := 0, [], 0, "";
      perTier, Repr := map[], {};
    }

    method ReindexCurrentTier()
      requires Valid()
      modifies this`currentTier, this`currentTierIdx
      ensures Valid() && View() == Reindex(old(View()))
    {
      if |tiers| == 0 {
        currentTier, currentTierIdx := "", 0;
        return;
      }
      for i := 0 to |tiers|
        invariant currentTier !in tiers[..i]
        invariant currentTier == old(currentTier) && currentTierIdx == old(currentTierIdx)
      {
        if tiers[i] == currentTier {
          currentTierIdx := i;
          FirstIndex(tiers, currentTier, i);
          return;
        }
      }
      assert tiers[..|tiers|] == tiers;
      currentTierIdx, currentTier := 0, tiers[0];
    }

    /** The record of a tier, made on first use. */
    method Ensure(t: string) returns (pts: PerTierState)
      requires Valid()
      modifies this`perTier, this`Repr
      ensures Valid() && fresh(Repr - old(Repr)) && old(Repr) <= Repr
      ensures t in perTier && pts == perTier[t]
      ensures View() == WithTier(old(View()), t, TierOf(old(View()), t))
    {
      if t in perTier {
        pts := perTier[t];
        assert Records() == old(Records())[t := old(Records())[t]];
      } else {
        ghost var was := Records();
        pts := new PerTierState(this, t);
        perTier, Repr := perTier[t := pts], Repr + {pts};
        assert forall u | u in was :: perTier[u].View() == was[u];
        assert Records() == was[t := FRESH];
      }
    }

    /** Makes a present tier the current one. */
    method EnterTier(t: string)
      requires Valid() && t in tiers
      modifies this`currentTier, this`currentTierIdx, this`perTier, this`Repr
      ensures Valid() && fresh(Repr - old(Repr)) && old(Repr) <= Repr
      ensures View() == Enter(old(View()), t)
    {
      currentTier := t;
      LocateTier(t);
      var _ := Ensure(t);
    }

    method LocateTier(t: string)
      requires t in tiers
      modifies this`currentTierIdx
      ensures currentTierIdx == IndexOf(tiers, t)
    {
      for i := 0 to |tiers|
        invariant t !in tiers[..i]
      {
        if tiers[i] == t {
          currentTierIdx := i;
          FirstIndex(tiers, t, i);
          break;
        }
      }
    }

    /** Moves on to the next present tier up, if there is one. */
    method Escalate()
      requires Valid()
      modifies this`currentTier, this`currentTierIdx, this`perTier, this`Repr
      ensures Valid() && fresh(Repr - old(Repr)) && old(Repr) <= Repr
      ensures View() ==
        var next := NextHigher(old(currentTier), old(tiers));
        if next.Some? && next.value in old(tiers) then Enter(old(View()), next.value) else old(View())
    {
      var next := NextHigherTier(currentTier, tiers);
      NextHigherIsNext(currentTier, tiers);
      if next.Some? {
        EnterTier(next.value);
      }
    }

    /** Sets one counter of one record. */
    method SetMissingTicks(t: string, ticks: int)
      requires Valid() && t in perTier
      modifies perTier[t]
      ensures Valid() && View() == WithTier(old(View()), t, TierOf(old(View()), t).(missingTicks := ticks))
    {
      ghost var was := Records();
      perTier[t].missingTicks := ticks;
      assert forall u | u in perTier && u != t :: perTier[u].View() == was[u];
      assert Records() == was[t := was[t].(missingTicks := ticks)];
    }

    method ActOnTier(t: string, targets: seq<Pod>, s: Snapshot) returns (seen: seq<Pod>)
      requires Valid() && t in perTier
      modifies perTier[t]
      ensures Valid()
      ensures
        var before := TierOf(old(View()), t);
        var after := Act(before.(missingTicks := 0), targets, s);
        View() == WithTier(old(View()), t, after) && seen == SeenAfter(before, after, s)
    {
      ghost var was := Records();
      seen := perTier[t].ActOn(targets, s);
      assert forall u | u in perTier && u != t :: perTier[u].View() == was[u];
      assert Records() == was[t := Act(was[t].(missingTicks := 0), targets, s)];
    }

    method ProcessCurrentTier(s: Snapshot)
      requires Valid()
      modifies this, Repr
      ensures Valid() && fresh(Repr - old(Repr)) && old(Repr) <= Repr
      ensures View() == ProcessTier(old(View()), s)
      decreases 2 - Rank(currentTier)
    {
      ghost var ns := View();
      var curTier := currentTier;
      var pts := Ensure(curTier);
      EnsuredProcess(ns, s);
      var targets := FilterPodsByCriticality(s.pods, s.rtData, curTier);
      if |targets| == 0 {
        SkipTier(s, curTier, pts.missingTicks + 1);
        return;
      }
      ProcessTargets(s, curTier, targets);
    }

    /** The branch for a tier without pods. */
    method SkipTier(s: Snapshot, curTier: string, ticks: int)
      requires Valid() && curTier == currentTier && curTier in perTier && ticks == perTier[curTier].missingTicks + 1
      requires InTier(s.pods, s.rtData, curTier) == []
      modifies this, Repr
      ensures Valid() && fresh(Repr - old(Repr)) && old(Repr) <= Repr
      ensures View() == ProcessTier(old(View()), s)
      decreases 2 - Rank(currentTier), 0
    {
      SetMissingTicks(curTier, ticks);
      if ticks >= TIER_MISSING_TOLERANCE {
        var next := NextHigherTier(curTier, tiers);
        NextHigherIsNext(curTier, tiers);
        if next.Some? {
          EnterTier(next.value);
          ProcessCurrentTier(s);
        }
      }
    }

    /** The branch for a tier with pods. */
    method ProcessTargets(s: Snapshot, curTier: string, targets: seq<Pod>)
      requires Valid() && curTier == currentTier && curTier in perTier
      requires targets == InTier(s.pods, s.rtData, curTier) && targets != []
      modifies this, Repr
      ensures Valid() && fresh(Repr - old(Repr)) && old(Repr) <= Repr
      ensures View() == ProcessPresent(old(View()), targets, s)
    {
      var seen := ActOnTier(curTier, targets, s);
      var pts := perTier[curTier];
      if pts.degradeCount > 0 && pts.evictTried {
        var actionable := HasActionableInTier(seen, s.rtData, curTier);
        if !actionable {
          Escalate();
        }
      }
    }
  }

  ghost predicate Apart(o: object, objects: set<object>) {
    o !in objects
  }

  /** The process-wide table of pressure states, by node name. */
  class Handler {
    var states: map<string, NodePressureState>
    ghost var entries: map<string, NodeState>
    ghost var Repr: set<object>

    ghost predicate Valid()
      reads this, Repr
    {
      && this !in Repr && entries.Keys == states.Keys
      && forall n | n in states :: Owned(n) && states[n].View() == entries[n]
    }

    /** The entry is valid, belongs to its node, and is part of the table. */
    ghost predicate Owned(n: string)
      requires n in states
      reads this, Repr
    {
      states[n] in Repr && states[n].Repr <= Repr && states[n].name == n && states[n].Valid()
    }

    ghost function StateOf(n: string): Option<NodeState>
      reads this
    {
      if n in entries then Some(entries[n]) else None
    }

    constructor ()
      ensures Valid() && forall n :: StateOf(n) == None
    {
      states, entries, Repr := map[], map[], {};
    }

    /** The entry of a node, made on first use. */
    method EntryOf(n: string)
      requires Valid()
      modifies this
      ensures Valid() && fresh(Repr - old(Repr)) && n in states
      ensures entries == if n in old(entries) then old(entries) else old(entries)[n := INITIAL]
    {
      if n !in states {
        var state := new NodePressureState(n);
        states, entries, Repr := states[n := state], entries[n := INITIAL], Repr + {state};
      }
    }

    /** A pressure event; `reading` is absent when some input of the event could not be read, and `busyFor` is
        the busy time read from its annotation, which may be missing or negative. Only the node's own entry
        changes. */
    method HandleNodeCPUPressure(n: string, busyFor: Option<int>, reading: Option<Snapshot>)
      requires Valid()
      modifies this, Repr
      ensures Valid() && fresh(Repr - old(Repr))
      ensures StateOf(n) == Next(old(StateOf(n)), if reading.Some? then Busy(At(reading.value, busyFor)) else Unread)
      ensures forall m | m != n :: StateOf(m) == old(StateOf(m))
    {
      if reading.None? || |reading.value.pods| == 0 {
        return;
      }
      EntryOf(n);
      var s := At(reading.value, busyFor);
      HandleEntry(n, s, Handle(entries[n], s));
    }

    method HandleEntry(n: string, s: Snapshot, ghost after: NodeState)
      requires Valid() && n in states && after == Handle(entries[n], s)
      modifies this`entries, this`Repr, Repr
      ensures Valid() && fresh(Repr - old(Repr))
      ensures entries == old(entries)[n := after]
    {
      ChangeEntry(n, s, after);
      Settle(n, after);
    }

    /** Processes one entry, before the ghost fields follow. */
    method ChangeEntry(n: string, s: Snapshot, ghost after: NodeState)
      requires Valid() && n in states && after == Handle(entries[n], s)
      modifies Repr
      ensures this !in Repr && Apart(this, states[n].Repr)
      ensures forall m | m in states :: states[m] in Repr && states[m].name == m && states[m].Valid()
      ensures states[n].View() == after && fresh(states[n].Repr - Repr)
      ensures forall m | m in states && m != n :: states[m].Repr <= Repr && states[m].View() == entries[m]
    {
      assert Owned(n);
      var state := states[n];
      forall m | m in states && m != n
        ensures states[m] != state && states[m].Repr !! state.Repr
      {
        assert Owned(m);
      }
      ProcessEntry(state, s);
    }

    /** After one entry has been changed through its own methods, the ghost fields follow. */
    ghost method Settle(n: string, after: NodeState)
      requires n in states && entries.Keys == states.Keys && this !in Repr && Apart(this, states[n].Repr)
      requires forall m | m in states :: states[m] in Repr && states[m].name == m && states[m].Valid()
      requires forall m | m in states && m != n :: states[m].Repr <= Repr && states[m].View() == entries[m]
      requires states[n].View() == after
      modifies this`entries, this`Repr
      ensures Valid() && Repr == old(Repr) + states[n].Repr
      ensures entries == old(entries)[n := after]
    {
      Repr, entries := Repr + states[n].Repr, entries[n := after];
      forall m | m in states
        ensures Owned(m) && states[m].View() == entries[m]
      {
        assert states[m].View() == old(states[m].View());
      }
    }

    /** The handling once the entry is at hand. */
    method ProcessEntry(state: NodePressureState, s: Snapshot)
      requires state.Valid()
      modifies state, state.Repr
      ensures state.Valid() && fresh(state.Repr - old(state.Repr))
      ensures state.View() == Handle(old(state.View()), s)
    {
      ghost var ns := state.View();
      PrepareEntry(state, s);
      if |state.tiers| == 0 {
        return;
      }
      RefreshIsCoherent(ns, s);
      assert state.currentTier == Refresh(ns, s).current && state.currentTierIdx == Refresh(ns, s).currentIdx;
      if state.currentTier == "" || state.currentTierIdx >= |state.tiers| {
        // The source starts over from the lowest tier here; after the reindexing there is never a need.
        assert false;
      }
      state.ProcessCurrentTier(s);
    }

    method PrepareEntry(state: NodePressureState, s: Snapshot)
      requires state.Valid()
      modifies state`tiers, state`aboveSec, state`currentTier, state`currentTierIdx
      ensures state.Valid() && state.View() == Refresh(old(state.View()), s)
    {
      ghost var ns := state.View();
      state.tiers := CollectSortedTiers(s.pods, s.rtData);
      state.aboveSec := s.overSec;
      assert state.View() == ns.(tiers := PresentTiers(s.pods, s.rtData), aboveSec := s.overSec);
      state.ReindexCurrentTier();
    }

    /** A recovery clears the entry, unless the pods cannot be listed or the node has none with the label. */
    method HandleCPURecovery(n: string, listed: Option<seq<Pod>>)
      requires Valid()
      modifies this
      ensures Valid() && Repr == old(Repr)
      ensures StateOf(n) == Next(old(StateOf(n)), Recovered(listed.Some? && exists p :: p in listed.value && p.app != ""))
      ensures forall m | m != n :: StateOf(m) == old(StateOf(m))
    {
      if listed.None? {
        return;
      }
      var labelled := 0;
      for k := 0 to |listed.value|
        invariant labelled >= 0
        invariant labelled == 0 <==> forall p | p in listed.value[..k] :: p.app == ""
      {
        assert listed.value[..k + 1] == listed.value[..k] + [listed.value[k]];
        if listed.value[k].app != "" {
          labelled := labelled + 1;
        }
      }
      assert listed.value[..|listed.value|] == listed.value;
      if labelled == 0 {
        return;
      }
      states, entries := states - {n}, entries - {n};
    }
  }

  /** Making the current tier's record first changes nothing. */
  lemma EnsuredProcess(ns: NodeState, s: Snapshot)
    ensures
      var ensured := WithTier(ns, ns.current, TierOf(ns, ns.current));
      && ProcessTier(ensured, s) == ProcessTier(ns, s)
      && forall targets :: ProcessPresent(ensured, targets, s) == ProcessPresent(ns, targets, s)
  {
    var ensured := WithTier(ns, ns.current, TierOf(ns, ns.current));
    forall ts
      ensures WithTier(ensured, ns.current, ts) == WithTier(ns, ns.current, ts)
    {
      assert ensured.perTier[ns.current := ts] == ns.perTier[ns.current := ts];
    }
  }

  lemma {:induction false} FirstIndex(tiers: seq<string>, t: string, i: nat)
    requires i < |tiers| && tiers[i] == t && t !in tiers[..i]
    ensures IndexOf(tiers, t) == i
  {
    if i > 0 {
      assert tiers[..i][0] == tiers[0] && tiers[..i][1..] == tiers[1..][..i - 1];
      FirstIndex(tiers[1..], t, i - 1);
    }
  }
}
