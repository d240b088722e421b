/** What holds of a node's pressure state after every run of events. */
module PressureTheorems {
  import opened GoTypes
  import opened Criticality
  import opened Tiers
  import opened Pressure

  // ---------- Coherence of the current tier ----------

  /** The tiers are those present, in order, and the current one is among them, at its index. */
  ghost predicate Coherent(ns: NodeState, s: Snapshot) {
    && ns.tiers == PresentTiers(s.pods, s.rtData)
    && (ns.tiers != [] ==>
          && 0 <= ns.currentIdx < |ns.tiers| && ns.tiers[ns.currentIdx] == ns.current
          && IsRanked(ns.current)
          && InTier(s.pods, s.rtData, ns.current) != [])
  }

  /** Before the processing: the tiers and the current one are coherent, a current tier that is still
      present stays, a vanished one is replaced by the lowest present, or by none; no record changes. */
  lemma RefreshIsCoherent(ns: NodeState, s: Snapshot)
    ensures
      var ready := Refresh(ns, s);
      && Coherent(ready, s) && ready.perTier == ns.perTier && ready.aboveSec == s.overSec
      && (ns.current in ready.tiers ==> ready.current == ns.current)
      && (ns.current !in ready.tiers && ready.tiers != [] ==> ready.current == ready.tiers[0] && ready.currentIdx == 0)
      && (ready.tiers == [] ==> ready.current == "" && ready.currentIdx == 0)
  {
    var ready := Refresh(ns, s);
    if ready.tiers != [] {
      assert ready.current in ready.tiers;
      InTierMembers(s.pods, s.rtData, ready.current);
    }
  }

  /** On a coherent state the branch for an empty tier is not taken, and coherence is kept. */
  lemma ProcessKeepsCoherence(ns: NodeState, s: Snapshot)
    requires Coherent(ns, s) && ns.tiers != []
    ensures ProcessTier(ns, s) == ProcessPresent(ns, InTier(s.pods, s.rtData, ns.current), s)
    ensures Coherent(ProcessTier(ns, s), s)
  {
    var after := ProcessTier(ns, s);
    assert after.tiers == ns.tiers;
    NextHigherIsNext(ns.current, ns.tiers);
    InTierMembers(s.pods, s.rtData, after.current);
  }

  /** After every pressure event, from any earlier state: tiers and current tier are coherent, and the
      processing never meets a tier without pods. */
  lemma HandleIsCoherent(ns: NodeState, s: Snapshot)
    ensures Coherent(Handle(ns, s), s)
    ensures Refresh(ns, s).tiers != [] ==>
      var ready := Refresh(ns, s);
      && InTier(s.pods, s.rtData, ready.current) != []
      && Handle(ns, s) == ProcessPresent(ready, InTier(s.pods, s.rtData, ready.current), s)
  {
    RefreshIsCoherent(ns, s);
    if Refresh(ns, s).tiers != [] {
      ProcessKeepsCoherence(Refresh(ns, s), s);
    }
  }

  /** On a node without a ranked tier an event changes no record. */
  lemma NothingToProtect(ns: NodeState, s: Snapshot)
    requires forall p | p in s.pods && p.app in s.rtData && p.app != "" ::
      s.rtData[p.app] != "LOW" && s.rtData[p.app] != "MIDDLE" && s.rtData[p.app] != "HIGH"
    ensures Handle(ns, s) == NodeState(s.overSec, [], 0, "", ns.perTier)
  {
    RefreshIsCoherent(ns, s);
  }

  // ---------- What one event does to the tier in turn ----------

  /** The tier in turn: the current one, or the lowest present if that has vanished. */
  function InTurn(ns: NodeState, s: Snapshot): string
    requires PresentTiers(s.pods, s.rtData) != []
  {
    var tiers := PresentTiers(s.pods, s.rtData);
    if ns.current in tiers then ns.current else tiers[0]
  }

  /** Exactly when an event degrades: the node has been busy for a second, the tier's eviction has not been
      tried, this is its first degradation or three seconds have passed since the last, its heaviest listed
      pod totals more than ten millicores, and the API server accepts the patch or there is nothing to
      patch. A heaviest pod of ten or less, when it is time, marks the tier with 999 instead. Otherwise the
      degradation counters stay. */
  lemma DegradesIff(ns: NodeState, s: Snapshot, k: nat)
    requires PresentTiers(s.pods, s.rtData) != []
    requires IsHighest(InTier(s.pods, s.rtData, InTurn(ns, s)), s.podMilli, k)
    ensures
      var top := InTier(s.pods, s.rtData, InTurn(ns, s))[k];
      var b, a := TierOf(ns, InTurn(ns, s)), TierOf(Handle(ns, s), InTurn(ns, s));
      var due := s.overSec >= 1 && !b.evictTried && (b.degradeCount == 0 || s.overSec >= b.lastDegradeTime + 3);
      var patched := s.accepted || forall c | c in top.containers :: c.request == None || c.request == Some(0);
      && (due && s.podMilli[top.name] > 10 && patched ==>
            a.successes == b.successes + 1 && a.degradeCount == b.degradeCount + 1 && a.lastDegradeTime == s.overSec)
      && (!(due && s.podMilli[top.name] > 10 && patched) ==>
            && a.successes == b.successes && a.lastDegradeTime == b.lastDegradeTime
            && a.degradeCount == if due && s.podMilli[top.name] <= 10 then 999 else b.degradeCount)
  {
    var start := InTurn(ns, s);
    var targets := InTier(s.pods, s.rtData, start);
    LowestTierIsServedIff(ns, s);
    OnlyOneIsHighest(targets, s.podMilli, k);
  }

  lemma OnlyOneIsHighest(pods: seq<Pod>, podMilli: map<string, int>, k: nat)
    requires IsHighest(pods, podMilli, k)
    ensures Highest(pods, podMilli) == Some(k)
  {
    HighestIsFirstMaximum(pods, podMilli);
    assert pods[k] in pods && IsListed(pods[k], podMilli);
  }

  /** Exactly when an event tries the tier's eviction: at ten seconds or later, once, when the tier counts as
      degraded, be it by this event or by the mark of 999, and one of its pods is listed. */
  lemma EvictsIff(ns: NodeState, s: Snapshot)
    requires PresentTiers(s.pods, s.rtData) != []
    ensures
      var start := InTurn(ns, s);
      var b, a := TierOf(ns, start), TierOf(Handle(ns, s), start);
      var listed := exists p :: p in s.pods && HasCriticality(p, s.rtData, start)
                                && p.name in s.podMilli && s.podMilli[p.name] >= 0;
      && (a.attempts == if s.overSec >= 10 && !b.evictTried && a.degradeCount > 0 && listed
                        then b.attempts + 1 else b.attempts)
      && (a.evictTried <==> b.evictTried || (s.overSec >= 10 && a.degradeCount > 0 && listed))
      && a.missingTicks == 0
  {
    var start := InTurn(ns, s);
    LowestTierIsServedIff(ns, s);
    HighestIffListed(s, start);
    ActEvictsIff(TierOf(ns, start), InTier(s.pods, s.rtData, start), s);
  }

  lemma HighestIffListed(s: Snapshot, tier: string)
    ensures Highest(InTier(s.pods, s.rtData, tier), s.podMilli).Some? <==>
      exists p :: p in s.pods && HasCriticality(p, s.rtData, tier) && p.name in s.podMilli && s.podMilli[p.name] >= 0
  {
    var targets := InTier(s.pods, s.rtData, tier);
    InTierMembers(s.pods, s.rtData, tier);
    HighestIsFirstMaximum(targets, s.podMilli);
    if Highest(targets, s.podMilli).Some? {
      assert targets[Highest(targets, s.podMilli).value] in targets;
    }
    assert forall p :: IsListed(p, s.podMilli) <==> p.name in s.podMilli && s.podMilli[p.name] >= 0;
  }

  lemma ActEvictsIff(b: TierState, targets: seq<Pod>, s: Snapshot)
    ensures
      var a := Act(b.(missingTicks := 0), targets, s);
      var listed := Highest(targets, s.podMilli).Some?;
      && (a.attempts == if s.overSec >= 10 && !b.evictTried && a.degradeCount > 0 && listed
                        then b.attempts + 1 else b.attempts)
      && (a.evictTried <==> b.evictTried || (s.overSec >= 10 && a.degradeCount > 0 && listed))
      && a.missingTicks == 0
  {
  }

  /** With no pod of the tier listed, an event leaves its record alone. */
  lemma UnlistedTierIsLeftAlone(ns: NodeState, s: Snapshot)
    requires PresentTiers(s.pods, s.rtData) != []
    requires forall p | p in s.pods && HasCriticality(p, s.rtData, InTurn(ns, s)) && p.name in s.podMilli ::
      s.podMilli[p.name] < 0
    ensures TierOf(Handle(ns, s), InTurn(ns, s)) == TierOf(ns, InTurn(ns, s)).(missingTicks := 0)
  {
    var targets := InTier(s.pods, s.rtData, InTurn(ns, s));
    LowestTierIsServedIff(ns, s);
    InTierMembers(s.pods, s.rtData, InTurn(ns, s));
    HighestIsFirstMaximum(targets, s.podMilli);
  }

  lemma {:induction false} ProcessNeverDescends(ns: NodeState, s: Snapshot)
    ensures Rank(ProcessTier(ns, s).current) >= Rank(ns.current)
    decreases 2 - Rank(ns.current)
  {
    NextHigherIsNext(ns.current, ns.tiers);
    if InTier(s.pods, s.rtData, ns.current) == [] && NextHigher(ns.current, ns.tiers).Some? {
      var missed := TierOf(ns, ns.current).(missingTicks := TierOf(ns, ns.current).missingTicks + 1);
      ProcessNeverDescends(Enter(WithTier(ns, ns.current, missed), NextHigher(ns.current, ns.tiers).value), s);
    }
  }

  /** Processing a tier that has lost its pods passes on to a higher one at the second miss, and otherwise
      counts the miss and changes nothing else. */
  lemma AbsentTierIsPassedOverIff(ns: NodeState, s: Snapshot)
    requires IsRanked(ns.current) && !Present(s.pods, s.rtData, ns.current)
    requires exists t :: t in ns.tiers && IsRanked(t) && Rank(t) > Rank(ns.current)
    ensures Rank(ProcessTier(ns, s).current) > Rank(ns.current) <==> TierOf(ns, ns.current).missingTicks >= 1
    ensures TierOf(ns, ns.current).missingTicks < 1 ==>
      ProcessTier(ns, s) ==
        WithTier(ns, ns.current, TierOf(ns, ns.current).(missingTicks := TierOf(ns, ns.current).missingTicks + 1))
  {
    InTierMembers(s.pods, s.rtData, ns.current);
    NextHigherIsNext(ns.current, ns.tiers);
    var next := NextHigher(ns.current, ns.tiers).value;
    var missed := TierOf(ns, ns.current).(missingTicks := TierOf(ns, ns.current).missingTicks + 1);
    ProcessNeverDescends(Enter(WithTier(ns, ns.current, missed), next), s);
  }

  // ---------- Bounded harm ----------

  /** Degradations are at least three seconds apart on the busy clock and stop when eviction is tried,
      which happens at ten seconds at the latest once there has been one. */
  ghost predicate Bounded(ts: TierState) {
    && ts.degradeCount >= ts.successes
    && (ts.successes > 0 ==> ts.lastDegradeTime >= 1 + 3 * (ts.successes - 1))
    && (ts.successes > 0 && !ts.evictTried ==> ts.lastDegradeTime < 10)
    && ts.successes <= 4
    && ts.attempts == (if ts.evictTried then 1 else 0)
  }

  lemma ActKeepsBounded(ts: TierState, targets: seq<Pod>, s: Snapshot)
    requires Bounded(ts)
    ensures Bounded(Act(ts, targets, s))
  {
  }

  ghost predicate AllBounded(ns: NodeState) {
    forall t | t in ns.perTier :: IsRanked(t) && Bounded(ns.perTier[t])
  }

  lemma ProcessKeepsBounded(ns: NodeState, targets: seq<Pod>, s: Snapshot)
    requires AllBounded(ns) && IsRanked(ns.current)
    ensures AllBounded(ProcessPresent(ns, targets, s))
  {
    var before := TierOf(ns, ns.current);
    ActKeepsBounded(before.(missingTicks := 0), targets, s);
    NextHigherIsNext(ns.current, ns.tiers);
  }

  lemma HandleKeepsBounded(ns: NodeState, s: Snapshot)
    requires AllBounded(ns)
    ensures AllBounded(Handle(ns, s))
  {
    var ready := Refresh(ns, s);
    RefreshIsCoherent(ns, s);
    HandleIsCoherent(ns, s);
    if ready.tiers != [] {
      ProcessKeepsBounded(ready, InTier(s.pods, s.rtData, ready.current), s);
    }
  }

  function Successes(ns: NodeState): nat {
    TierOf(ns, "LOW").successes + TierOf(ns, "MIDDLE").successes + TierOf(ns, "HIGH").successes
  }

  function Attempts(ns: NodeState): nat {
    TierOf(ns, "LOW").attempts + TierOf(ns, "MIDDLE").attempts + TierOf(ns, "HIGH").attempts
  }

  /** During the life of a node's entry, over any sequence of events whatever their times, pods, data and
      API answers: each tier suffers at most four successful degradations and one eviction attempt, and no
      other tier exists, so the node suffers at most twelve and three. */
  lemma {:induction false} HarmIsBounded(events: seq<Event>)
    ensures
      var state := Run(None, events);
      state.Some? ==> AllBounded(state.value) && Successes(state.value) <= 12 && Attempts(state.value) <= 3
    decreases |events|
  {
    if events != [] {
      var n := |events| - 1;
      HarmIsBounded(events[..n]);
      var before := Run(None, events[..n]);
      if events[n].Busy? {
        HandleKeepsBounded(if before.Some? then before.value else INITIAL, events[n].s);
      }
    }
  }

  /** The bound of four is met: at 1, 4, 7 and 10 seconds, the last together with the eviction. */
  lemma FourDegradationsHappen(pod: Pod, s: Snapshot)
    requires s.pods == [pod] && pod.app != "" && s.rtData == map[pod.app := "LOW"] && s.accepted
    requires s.podMilli == map[pod.name := 1000]
    ensures
      var events := [Busy(s.(overSec := 1)), Busy(s.(overSec := 4)), Busy(s.(overSec := 7)), Busy(s.(overSec := 10))];
      var state := Run(None, events);
      state.Some? && TierOf(state.value, "LOW").successes == 4 && TierOf(state.value, "LOW").attempts == 1
  {
    var s1, s4, s7, s10 := s.(overSec := 1), s.(overSec := 4), s.(overSec := 7), s.(overSec := 10);
    var events := [Busy(s1), Busy(s4), Busy(s7), Busy(s10)];
    OnlyPodIsPicked(pod, s1);
    var a := Handle(INITIAL, s1);
    LowStep(INITIAL, pod, s1);
    LowStep(a, pod, s4);
    var b := Handle(a, s4);
    LowStep(b, pod, s7);
    var c := Handle(b, s7);
    LowStep(c, pod, s10);
    assert events[..3][..2][..1][..0] == [];
    assert events[..3][..2][..1] == [Busy(s1)] && events[..3][..2] == [Busy(s1), Busy(s4)];
    assert Run(None, [Busy(s1)]) == Some(a) by {
      assert [Busy(s1)][..0] == [];
    }
    assert Run(None, [Busy(s1), Busy(s4)]) == Some(b) by {
      assert [Busy(s1), Busy(s4)][..1] == [Busy(s1)];
    }
    assert events[..3] == [Busy(s1), Busy(s4), Busy(s7)];
    assert Run(None, events[..3]) == Some(c);
  }

  lemma OnlyPodIsPicked(pod: Pod, s: Snapshot)
    requires s.pods == [pod] && pod.app != "" && s.rtData == map[pod.app := "LOW"]
    requires s.podMilli == map[pod.name := 1000]
    ensures PresentTiers(s.pods, s.rtData) == ["LOW"] && InTier(s.pods, s.rtData, "LOW") == [pod]
    ensures Highest([pod], s.podMilli) == Some(0)
  {
    assert pod in s.pods && HasCriticality(pod, s.rtData, "LOW");
    assert [pod][..0] == [];
    assert Highest([], s.podMilli) == None;
  }

  /** One event on a node with a single LOW pod. */
  lemma LowStep(ns: NodeState, pod: Pod, s: Snapshot)
    requires s.pods == [pod] && pod.app != "" && s.rtData == map[pod.app := "LOW"]
    requires s.podMilli == map[pod.name := 1000]
    ensures TierOf(Handle(ns, s), "LOW") == Act(TierOf(ns, "LOW").(missingTicks := 0), [pod], s)
    ensures Highest([pod], s.podMilli) == Some(0)
  {
    OnlyPodIsPicked(pod, s);
    LowestTierIsServedIff(ns, s);
  }

  // ---------- Escalation ----------

  /** One event moves the current tier in exactly one of these ways. If the old tier is gone, it starts
      from the lowest present tier. From there it stays, or goes to the next present tier up, and that just
      when the tier it leaves is through and there is a higher one. */
  lemma EscalationIff(ns: NodeState, s: Snapshot)
    requires PresentTiers(s.pods, s.rtData) != []
    ensures
      var tiers, after := PresentTiers(s.pods, s.rtData), Handle(ns, s);
      var start := if ns.current in tiers then ns.current else tiers[0];
      var through := IsThrough(TierOf(ns, start), TierOf(after, start), start, s);
      && (through && NextHigher(start, tiers).Some? ==> after.current == NextHigher(start, tiers).value)
      && (!(through && NextHigher(start, tiers).Some?) ==> after.current == start)
  {
    HandleIsCoherent(ns, s);
    NextHigherIsNext(Refresh(ns, s).current, Refresh(ns, s).tiers);
  }

  /** Spelled out: let `next` be the lowest present tier above the one in turn. The event moves on to it
      exactly when, afterwards, the tier in turn counts as degraded, its eviction has been tried, and none of
      its pods has a container requesting more than ten millicores, as the API server last answered if
      this event degraded or evicted, and as listed otherwise. */
  lemma MovesOnIff(ns: NodeState, s: Snapshot, next: string)
    requires PresentTiers(s.pods, s.rtData) != []
    requires next in PresentTiers(s.pods, s.rtData) && Rank(InTurn(ns, s)) < Rank(next)
    requires forall t | t in PresentTiers(s.pods, s.rtData) && Rank(t) > Rank(InTurn(ns, s)) :: Rank(next) <= Rank(t)
    ensures
      var start := InTurn(ns, s);
      var b, a := TierOf(ns, start), TierOf(Handle(ns, s), start);
      var seen := if a.successes > b.successes || a.attempts > b.attempts then s.refreshed else s.pods;
      Handle(ns, s).current == next <==>
        && a.degradeCount > 0 && a.evictTried
        && forall p, c | p in seen && p.app != "" && p.app in s.rtData && s.rtData[p.app] == start
                         && c in p.containers && c.request.Some? :: c.request.value <= 10
  {
    var tiers, start := PresentTiers(s.pods, s.rtData), InTurn(ns, s);
    NextIsTheOne(start, tiers, next);
    EscalationIff(ns, s);
    LowestTierIsServedIff(ns, s);
    ThroughIff(TierOf(ns, start), InTier(s.pods, s.rtData, start), start, s);
  }

  lemma NextIsTheOne(cur: string, tiers: seq<string>, next: string)
    requires IsRanked(cur) && IsRanked(next) && next in tiers && Rank(cur) < Rank(next)
    requires forall t | t in tiers && Rank(t) > Rank(cur) :: Rank(next) <= Rank(t)
    ensures NextHigher(cur, tiers) == Some(next)
  {
    NextHigherIsNext(cur, tiers);
    RankIdentifies(next, NextHigher(cur, tiers).value);
  }

  lemma ThroughIff(ts: TierState, targets: seq<Pod>, tier: string, s: Snapshot)
    ensures
      var a := Act(ts.(missingTicks := 0), targets, s);
      var seen := if a.successes > ts.successes || a.attempts > ts.attempts then s.refreshed else s.pods;
      IsThrough(ts, a, tier, s) <==>
        && a.degradeCount > 0 && a.evictTried
        && forall p, c | p in seen && p.app != "" && p.app in s.rtData && s.rtData[p.app] == tier
                         && c in p.containers && c.request.Some? :: c.request.value <= 10
  {
    var a := Act(ts.(missingTicks := 0), targets, s);
    assert a.successes >= ts.successes && a.attempts >= ts.attempts;
    NothingActionable(SeenAfter(ts, a, s), s.rtData, tier);
  }

  lemma NothingActionable(pods: seq<Pod>, rtData: RTData, tier: string)
    ensures !Actionable(pods, rtData, tier) <==>
      forall p, c | p in pods && p.app != "" && p.app in rtData && rtData[p.app] == tier
                    && c in p.containers && c.request.Some? :: c.request.value <= 10
  {
    if !Actionable(pods, rtData, tier) {
      forall p, c | p in pods && p.app != "" && p.app in rtData && rtData[p.app] == tier
                    && c in p.containers && c.request.Some?
        ensures c.request.value <= 10
      {
        assert HasCriticality(p, rtData, tier) && !IsActionable(p);
      }
    }
  }

  /** And with no present tier above it, the tier in turn stays. */
  lemma TopTierStays(ns: NodeState, s: Snapshot)
    requires PresentTiers(s.pods, s.rtData) != []
    requires forall t | t in PresentTiers(s.pods, s.rtData) :: Rank(t) <= Rank(InTurn(ns, s))
    ensures Handle(ns, s).current == InTurn(ns, s)
  {
    EscalationIff(ns, s);
    NextHigherIsNext(InTurn(ns, s), PresentTiers(s.pods, s.rtData));
  }

  /** So the rank of the current tier falls only when that tier has vanished, and while it is present rises
      only to the next present tier, from a tier that has been degraded, has had its eviction tried, and
      holds no container above the minimum. */
  lemma RankMovesInOrder(ns: NodeState, s: Snapshot)
    requires PresentTiers(s.pods, s.rtData) != []
    ensures
      var tiers, after := PresentTiers(s.pods, s.rtData), Handle(ns, s);
      && (Rank(after.current) < Rank(ns.current) ==> ns.current !in tiers)
      && (Rank(after.current) > Rank(ns.current) && ns.current in tiers ==>
            && NextHigher(ns.current, tiers) == Some(after.current)
            && TierOf(after, ns.current).degradeCount > 0 && TierOf(after, ns.current).evictTried
            && !Actionable(SeenAfter(TierOf(ns, ns.current), TierOf(after, ns.current), s), s.rtData, ns.current))
  {
    EscalationIff(ns, s);
    NextHigherIsNext(ns.current, PresentTiers(s.pods, s.rtData));
  }

  // ---------- Whether the lowest tier is served first ----------

  /** An event changes the record of one tier only, and whichever record it changes is that of the lowest
      tier present just when the current tier had vanished or was the lowest already: a lower tier that
      appears later waits. */
  lemma LowestTierIsServedIff(ns: NodeState, s: Snapshot)
    requires PresentTiers(s.pods, s.rtData) != []
    ensures
      var tiers, after := PresentTiers(s.pods, s.rtData), Handle(ns, s);
      var served := if ns.current in tiers then ns.current else tiers[0];
      && (forall t | t != served :: TierOf(after, t) == TierOf(ns, t))
      && TierOf(after, served)
           == Act(TierOf(ns, served).(missingTicks := 0), InTier(s.pods, s.rtData, served), s)
      && forall t | TierOf(after, t) != TierOf(ns, t) ::
           t == tiers[0] <==> ns.current !in tiers || ns.current == tiers[0]
  {
    var ready := Refresh(ns, s);
    HandleIsCoherent(ns, s);
    OnlyCurrentIsServed(ready, InTier(s.pods, s.rtData, ready.current), s);
  }

  lemma OnlyCurrentIsServed(ns: NodeState, targets: seq<Pod>, s: Snapshot)
    ensures
      var after := ProcessPresent(ns, targets, s);
      && (forall t | t != ns.current :: TierOf(after, t) == TierOf(ns, t))
      && TierOf(after, ns.current) == Act(TierOf(ns, ns.current).(missingTicks := 0), targets, s)
  {
    NextHigherIsNext(ns.current, ns.tiers);
  }

  // ---------- The life of a node's entry ----------

  lemma {:induction false} RunConcat(state: Option<NodeState>, a: seq<Event>, b: seq<Event>)
    ensures Run(state, a + b) == Run(Run(state, a), b)
    decreases |b|
  {
    if b == [] {
      assert a + b == a;
    } else {
      var n := |b| - 1;
      assert (a + b)[..|a + b| - 1] == a + b[..n];
      RunConcat(state, a, b[..n]);
    }
  }

  lemma RunOne(state: Option<NodeState>, e: Event)
    ensures Run(state, [e]) == Next(state, e)
  {
    assert [e][..0] == [];
  }

  /** After a recovery that was carried through, what happened before no longer matters, and every tier
      starts from zero. */
  lemma RecoveryStartsOver(state: Option<NodeState>, a: seq<Event>, b: seq<Event>)
    ensures Run(state, a + [Recovered(true)] + b) == Run(None, b)
    ensures forall s: Snapshot | s.pods != [] :: Next(None, Busy(s)) == Some(Handle(INITIAL, s))
    ensures forall t :: TierOf(INITIAL, t) == TierState(0, false, 0, 0, 0, 0)
  {
    RunConcat(state, a + [Recovered(true)], b);
    RunConcat(state, a, [Recovered(true)]);
    RunOne(Run(state, a), Recovered(true));
  }

  /** Events that cannot be read, that see no pods, and recoveries that stop early leave no trace; every
      other pressure event makes or keeps an entry. */
  lemma OtherEventsLeaveNoTrace(state: Option<NodeState>, a: seq<Event>, e: Event, b: seq<Event>)
    ensures e == Unread || e == Recovered(false) || (e.Busy? && e.s.pods == []) ==>
      Run(state, a + [e] + b) == Run(state, a + b)
    ensures e.Busy? && e.s.pods != [] ==> Run(state, a + [e]).Some?
  {
    RunConcat(state, a + [e], b);
    RunConcat(state, a, [e]);
    RunConcat(state, a, b);
    RunOne(Run(state, a), e);
  }

  // ---------- Runs over which the tiers present do not change ----------

  /** Every pressure event of the run that sees pods sees just these tiers. */
  ghost predicate Stable(events: seq<Event>, tiers: seq<string>) {
    forall e | e in events && e.Busy? && e.s.pods != [] :: PresentTiers(e.s.pods, e.s.rtData) == tiers
  }

  /** Lower tiers have had their eviction tried; higher ones have not been touched. */
  ghost predicate InOrder(ns: NodeState, tiers: seq<string>) {
    && ns.tiers == tiers && ns.current in tiers
    && (forall t | t in tiers && Rank(t) < Rank(ns.current) :: TierOf(ns, t).evictTried && TierOf(ns, t).attempts >= 1)
    && (forall t | IsRanked(t) && Rank(t) > Rank(ns.current) ::
          TierOf(ns, t).successes == 0 && TierOf(ns, t).attempts == 0)
  }

  lemma HandleKeepsOrder(ns: NodeState, s: Snapshot, tiers: seq<string>)
    requires AllBounded(ns) && PresentTiers(s.pods, s.rtData) == tiers != []
    requires InOrder(ns, tiers) || ns == INITIAL
    ensures InOrder(Handle(ns, s), tiers)
  {
    var after := Handle(ns, s);
    HandleIsCoherent(ns, s);
    forall t | t in tiers && Rank(t) < Rank(after.current)
      ensures TierOf(after, t).evictTried && TierOf(after, t).attempts >= 1
    {
      LowerIsTried(ns, s, tiers, t);
    }
    forall t | IsRanked(t) && Rank(t) > Rank(after.current)
      ensures TierOf(after, t).successes == 0 && TierOf(after, t).attempts == 0
    {
      HigherIsUntouched(ns, s, tiers, t);
    }
  }

  lemma LowerIsTried(ns: NodeState, s: Snapshot, tiers: seq<string>, t: string)
    requires AllBounded(ns) && PresentTiers(s.pods, s.rtData) == tiers != []
    requires InOrder(ns, tiers) || ns == INITIAL
    requires t in tiers && Rank(t) < Rank(Handle(ns, s).current)
    ensures TierOf(Handle(ns, s), t).evictTried && TierOf(Handle(ns, s), t).attempts >= 1
  {
    var start := if ns.current in tiers then ns.current else tiers[0];
    HandleKeepsBounded(ns, s);
    EscalationIff(ns, s);
    LowestTierIsServedIff(ns, s);
    NextHigherIsNext(start, tiers);
    assert IsRanked(start) && start in tiers;
    if ns == INITIAL {
      FirstIsLowest(tiers, t);
    }
    if Rank(t) == Rank(start) {
      RankIdentifies(t, start);
      assert t in Handle(ns, s).perTier;
    }
  }

  lemma HigherIsUntouched(ns: NodeState, s: Snapshot, tiers: seq<string>, t: string)
    requires PresentTiers(s.pods, s.rtData) == tiers != []
    requires InOrder(ns, tiers) || ns == INITIAL
    requires IsRanked(t) && Rank(t) > Rank(Handle(ns, s).current)
    ensures TierOf(Handle(ns, s), t).successes == 0 && TierOf(Handle(ns, s), t).attempts == 0
  {
    var start := if ns.current in tiers then ns.current else tiers[0];
    EscalationIff(ns, s);
    LowestTierIsServedIff(ns, s);
    NextHigherIsNext(start, tiers);
  }

  lemma NextKeepsOrder(state: Option<NodeState>, e: Event, tiers: seq<string>)
    requires state.Some? ==> AllBounded(state.value) && InOrder(state.value, tiers)
    requires tiers != [] && (e.Busy? && e.s.pods != [] ==> PresentTiers(e.s.pods, e.s.rtData) == tiers)
    ensures Next(state, e).Some? ==> AllBounded(Next(state, e).value) && InOrder(Next(state, e).value, tiers)
  {
    if e.Busy? && e.s.pods != [] {
      var before := if state.Some? then state.value else INITIAL;
      HandleKeepsBounded(before, e.s);
      HandleKeepsOrder(before, e.s, tiers);
    }
  }

  lemma {:induction false} RunKeepsOrder(events: seq<Event>, tiers: seq<string>)
    requires Stable(events, tiers) && tiers != []
    ensures
      var state := Run(None, events);
      state.Some? ==> AllBounded(state.value) && InOrder(state.value, tiers)
    decreases |events|
  {
    if events != [] {
      var n := |events| - 1;
      assert events[n] in events;
      RunKeepsOrder(events[..n], tiers);
      NextKeepsOrder(Run(None, events[..n]), events[n], tiers);
    }
  }

  /** As long as the tiers present stay the same, criticality decides, through any recoveries and events
      without pods: since the entry was made, no tier is degraded or has an eviction before every lower tier
      present has had its eviction tried. */
  lemma LowerTiersSufferFirst(events: seq<Event>, tiers: seq<string>)
    requires Stable(events, tiers) && tiers != []
    ensures
      var state := Run(None, events);
      state.Some? ==>
        && InOrder(state.value, tiers)
        && forall low, high | low in tiers && IsRanked(high) && Rank(low) < Rank(high)
                              && (TierOf(state.value, high).successes > 0 || TierOf(state.value, high).attempts > 0) ::
             TierOf(state.value, low).evictTried && TierOf(state.value, low).attempts == 1
  {
    RunKeepsOrder(events, tiers);
  }
}
