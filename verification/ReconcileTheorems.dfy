/** What follows from the controller's contracts about repeated reconciliations. */
module ReconcileTheorems {
  import opened GoTypes
  import opened Criticality
  import opened Accounting
  import opened Victims
  import opened VictimTheorems
  import opened CpuPool
  import opened Scheduling
  import opened Settings
  import opened CoreSet
  import opened Webhooks
  import opened Preemption
  import opened Controller

  // ---------- A pod that is not outranked where it is registered is never its own victim ----------

  /** On the target cores the pod is not registered below this rank. */
  ghost predicate Guarded(pool: Cores, targets: seq<int>, name: string, rank: int) {
    forall id | id in targets && id in pool && name in pool[id].pods :: pool[id].pods[name].PodRank() >= rank
  }

  ghost predicate Spares(actions: seq<Action>, name: string) {
    forall a | a in actions :: a.victim.name != name
  }

  ghost predicate AllSpare(rounds: seq<seq<Action>>, name: string) {
    rounds == [] || (AllSpare(rounds[..|rounds| - 1], name) && Spares(rounds[|rounds| - 1], name))
  }

  lemma LegalActionSpares(pool: Cores, targets: seq<int>, name: string, rank: int, a: Action)
    requires Guarded(pool, targets, name, rank) && Legal(pool, rank, a) && a.core in targets
    ensures a.victim.name != name && Guarded(Perform(pool, a), targets, name, rank)
  {
  }

  lemma {:induction false} LegalRunSpares(pool: Cores, targets: seq<int>, name: string, rank: int, actions: seq<Action>)
    requires Guarded(pool, targets, name, rank) && LegalRun(pool, rank, actions)
    requires forall a | a in actions :: a.core in targets
    ensures Spares(actions, name) && Guarded(Replay(pool, actions), targets, name, rank)
    decreases |actions|
  {
    if actions != [] {
      var n := |actions| - 1;
      assert actions[n] in actions;
      LegalRunSpares(pool, targets, name, rank, actions[..n]);
      LegalActionSpares(Replay(pool, actions[..n]), targets, name, rank, actions[n]);
    }
  }

  lemma {:induction false} RoundsSpare(pool: Cores, targets: seq<int>, name: string, millis: int, criticality: string,
                                       rounds: seq<seq<Action>>, all: seq<int>)
    requires Rounds(pool, targets, millis, criticality, rounds)
    requires Guarded(pool, all, name, Rank(criticality)) && forall id | id in targets :: id in all
    ensures AllSpare(rounds, name)
    ensures Guarded(After(pool, rounds), all, name, Rank(criticality))
    decreases |rounds|
  {
    if rounds != [] {
      var n := |rounds| - 1;
      RoundsPrefix(pool, targets, millis, criticality, rounds, n);
      assert targets[n] in targets;
      RoundsSpare(pool, targets[..n], name, millis, criticality, rounds[..n], all);
      RoundSpares(After(pool, rounds[..n]), targets[n], name, millis, criticality, rounds[n], all);
    }
  }

  lemma RoundSpares(pool: Cores, core: int, name: string, millis: int, criticality: string,
                    actions: seq<Action>, all: seq<int>)
    requires Round(pool, core, millis, criticality, actions) && core in all
    requires Guarded(pool, all, name, Rank(criticality))
    ensures Spares(actions, name) && Guarded(Replay(pool, actions), all, name, Rank(criticality))
  {
    if actions != [] {
      LegalRunSpares(pool, all, name, Rank(criticality), actions);
    }
  }

  /** The guard matters: the check does not tell the pod itself from other candidates. On one core the pod
      can be its own victim exactly when the core would exceed the threshold, the pod's entry there has a
      lower rank than the pod has now, and the candidates strictly before that entry do not cover the
      excess. `lower` lists the candidates in any order. */
  lemma OwnVictimIff(pool: Cores, core: int, name: string, millis: int, criticality: string, lower: seq<PodInfo>)
    requires core in pool && WellKeyed(pool[core].pods) && NonNegativeCore(pool[core]) && name in pool[core].pods
    requires multiset(lower) == multiset(LowerPods(pool[core].pods, criticality).Values)
    ensures
      var entry := pool[core].pods[name];
      (exists actions :: Round(pool, core, millis, criticality, actions) && name in VictimNames(actions)) <==>
        && Excess(pool, core, millis) > 0 && entry.PodRank() < Rank(criticality)
        && BudgetAhead(lower, entry) < Excess(pool, core, millis)
  {
    var entry := pool[core].pods[name];
    var excess := Excess(pool, core, millis);
    assert forall p | p in lower :: p in multiset(lower);
    assert NonNegative(lower);
    if actions: seq<Action> :| Round(pool, core, millis, criticality, actions) && name in VictimNames(actions) {
      var i :| 0 <= i < |actions| && actions[i].victim.name == name;
      GreedyVictimsDiffer(pool[core].pods, criticality, excess as real, VictimsOf(actions));
      assert VictimsOf(actions)[i] == entry;
      assert entry in multiset(lower);
      MayBeChosenIff(lower, excess as real, entry);
    }
    if excess > 0 && entry.PodRank() < Rank(criticality) && BudgetAhead(lower, entry) < excess {
      assert LowerPods(pool[core].pods, criticality)[name] == entry;
      assert entry in multiset(lower);
      var chosen := SelectionWith(lower, excess as real, entry);
      var _ := RoundOfFailures(pool, core, millis, criticality, chosen, entry);
    }
  }

  /** Any greedy selection can be the victims of a round: all calls for them may fail. */
  lemma RoundOfFailures(pool: Cores, core: int, millis: int, criticality: string, chosen: seq<PodInfo>, p: PodInfo)
    returns (actions: seq<Action>)
    requires core in pool && WellKeyed(pool[core].pods) && Excess(pool, core, millis) > 0 && p in chosen
    requires IsGreedy(multiset(LowerPods(pool[core].pods, criticality).Values), Excess(pool, core, millis) as real, chosen)
    ensures Round(pool, core, millis, criticality, actions) && p.name in VictimNames(actions)
  {
    GreedyVictimsDiffer(pool[core].pods, criticality, Excess(pool, core, millis) as real, chosen);
    actions := Failures(core, chosen);
    FailuresAreLegal(pool, core, Rank(criticality), chosen);
    assert VictimsOf(actions) == chosen;
    var i :| 0 <= i < |chosen| && chosen[i] == p;
    assert actions[i] in actions;
  }

  function Failures(core: int, victims: seq<PodInfo>): (actions: seq<Action>)
    ensures |actions| == |victims|
    ensures forall i | 0 <= i < |victims| :: actions[i] == GetFailed(victims[i], core)
  {
    seq(|victims|, i requires 0 <= i < |victims| => GetFailed(victims[i], core))
  }

  lemma {:induction false} FailuresAreLegal(pool: Cores, core: int, rank: int, victims: seq<PodInfo>)
    requires forall p | p in victims :: IsEntry(pool, core, p) && p.PodRank() < rank
    ensures LegalRun(pool, rank, Failures(core, victims)) && Replay(pool, Failures(core, victims)) == pool
    decreases |victims|
  {
    if victims != [] {
      var n := |victims| - 1;
      FailuresAreLegal(pool, core, rank, victims[..n]);
      assert Failures(core, victims)[..n] == Failures(core, victims[..n]);
      assert victims[n] in victims;
    }
  }

  lemma {:induction false} SparedResource(resources: Resources, actions: seq<Action>, name: string)
    requires Spares(actions, name) && name in resources
    ensures name in RecordAll(resources, actions) && RecordAll(resources, actions)[name] == resources[name]
    decreases |actions|
  {
    if actions != [] {
      assert actions[|actions| - 1] in actions;
      SparedResource(resources, actions[..|actions| - 1], name);
    }
  }

  lemma {:induction false} SparedByRounds(resources: Resources, rounds: seq<seq<Action>>, name: string)
    requires AllSpare(rounds, name) && name in resources
    ensures name in RecordRounds(resources, rounds) && RecordRounds(resources, rounds)[name] == resources[name]
    decreases |rounds|
  {
    if rounds != [] {
      var n := |rounds| - 1;
      SparedByRounds(resources, rounds[..n], name);
      SparedResource(RecordRounds(resources, rounds[..n]), rounds[n], name);
    }
  }

  /** Rounds that spare a name leave its entries alone, on every core. */
  lemma {:induction false} SparedEntries(pool: Cores, rounds: seq<seq<Action>>, core: int, name: string)
    requires AllSpare(rounds, name)
    ensures EntryAt(After(pool, rounds), core, name) == EntryAt(pool, core, name)
    decreases |rounds|
  {
    if rounds != [] {
      var n := |rounds| - 1;
      SparedEntries(pool, rounds[..n], core, name);
      UntouchedEntry(After(pool, rounds[..n]), rounds[n], core, name);
    }
  }

  // ---------- What registration leaves for the pod ----------

  lemma {:induction false} RegisterOnLeavesOthers(pool: Cores, ids: seq<int>, p: PodInfo, id: int)
    requires id !in ids
    ensures EntryAt(RegisterOn(pool, ids, p), id, p.name) == EntryAt(pool, id, p.name)
  {
    if ids != [] {
      var next := AddAt(DropAt(pool, ids[0], p.name), ids[0], p);
      RegisterOnLeavesOthers(next, ids[1..], p, id);
    }
  }

  lemma {:induction false} RegisterOnReaches(pool: Cores, ids: seq<int>, p: PodInfo, id: int)
    requires id in pool && id in ids
    ensures EntryAt(RegisterOn(pool, ids, p), id, p.name) == Some(p)
  {
    var next := AddAt(DropAt(pool, ids[0], p.name), ids[0], p);
    if id in ids[1..] {
      RegisterOnReaches(next, ids[1..], p, id);
    } else {
      RegisterOnLeavesOthers(next, ids[1..], p, id);
    }
  }

  /** The entry has this budget and criticality. */
  predicate AsRequested(entry: Option<PodInfo>, millis: int, criticality: string) {
    entry.Some? && entry.value.cpuMillis == millis && entry.value.criticality == criticality
  }

  /** After registration every existing core of the set holds the pod as requested, and every other core
      what it held. */
  lemma RegisterPodReaches(pool: Cores, p: PodInfo, id: int)
    ensures
      var entry := EntryAt(RegisterPod(pool, p.coreSet, p), id, p.name);
      if id in pool && id in p.coreSet then
        AsRequested(entry, p.cpuMillis, p.criticality) && (entry == Some(p) || entry == EntryAt(pool, id, p.name))
      else entry == EntryAt(pool, id, p.name)
  {
    RegisterOnKeepsDrift(pool, p.coreSet, p);
    if !AllMatch(pool, p.coreSet, p.name, p.cpuMillis, p.criticality) {
      if id in pool && id in p.coreSet {
        RegisterOnReaches(pool, p.coreSet, p, id);
      } else if id !in p.coreSet {
        RegisterOnLeavesOthers(pool, p.coreSet, p, id);
      }
    } else if id in p.coreSet {
      assert Matches(pool, id, p.name, p.cpuMillis, p.criticality);
    }
  }

  // ---------- What a reconciliation leaves for its pod ----------

  /** The node's pool as a reconciliation finds it. */
  function PoolFound(cluster: Cluster, req: Request): Cores {
    WithPool(cluster, req.node, DEFAULT_NUM_CORES)[req.node]
  }

  function Checked(mc: Resource): seq<int>
    requires mc.settings.core.Some?
  {
    CoreIDs(ActualCore(mc))
  }

  /** What a core holds of the pod after a reconciliation that registered it, or had no need to. */
  predicate LeftOn(pool: Cores, after: Cores, p: PodInfo, registering: bool, id: int) {
    var entry := EntryAt(after, id, p.name);
    if registering && id in pool && id in p.coreSet then AsRequested(entry, p.cpuMillis, p.criticality)
    else entry == EntryAt(pool, id, p.name)
  }

  lemma RoundsThenRegistration(pool: Cores, targets: seq<int>, p: PodInfo, rounds: seq<seq<Action>>, id: int)
    requires Guarded(pool, targets, p.name, p.PodRank())
    requires Rounds(pool, targets, p.cpuMillis, p.criticality, rounds)
    ensures AllSpare(rounds, p.name)
    ensures
      var after := RegisterPod(After(pool, rounds), p.coreSet, p);
      after.Keys == pool.Keys && LeftOn(pool, after, p, true, id)
  {
    RoundsSpare(pool, targets, p.name, p.cpuMillis, p.criticality, rounds, targets);
    RoundsConserveAndBound(pool, targets, p.cpuMillis, p.criticality, rounds);
    SparedEntries(pool, rounds, id, p.name);
    RegisterPodReaches(After(pool, rounds), p, id);
    RegisterOnKeepsDrift(After(pool, rounds), p.coreSet, p);
  }

  /** A pod not registered under a lower rank on the checked cores keeps its resource through its own
      reconciliation. If the checked cores match, nothing happens; otherwise every requested core that
      exists ends up holding the pod as requested, and every other core keeps what it had of it. */
  lemma ReconcileLeaves(cluster: Cluster, resources: Resources, runtimeState: map<string, string>, req: Request,
                        accepted: bool, cluster': Cluster, resources': Resources, rounds: seq<seq<Action>>, id: int)
    requires req.name in resources && resources[req.name].settings.core.Some?
    requires Guarded(PoolFound(cluster, req), Checked(resources[req.name]), req.name,
                     Rank(resources[req.name].criticality))
    requires Reconciled(cluster, resources, runtimeState, req, accepted, cluster', resources', rounds)
    ensures req.name in resources'
    ensures
      var mc := resources[req.name];
      resources'[req.name] ==
        if mc.allocatedCore == "" && accepted then mc.(allocatedCore := mc.settings.core.value) else mc
    ensures req.node in cluster' && cluster'[req.node].Keys == PoolFound(cluster, req).Keys
    ensures
      var mc := resources[req.name];
      var p := InfoOf(mc, req.name, req.podNamespace, runtimeState);
      var pool := PoolFound(cluster, req);
      LeftOn(pool, cluster'[req.node], p, !AllMatch(pool, Checked(mc), p.name, p.cpuMillis, p.criticality), id)
  {
    var mc := resources[req.name];
    var p := InfoOf(mc, req.name, req.podNamespace, runtimeState);
    var pool := PoolFound(cluster, req);
    if !AllMatch(pool, Checked(mc), p.name, p.cpuMillis, p.criticality) {
      RoundsThenRegistration(pool, Checked(mc), p, rounds, id);
    }
    SparedByRounds(InitialStatus(resources, req.name, accepted), rounds, req.name);
  }

  // ---------- Which budget a reconciliation works with ----------

  /** Whatever the settings, a reconciliation works with the record of the runtime in force: the high budget
      in the mode "hi", and the low one in every other mode or none. Either every checked core holds the pod
      with that record, and nothing changes; or the rounds make room for that much, and every requested core
      that exists ends up holding the pod with it, in a fresh entry or in the one that was there. */
  lemma ReconcileUsesRuntimeInForce(cluster: Cluster, resources: Resources, runtimeState: map<string, string>,
                                    req: Request, accepted: bool, cluster': Cluster, resources': Resources,
                                    rounds: seq<seq<Action>>)
    returns (millis: int)
    requires req.name in resources && resources[req.name].settings.core.Some?
    requires Reconciled(cluster, resources, runtimeState, req, accepted, cluster', resources', rounds)
    ensures
      var s := resources[req.name].settings;
      IsRecordOf(millis, if req.name in runtimeState && runtimeState[req.name] == "hi" then s.runtimeHi else s.runtimeLow,
                 s.period)
    ensures req.node in cluster'
    ensures
      var mc := resources[req.name];
      var pool := PoolFound(cluster, req);
      if forall id | id in Checked(mc) :: AsRequested(EntryAt(pool, id, req.name), millis, mc.criticality) then
        rounds == [] && cluster'[req.node] == pool
      else
        && Rounds(pool, Checked(mc), millis, mc.criticality, rounds)
        && forall id | id in pool && id in CoreIDs(mc.settings.core.value) ::
             var entry := EntryAt(cluster'[req.node], id, req.name);
             && AsRequested(entry, millis, mc.criticality)
             && (entry == EntryAt(After(pool, rounds), id, req.name)
                 || entry == Some(PodInfo(req.name, req.podNamespace, mc.criticality, millis,
                                          CoreIDs(mc.settings.core.value))))
  {
    var mc := resources[req.name];
    var p := InfoOf(mc, req.name, req.podNamespace, runtimeState);
    var pool := PoolFound(cluster, req);
    millis := p.cpuMillis;
    RecordedMillisIsRecord(EffectiveRuntime(mc.settings, runtimeState, req.name), mc.settings.period);
    assert forall id :: AsRequested(EntryAt(pool, id, req.name), millis, mc.criticality) <==>
                        Matches(pool, id, p.name, p.cpuMillis, p.criticality);
    if !AllMatch(pool, Checked(mc), p.name, p.cpuMillis, p.criticality) {
      RoundsConserveAndBound(pool, Checked(mc), p.cpuMillis, p.criticality, rounds);
      forall id | id in pool && id in p.coreSet
        ensures
          var entry := EntryAt(cluster'[req.node], id, req.name);
          && AsRequested(entry, millis, mc.criticality)
          && (entry == EntryAt(After(pool, rounds), id, req.name) || entry == Some(p))
      {
        RegisterPodReaches(After(pool, rounds), p, id);
      }
    }
  }

  /** The record itself is determined by runtime and period. */
  lemma RecordIsUnique(a: int, b: int, runtime: int, period: int)
    requires IsRecordOf(a, runtime, period) && IsRecordOf(b, runtime, period)
    ensures a == b
  {
    if period > 0 && !(-period < 1000 * runtime < period) && a != b {
      var low, high := if a < b then a else b, if a < b then b else a;
      ProductOrder(low + 1, high, period);
      ProductOrder(low, high - 1, period);
    }
  }

  lemma ProductOrder(a: int, b: int, c: int)
    requires a <= b && c > 0
    ensures a * c <= b * c
  {
  }

  /** Resources of pods other than the reconciled one change only for victims that moved. */
  lemma OtherResourcesStay(cluster: Cluster, resources: Resources, runtimeState: map<string, string>, req: Request,
                           accepted: bool, cluster': Cluster, resources': Resources, rounds: seq<seq<Action>>,
                           name: string)
    requires req.name in resources && resources[req.name].settings.core.Some?
    requires Reconciled(cluster, resources, runtimeState, req, accepted, cluster', resources', rounds)
    requires name in resources && name != req.name && AllSpare(rounds, name)
    ensures name in resources' && resources'[name] == resources[name]
  {
    SparedByRounds(InitialStatus(resources, req.name, accepted), rounds, name);
  }

  // ---------- Reconciling twice ----------

  /** Where one reconciliation is enough: every checked core exists, and is requested too or matches
      already. */
  predicate Settles(pool: Cores, mc: Resource, p: PodInfo)
    requires mc.settings.core.Some?
  {
    forall id | id in Checked(mc) ::
      id in pool && (id in p.coreSet || Matches(pool, id, p.name, p.cpuMillis, p.criticality))
  }

  lemma LeftMatchesIff(pool: Cores, after: Cores, mc: Resource, p: PodInfo)
    requires mc.settings.core.Some? && after.Keys == pool.Keys
    requires
      var registering := !AllMatch(pool, Checked(mc), p.name, p.cpuMillis, p.criticality);
      forall id | id in Checked(mc) :: LeftOn(pool, after, p, registering, id)
    ensures AllMatch(after, Checked(mc), p.name, p.cpuMillis, p.criticality) <==> Settles(pool, mc, p)
  {
    var registering := !AllMatch(pool, Checked(mc), p.name, p.cpuMillis, p.criticality);
    forall id | id in Checked(mc)
      ensures Matches(after, id, p.name, p.cpuMillis, p.criticality) <==>
              id in pool && (id in p.coreSet || Matches(pool, id, p.name, p.cpuMillis, p.criticality))
    {
      assert LeftOn(pool, after, p, registering, id);
    }
  }

  /** After one reconciliation the checked cores match just when it settles. */
  lemma MatchAfterFirstIff(cluster: Cluster, resources: Resources, runtimeState: map<string, string>, req: Request,
                           accepted: bool, cluster': Cluster, resources': Resources, rounds: seq<seq<Action>>)
    requires req.name in resources && resources[req.name].settings.core.Some?
    requires Guarded(PoolFound(cluster, req), Checked(resources[req.name]), req.name,
                     Rank(resources[req.name].criticality))
    requires Reconciled(cluster, resources, runtimeState, req, accepted, cluster', resources', rounds)
    ensures req.node in cluster'
    ensures
      var mc := resources[req.name];
      var p := InfoOf(mc, req.name, req.podNamespace, runtimeState);
      AllMatch(cluster'[req.node], Checked(mc), p.name, p.cpuMillis, p.criticality) <==>
      Settles(PoolFound(cluster, req), mc, p)
  {
    var mc := resources[req.name];
    var p := InfoOf(mc, req.name, req.podNamespace, runtimeState);
    ReconcileLeaves(cluster, resources, runtimeState, req, accepted, cluster', resources', rounds, 0);
    var pool := PoolFound(cluster, req);
    var registering := !AllMatch(pool, Checked(mc), p.name, p.cpuMillis, p.criticality);
    forall id | id in Checked(mc)
      ensures LeftOn(pool, cluster'[req.node], p, registering, id)
    {
      ReconcileLeaves(cluster, resources, runtimeState, req, accepted, cluster', resources', rounds, id);
    }
    LeftMatchesIff(pool, cluster'[req.node], mc, p);
  }

  /** Reconciling again, with the same runtime mode and the resource as the first time left it, changes no
      core and preempts nobody if and only if every core of the recorded allocation exists, and is one of
      the requested cores or held the pod as requested from the start. */
  lemma ReconcileSettlesIff(cluster: Cluster, resources: Resources, runtimeState: map<string, string>, req: Request,
                            accepted: bool, cluster1: Cluster, resources1: Resources, rounds1: seq<seq<Action>>,
                            accepted': bool, cluster2: Cluster, resources2: Resources, rounds2: seq<seq<Action>>)
    requires req.name in resources && resources[req.name].settings.core.Some?
    requires Guarded(PoolFound(cluster, req), Checked(resources[req.name]), req.name,
                     Rank(resources[req.name].criticality))
    requires Reconciled(cluster, resources, runtimeState, req, accepted, cluster1, resources1, rounds1)
    requires req.name in resources1 && resources1[req.name].settings.core.Some?
    requires Reconciled(cluster1, resources1, runtimeState, req, accepted', cluster2, resources2, rounds2)
    ensures
      var p := InfoOf(resources[req.name], req.name, req.podNamespace, runtimeState);
      cluster2 == cluster1 && rounds2 == [] <==> Settles(PoolFound(cluster, req), resources[req.name], p)
    ensures resources1[req.name] == InitialStatus(resources, req.name, accepted)[req.name]
    ensures accepted && rounds2 == [] ==> resources2 == resources1
  {
    var mc := resources[req.name];
    var p := InfoOf(mc, req.name, req.podNamespace, runtimeState);
    MatchAfterFirstIff(cluster, resources, runtimeState, req, accepted, cluster1, resources1, rounds1);
    ReconcileLeaves(cluster, resources, runtimeState, req, accepted, cluster1, resources1, rounds1, 0);
    assert Checked(resources1[req.name]) == Checked(mc);
    SecondRunIff(cluster1, resources1, runtimeState, req, accepted', cluster2, resources2, rounds2);
  }

  /** Nothing happens to an existing pool exactly when every checked core matches. */
  lemma SecondRunIff(cluster: Cluster, resources: Resources, runtimeState: map<string, string>, req: Request,
                     accepted: bool, cluster': Cluster, resources': Resources, rounds: seq<seq<Action>>)
    requires req.name in resources && resources[req.name].settings.core.Some? && req.node in cluster
    requires Reconciled(cluster, resources, runtimeState, req, accepted, cluster', resources', rounds)
    ensures
      var p := InfoOf(resources[req.name], req.name, req.podNamespace, runtimeState);
      cluster' == cluster && rounds == [] <==>
        AllMatch(cluster[req.node], Checked(resources[req.name]), p.name, p.cpuMillis, p.criticality)
    ensures rounds == [] ==> resources' == InitialStatus(resources, req.name, accepted)
  {
  }

  /** In particular, if the recorded allocation is the requested core set or still empty, one
      reconciliation is enough exactly when every requested core exists. */
  lemma ReconcileTwiceIsOnce(cluster: Cluster, resources: Resources, runtimeState: map<string, string>, req: Request,
                             accepted: bool, cluster1: Cluster, resources1: Resources, rounds1: seq<seq<Action>>,
                             accepted': bool, cluster2: Cluster, resources2: Resources, rounds2: seq<seq<Action>>)
    requires req.name in resources && resources[req.name].settings.core.Some?
    requires resources[req.name].allocatedCore in {"", resources[req.name].settings.core.value}
    requires Guarded(PoolFound(cluster, req), Checked(resources[req.name]), req.name,
                     Rank(resources[req.name].criticality))
    requires Reconciled(cluster, resources, runtimeState, req, accepted, cluster1, resources1, rounds1)
    requires req.name in resources1 && resources1[req.name].settings.core.Some?
    requires Reconciled(cluster1, resources1, runtimeState, req, accepted', cluster2, resources2, rounds2)
    ensures cluster2 == cluster1 && rounds2 == [] <==>
            forall id | id in CoreIDs(resources[req.name].settings.core.value) :: id in PoolFound(cluster, req)
    ensures resources1[req.name] == InitialStatus(resources, req.name, accepted)[req.name]
    ensures accepted && rounds2 == [] ==> resources2 == resources1
  {
    ReconcileSettlesIff(cluster, resources, runtimeState, req, accepted, cluster1, resources1, rounds1,
                        accepted', cluster2, resources2, rounds2);
  }

  /** A victim that has just been migrated, with its new core recorded, is settled: its next
      reconciliation, with the same budget and criticality, leaves the pool alone. */
  lemma MigratedVictimIsSettled(cluster: Cluster, node: string, resources: Resources, rank: int, a: Action,
                                runtimeState: map<string, string>, req: Request, accepted: bool,
                                cluster': Cluster, resources': Resources, rounds: seq<seq<Action>>)
    requires node in cluster && Legal(cluster[node], rank, a) && a.Migrated? && a.recorded
    requires 0 <= a.to <= MAX_INT64
    requires a.victim.name in resources && resources[a.victim.name].settings.core.Some?
    requires a.victim.criticality == resources[a.victim.name].criticality
    requires a.victim.cpuMillis == EffectiveMillis(resources[a.victim.name].settings, runtimeState, a.victim.name)
    requires req.name == a.victim.name && req.node == node
    requires Reconciled(cluster[node := Perform(cluster[node], a)], Record(resources, a), runtimeState, req, accepted,
                        cluster', resources', rounds)
    ensures cluster' == cluster[node := Perform(cluster[node], a)] && rounds == []
    ensures resources' == Record(resources, a)
  {
    SingleCoreRoundTrip(a.to);
    SecondRunIff(cluster[node := Perform(cluster[node], a)], Record(resources, a), runtimeState, req, accepted,
              cluster', resources', rounds);
  }

  /** The divergence after a migration: the check looks at the recorded core, but registration writes to
      the requested one. A later change of budget leaves the pod on both cores, with its old budget on the
      one it runs on. */
  lemma BudgetChangeAfterMigrationRegistersTwice(
      cluster: Cluster, resources: Resources, runtimeState: map<string, string>, req: Request, accepted: bool,
      entry: PodInfo, recordedCore: nat, requestedCore: nat,
      cluster': Cluster, resources': Resources, rounds: seq<seq<Action>>)
    requires recordedCore != requestedCore && recordedCore <= MAX_INT64 && requestedCore <= MAX_INT64
    requires req.node in cluster && requestedCore in cluster[req.node]
    requires req.name in resources && resources[req.name].settings.core == Some(Written(requestedCore))
    requires resources[req.name].allocatedCore == Written(recordedCore)
    requires EntryAt(cluster[req.node], recordedCore, req.name) == Some(entry)
    requires entry.criticality == resources[req.name].criticality
    requires Reconciled(cluster, resources, runtimeState, req, accepted, cluster', resources', rounds)
    ensures req.node in cluster'
    ensures EntryAt(cluster'[req.node], recordedCore, req.name) == Some(entry)
    ensures
      var millis := EffectiveMillis(resources[req.name].settings, runtimeState, req.name);
      Matches(cluster'[req.node], requestedCore, req.name, millis, entry.criticality) <==>
        || entry.cpuMillis != millis
        || Matches(cluster[req.node], requestedCore, req.name, millis, entry.criticality)
  {
    SingleCoreRoundTrip(recordedCore);
    SingleCoreRoundTrip(requestedCore);
    assert requestedCore in [requestedCore] && recordedCore in [recordedCore];
    ReconcileLeaves(cluster, resources, runtimeState, req, accepted, cluster', resources', rounds, recordedCore);
    ReconcileLeaves(cluster, resources, runtimeState, req, accepted, cluster', resources', rounds, requestedCore);
  }

  // ---------- From admission to registration ----------

  /** The pair that the validator checks, on the pod's node, is one that the pod's reconciliation leaves it
      registered on exactly when the core exists in the pool, as found or created there, and is requested or
      held the pod as requested before. */
  lemma AdmittedPairIsRegisteredIff(
      cluster: Cluster, resources: Resources, runtimeState: map<string, string>, req: Request, accepted: bool,
      cluster': Cluster, resources': Resources, rounds: seq<seq<Action>>, core: int)
    requires req.name in resources && resources[req.name].settings.core.Some?
    requires CheckedPair(resources[req.name]) == Some((req.node, core))
    requires Guarded(PoolFound(cluster, req), Checked(resources[req.name]), req.name,
                     Rank(resources[req.name].criticality))
    requires Reconciled(cluster, resources, runtimeState, req, accepted, cluster', resources', rounds)
    ensures req.node in cluster'
    ensures
      var p := InfoOf(resources[req.name], req.name, req.podNamespace, runtimeState);
      Matches(cluster'[req.node], core, p.name, p.cpuMillis, p.criticality) <==>
        && (if req.node in cluster then core in cluster[req.node] else 0 <= core < 16)
        && (core in p.coreSet
            || Matches(PoolFound(cluster, req), core, p.name, p.cpuMillis, p.criticality))
  {
    assert ActualCore(resources[req.name]) == SelectedCore(resources[req.name]);
    assert core in Checked(resources[req.name]);
    ReconcileLeaves(cluster, resources, runtimeState, req, accepted, cluster', resources', rounds, core);
  }

  // ---------- Making room ----------

  /** End to end for a single requested core: if the pod is not on it yet, the recorded allocation is empty
      or that core, the lower-ranked budget there covers the excess, and every victim of the check found a
      core, then the reconciliation makes room. */
  lemma ReconcileMakesRoom(cluster: Cluster, resources: Resources, runtimeState: map<string, string>, req: Request,
                           accepted: bool, core: nat,
                           cluster': Cluster, resources': Resources, rounds: seq<seq<Action>>)
    requires req.name in resources && resources[req.name].settings.core == Some(Written(core)) && core <= MAX_INT64
    requires resources[req.name].allocatedCore in {"", Written(core)}
    requires Reconciled(cluster, resources, runtimeState, req, accepted, cluster', resources', rounds)
    requires
      var pool := PoolFound(cluster, req);
      var p := InfoOf(resources[req.name], req.name, req.podNamespace, runtimeState);
      && core in pool && WellKeyed(pool[core].pods) && p.name !in pool[core].pods
      && LowerBudget(pool[core], p.criticality) >= Excess(pool, core, p.cpuMillis)
    requires forall i, a | 0 <= i < |rounds| && a in rounds[i] :: a.Migrated?
    ensures |rounds| == 1 && req.node in cluster'
    ensures RoomMade(PoolFound(cluster, req), cluster'[req.node], core,
                     InfoOf(resources[req.name], req.name, req.podNamespace, runtimeState), rounds[0])
  {
    SingleCoreRoundTrip(core);
    var mc := resources[req.name];
    var p := InfoOf(mc, req.name, req.podNamespace, runtimeState);
    var pool := PoolFound(cluster, req);
    var targets := [core];
    assert Checked(mc) == targets && p.coreSet == targets;
    assert core in targets && !Matches(pool, core, p.name, p.cpuMillis, p.criticality);
    assert rounds == [rounds[0]] && rounds[..0] == [];
    assert Round(After(pool, rounds[..0]), targets[0], p.cpuMillis, p.criticality, rounds[0]);
    assert After(pool, rounds) == Replay(pool, rounds[0]);
    RoundClearsCore(pool, core, p.cpuMillis, p.criticality, rounds[0]);
    PreemptionMakesRoom(pool, core, p, rounds[0]);
    assert !Matches(After(pool, rounds), core, p.name, p.cpuMillis, p.criticality);
  }

  // ---------- A reconciliation is a run of pool steps ----------

  function MigrationSteps(node: string, actions: seq<Action>): seq<Step> {
    if actions == [] then []
    else
      var a := actions[|actions| - 1];
      MigrationSteps(node, actions[..|actions| - 1])
      + if a.Migrated? then [Migrate(node, a.core, a.to, a.victim)] else []
  }

  function RoundSteps(node: string, rounds: seq<seq<Action>>): seq<Step> {
    if rounds == [] then []
    else RoundSteps(node, rounds[..|rounds| - 1]) + MigrationSteps(node, rounds[|rounds| - 1])
  }

  lemma {:induction false} RunConcat(cluster: Cluster, a: seq<Step>, b: seq<Step>)
    ensures Run(cluster, a + b) == Run(Run(cluster, a), b)
    decreases |a|
  {
    if a == [] {
      assert a + b == b;
    } else {
      assert (a + b)[1..] == a[1..] + b;
      RunConcat(Apply(cluster, a[0]), a[1..], b);
    }
  }

  lemma RunOne(cluster: Cluster, step: Step)
    ensures Run(cluster, [step]) == Apply(cluster, step)
  {
    assert [step][1..] == [];
  }

  lemma {:induction false} RunOfMigrations(cluster: Cluster, node: string, actions: seq<Action>)
    requires node in cluster
    ensures Run(cluster, MigrationSteps(node, actions)) == cluster[node := Replay(cluster[node], actions)]
    decreases |actions|
  {
    if actions == [] {
      assert cluster[node := cluster[node]] == cluster;
    } else {
      var n := |actions| - 1;
      var a := actions[n];
      RunOfMigrations(cluster, node, actions[..n]);
      var steps := MigrationSteps(node, actions[..n]);
      var before := Run(cluster, steps);
      if a.Migrated? {
        RunConcat(cluster, steps, [Migrate(node, a.core, a.to, a.victim)]);
        RunOne(before, Migrate(node, a.core, a.to, a.victim));
      } else {
        assert MigrationSteps(node, actions) == steps;
      }
    }
  }

  lemma {:induction false} RunOfRounds(cluster: Cluster, node: string, rounds: seq<seq<Action>>)
    requires node in cluster
    ensures Run(cluster, RoundSteps(node, rounds)) == cluster[node := After(cluster[node], rounds)]
    decreases |rounds|
  {
    if rounds == [] {
      assert cluster[node := cluster[node]] == cluster;
    } else {
      var n := |rounds| - 1;
      RunOfRounds(cluster, node, rounds[..n]);
      RunConcat(cluster, RoundSteps(node, rounds[..n]), MigrationSteps(node, rounds[n]));
      RunOfMigrations(cluster[node := After(cluster[node], rounds[..n])], node, rounds[n]);
    }
  }

  /** The pool steps of a reconciliation: creating the node's pool, the migrations in order, and the
      registration unless everything matched. */
  function ReconcileSteps(cluster: Cluster, mc: Resource, runtimeState: map<string, string>, req: Request,
                          rounds: seq<seq<Action>>): seq<Step>
    requires mc.settings.core.Some?
  {
    var p := InfoOf(mc, req.name, req.podNamespace, runtimeState);
    var pool := WithPool(cluster, req.node, DEFAULT_NUM_CORES)[req.node];
    [CreatePool(req.node, DEFAULT_NUM_CORES)] + RoundSteps(req.node, rounds)
    + if AllMatch(pool, CoreIDs(ActualCore(mc)), p.name, p.cpuMillis, p.criticality)
         || AllMatch(After(pool, rounds), p.coreSet, p.name, p.cpuMillis, p.criticality)
      then [] else [Register(req.node, p.coreSet, p)]
  }

  lemma RunOfCreateAndRounds(cluster: Cluster, node: string, rounds: seq<seq<Action>>)
    ensures
      var created := WithPool(cluster, node, DEFAULT_NUM_CORES);
      Run(cluster, [CreatePool(node, DEFAULT_NUM_CORES)] + RoundSteps(node, rounds))
        == created[node := After(created[node], rounds)]
  {
    var create := CreatePool(node, DEFAULT_NUM_CORES);
    RunOne(cluster, create);
    RunConcat(cluster, [create], RoundSteps(node, rounds));
    RunOfRounds(WithPool(cluster, node, DEFAULT_NUM_CORES), node, rounds);
  }

  /** Registration is a step, or nothing when every core of the set matches. */
  lemma RunOfRegistration(cluster: Cluster, mid: Cluster, steps: seq<Step>, node: string, p: PodInfo)
    requires node in mid && Run(cluster, steps) == mid
    ensures Run(cluster, steps + if AllMatch(mid[node], p.coreSet, p.name, p.cpuMillis, p.criticality)
                                 then [] else [Register(node, p.coreSet, p)])
         == Registered(mid, node, p)
  {
    if AllMatch(mid[node], p.coreSet, p.name, p.cpuMillis, p.criticality) {
      assert steps + [] == steps;
      assert mid[node := mid[node]] == mid;
    } else {
      RunConcat(cluster, steps, [Register(node, p.coreSet, p)]);
      RunOne(mid, Register(node, p.coreSet, p));
    }
  }

  lemma ReconcileIsARun(cluster: Cluster, resources: Resources, runtimeState: map<string, string>, req: Request,
                        accepted: bool, cluster': Cluster, resources': Resources, rounds: seq<seq<Action>>)
    requires req.name in resources && resources[req.name].settings.core.Some?
    requires Reconciled(cluster, resources, runtimeState, req, accepted, cluster', resources', rounds)
    ensures Run(cluster, ReconcileSteps(cluster, resources[req.name], runtimeState, req, rounds)) == cluster'
  {
    var mc := resources[req.name];
    var p := InfoOf(mc, req.name, req.podNamespace, runtimeState);
    var created := WithPool(cluster, req.node, DEFAULT_NUM_CORES);
    var steps := [CreatePool(req.node, DEFAULT_NUM_CORES)] + RoundSteps(req.node, rounds);
    RunOfCreateAndRounds(cluster, req.node, rounds);
    var mid := created[req.node := After(created[req.node], rounds)];
    if AllMatch(created[req.node], CoreIDs(ActualCore(mc)), p.name, p.cpuMillis, p.criticality) {
      assert steps + [] == steps;
      assert mid == created;
    } else {
      RunOfRegistration(cluster, mid, steps, req.node, p);
    }
  }

  // ---------- Non-negative budgets stay so ----------

  ghost predicate NonNegativeSteps(steps: seq<Step>) {
    forall s | s in steps :: NonNegativeStep(s)
  }

  lemma {:induction false} MigrationsAreNonNegative(pool: Cores, node: string, rank: int, actions: seq<Action>)
    requires LegalRun(pool, rank, actions) && NonNegativePool(pool)
    ensures NonNegativeSteps(MigrationSteps(node, actions)) && NonNegativePool(Replay(pool, actions))
    decreases |actions|
  {
    if actions != [] {
      var n := |actions| - 1;
      MigrationsAreNonNegative(pool, node, rank, actions[..n]);
      PreemptionBoundsUsage(pool, rank, actions);
      var before, a := Replay(pool, actions[..n]), actions[n];
      assert NonNegativeCore(before[a.core]);
      assert a.victim.cpuMillis >= 0;
    }
  }

  lemma {:induction false} RoundsAreNonNegative(pool: Cores, node: string, targets: seq<int>, millis: int,
                                                criticality: string, rounds: seq<seq<Action>>)
    requires Rounds(pool, targets, millis, criticality, rounds) && NonNegativePool(pool)
    ensures NonNegativeSteps(RoundSteps(node, rounds)) && NonNegativePool(After(pool, rounds))
    decreases |rounds|
  {
    if rounds != [] {
      var n := |rounds| - 1;
      RoundsPrefix(pool, targets, millis, criticality, rounds, n);
      RoundsAreNonNegative(pool, node, targets[..n], millis, criticality, rounds[..n]);
      var before := After(pool, rounds[..n]);
      assert Round(before, targets[n], millis, criticality, rounds[n]);
      if rounds[n] != [] {
        MigrationsAreNonNegative(before, node, Rank(criticality), rounds[n]);
      }
    }
  }

  /** Victims are entries of the pool, so only the pod's own budget has to be looked at. */
  lemma ReconcileIsNonNegative(cluster: Cluster, resources: Resources, runtimeState: map<string, string>,
                               req: Request, accepted: bool, cluster': Cluster, resources': Resources,
                               rounds: seq<seq<Action>>)
    requires req.name in resources && resources[req.name].settings.core.Some?
    requires Reconciled(cluster, resources, runtimeState, req, accepted, cluster', resources', rounds)
    requires AllNonNegative(cluster)
    requires EffectiveMillis(resources[req.name].settings, runtimeState, req.name) >= 0
    ensures NonNegativeSteps(ReconcileSteps(cluster, resources[req.name], runtimeState, req, rounds))
  {
    var mc := resources[req.name];
    var p := InfoOf(mc, req.name, req.podNamespace, runtimeState);
    var pool := PoolFound(cluster, req);
    assert NonNegativePool(pool) by {
      assert req.node in cluster ==> forall i | i in pool :: HasCore(cluster, req.node, i);
    }
    if !AllMatch(pool, Checked(mc), p.name, p.cpuMillis, p.criticality) {
      RoundsAreNonNegative(pool, req.node, Checked(mc), p.cpuMillis, p.criticality, rounds);
    }
  }

  /** So a reconciliation keeps every cached usage exact just when none of its migrations goes to a core
      that already holds the victim's budget. */
  lemma ReconcileKeepsUsageExactIff(cluster: Cluster, resources: Resources, runtimeState: map<string, string>,
                                    req: Request, accepted: bool, cluster': Cluster, resources': Resources,
                                    rounds: seq<seq<Action>>)
    requires req.name in resources && resources[req.name].settings.core.Some?
    requires Reconciled(cluster, resources, runtimeState, req, accepted, cluster', resources', rounds)
    requires AllExact(cluster) && AllNonNegative(cluster)
    requires EffectiveMillis(resources[req.name].settings, runtimeState, req.name) >= 0
    ensures AllExact(cluster') <==>
            CleanRun(cluster, ReconcileSteps(cluster, resources[req.name], runtimeState, req, rounds))
  {
    ReconcileIsARun(cluster, resources, runtimeState, req, accepted, cluster', resources', rounds);
    ReconcileIsNonNegative(cluster, resources, runtimeState, req, accepted, cluster', resources', rounds);
    UsageIsExactIff(cluster, ReconcileSteps(cluster, resources[req.name], runtimeState, req, rounds));
  }
}
