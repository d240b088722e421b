/** The controller's side of the pool: preempting victims, registering pods, and the pool section of a
    reconciliation. API calls enter as outcomes that the methods receive. */
module Controller {
  import opened GoTypes
  import opened Criticality
  import opened Accounting
  import opened Victims
  import opened CpuPool
  import opened Scheduling
  import opened Settings
  import opened CoreSet
  import opened Webhooks
  import opened Preemption

  // ---------- Outcomes of API calls, and what they leave on the API server ----------

  /** For one victim: whether its pod could be fetched, and whether its new core could be stored. */
  datatype ApiOutcome = ApiOutcome(fetched: bool, stored: bool)

  /** The custom resources by the name of the pod they describe. */
  type Resources = map<string, Resource>

  function Record(resources: Resources, a: Action): Resources {
    if a.Migrated? && a.recorded && a.victim.name in resources && a.to >= 0
    then resources[a.victim.name := resources[a.victim.name].(allocatedCore := Written(a.to))]
    else resources
  }

  function RecordAll(resources: Resources, actions: seq<Action>): Resources {
    if actions == [] then resources
    else Record(RecordAll(resources, actions[..|actions| - 1]), actions[|actions| - 1])
  }

  function RecordRounds(resources: Resources, rounds: seq<seq<Action>>): Resources {
    if rounds == [] then resources
    else RecordAll(RecordRounds(resources, rounds[..|rounds| - 1]), rounds[|rounds| - 1])
  }

  lemma RecordExtends(resources: Resources, actions: seq<Action>, a: Action)
    ensures RecordAll(resources, actions + [a]) == Record(RecordAll(resources, actions), a)
  {
    assert (actions + [a])[..|actions|] == actions;
  }

  lemma RecordRoundsExtends(resources: Resources, rounds: seq<seq<Action>>, actions: seq<Action>)
    ensures RecordRounds(resources, rounds + [actions]) == RecordAll(RecordRounds(resources, rounds), actions)
  {
    assert (rounds + [actions])[..|rounds|] == rounds;
  }

  // ---------- Registration ----------

  /** The core already holds the pod with this budget and criticality. */
  predicate Matches(pool: Cores, id: int, name: string, millis: int, criticality: string) {
    && id in pool && name in pool[id].pods
    && pool[id].pods[name].cpuMillis == millis && pool[id].pods[name].criticality == criticality
  }

  predicate AllMatch(pool: Cores, ids: seq<int>, name: string, millis: int, criticality: string) {
    forall id | id in ids :: Matches(pool, id, name, millis, criticality)
  }

  /** Registration leaves the pool alone when every core of the set matches, and otherwise re-registers
      the pod on all of them. */
  function RegisterPod(pool: Cores, ids: seq<int>, p: PodInfo): Cores {
    if AllMatch(pool, ids, p.name, p.cpuMillis, p.criticality) then pool else RegisterOn(pool, ids, p)
  }

  /** Registration on a node, whose pool is created on first use. */
  function Registered(cluster: Cluster, node: string, p: PodInfo): Cluster {
    var created := WithPool(cluster, node, DEFAULT_NUM_CORES);
    created[node := RegisterPod(created[node], p.coreSet, p)]
  }

  function EffectiveRuntime(s: RTSettings, runtimeState: map<string, string>, name: string): int {
    if name in runtimeState && runtimeState[name] == "hi" then s.runtimeHi else s.runtimeLow
  }

  function EffectiveMillis(s: RTSettings, runtimeState: map<string, string>, name: string): int {
    RecordedMillis(EffectiveRuntime(s, runtimeState, name), s.period)
  }

  function InfoOf(mc: Resource, name: string, podNamespace: string, runtimeState: map<string, string>): PodInfo
    requires mc.settings.core.Some?
  {
    PodInfo(name, podNamespace, mc.criticality, EffectiveMillis(mc.settings, runtimeState, name),
            CoreIDs(mc.settings.core.value))
  }

  // ---------- Back to the low mode ----------

  /** A labelled pod of a recovering node: whether a resource with settings names it, and whether the
      address of its host is known. */
  datatype RecoveringPod = RecoveringPod(name: string, configured: bool, hostKnown: bool)

  /** Every pod in the high mode that can be set back is in the low mode; all others are as before. */
  function Reverted(runtimeState: map<string, string>, pods: seq<RecoveringPod>): map<string, string> {
    map name | name in runtimeState ::
      if runtimeState[name] == "hi" && Recovering(pods, name) then "low" else runtimeState[name]
  }

  predicate Recovering(pods: seq<RecoveringPod>, name: string) {
    exists p :: p in pods && p.name == name && p.configured && p.hostKnown
  }

  /** After a reversal exactly the recovering pods that were in the high mode have changed, to the low one. */
  lemma RevertedIff(runtimeState: map<string, string>, pods: seq<RecoveringPod>, name: string)
    ensures Reverted(runtimeState, pods).Keys == runtimeState.Keys
    ensures name in runtimeState ==>
      && (Reverted(runtimeState, pods)[name] != runtimeState[name] <==>
            runtimeState[name] == "hi" && exists p :: p in pods && p.name == name && p.configured && p.hostKnown)
      && Reverted(runtimeState, pods)[name] in {runtimeState[name], "low"}
  {
  }

  lemma RevertedNext(runtimeState: map<string, string>, pods: seq<RecoveringPod>, p: RecoveringPod)
    ensures Reverted(runtimeState, pods + [p]) ==
      var before := Reverted(runtimeState, pods);
      if p.name in before && before[p.name] == "hi" && p.configured && p.hostKnown then before[p.name := "low"]
      else before
  {
    assert forall q :: q in pods + [p] <==> q in pods || q == p;
  }

  // ---------- One reconciliation of the pool ----------

  /** The core string a reconciliation checks: the recorded allocation before the requested core. */
  function ActualCore(mc: Resource): string
    requires mc.settings.core.Some?
  {
    if mc.allocatedCore != "" then mc.allocatedCore else mc.settings.core.value
  }

  /** The first allocation is recorded in the status, if the API server accepts that. */
  function InitialStatus(resources: Resources, name: string, accepted: bool): Resources
    requires name in resources && resources[name].settings.core.Some?
  {
    if resources[name].allocatedCore == "" && accepted
    then resources[name := resources[name].(allocatedCore := resources[name].settings.core.value)]
    else resources
  }

  /** The request of one reconciliation: a pod, its namespace and its node. */
  datatype Request = Request(name: string, podNamespace: string, node: string)

  ghost predicate Reconciled(cluster: Cluster, resources: Resources, runtimeState: map<string, string>,
                             req: Request, accepted: bool,
                             cluster': Cluster, resources': Resources, rounds: seq<seq<Action>>)
    requires req.name in resources && resources[req.name].settings.core.Some?
  {
    var mc := resources[req.name];
    var p := InfoOf(mc, req.name, req.podNamespace, runtimeState);
    var created := WithPool(cluster, req.node, DEFAULT_NUM_CORES);
    var targets := CoreIDs(ActualCore(mc));
    && resources' == RecordRounds(InitialStatus(resources, req.name, accepted), rounds)
    && if AllMatch(created[req.node], targets, p.name, p.cpuMillis, p.criticality)
       then rounds == [] && cluster' == created
       else
         && Rounds(created[req.node], targets, p.cpuMillis, p.criticality, rounds)
         && cluster' == Registered(created[req.node := After(created[req.node], rounds)], req.node, p)
  }

  /** The two ways a reconciliation can go: everything matches, or the check and the registration run. */
  lemma ReconciledQuietly(cluster: Cluster, resources: Resources, runtimeState: map<string, string>,
                          req: Request, accepted: bool)
    requires req.name in resources && resources[req.name].settings.core.Some?
    requires
      var mc := resources[req.name];
      AllMatch(WithPool(cluster, req.node, DEFAULT_NUM_CORES)[req.node], CoreIDs(ActualCore(mc)), req.name,
               EffectiveMillis(mc.settings, runtimeState, req.name), mc.criticality)
    ensures Reconciled(cluster, resources, runtimeState, req, accepted,
                       WithPool(cluster, req.node, DEFAULT_NUM_CORES), InitialStatus(resources, req.name, accepted), [])
  {
  }

  lemma ReconciledLoudly(cluster: Cluster, resources: Resources, runtimeState: map<string, string>,
                         req: Request, accepted: bool, cluster': Cluster, rounds: seq<seq<Action>>)
    requires req.name in resources && resources[req.name].settings.core.Some?
    requires
      var mc := resources[req.name];
      var created := WithPool(cluster, req.node, DEFAULT_NUM_CORES);
      var p := InfoOf(mc, req.name, req.podNamespace, runtimeState);
      && !AllMatch(created[req.node], CoreIDs(ActualCore(mc)), p.name, p.cpuMillis, p.criticality)
      && Rounds(created[req.node], CoreIDs(ActualCore(mc)), p.cpuMillis, p.criticality, rounds)
      && cluster' == Registered(created[req.node := After(created[req.node], rounds)], req.node, p)
    ensures Reconciled(cluster, resources, runtimeState, req, accepted, cluster',
                       RecordRounds(InitialStatus(resources, req.name, accepted), rounds), rounds)
  {
  }

  class Reconciler {
    const registry: Registry
    var resources: Resources
    var runtimeState: map<string, string>

    constructor (registry: Registry, resources: Resources)
      ensures this.registry == registry && this.resources == resources && runtimeState == map[]
    {
      this.registry := registry;
      this.resources := resources;
      runtimeState := map[];
    }

    /** The least-loaded core, other than the current one, that stays within the threshold. */
    method FindMigrationTargetCore(pool: Pool, currentCore: int, victimMillis: int)
      returns (target: int, usage: int, found: bool)
      requires pool.Valid()
      ensures found ==> LeastLoadedTarget(pool.View(), currentCore, victimMillis, target)
                        && usage == pool.View()[target].usage
      ensures !found ==> forall i :: !Eligible(pool.View(), currentCore, victimMillis, i)
    {
      var bestCore, bestUsage := -1, 2000;
      var todo := pool.cores.Keys;
      while todo != {}
        invariant todo <= pool.cores.Keys
        invariant bestCore == -1 ==> bestUsage == 2000
        invariant bestCore != -1 ==> Eligible(pool.View(), currentCore, victimMillis, bestCore)
                                     && bestUsage == pool.View()[bestCore].usage
        invariant forall i | Eligible(pool.View(), currentCore, victimMillis, i) && i !in todo ::
          bestCore != -1 && bestUsage <= pool.View()[i].usage
        decreases |todo|
      {
        var i := NextKey(todo);
        todo := todo - {i};
        if i != currentCore {
          var u := pool.cores[i].usageMillis;
          if u + victimMillis <= CORE_UTILIZATION_THRESHOLD && u < bestUsage {
            bestCore, bestUsage := i, u;
          }
        }
      }
      if bestCore == -1 {
        return -1, 0, false;
      }
      return bestCore, bestUsage, true;
    }

    /** The strictly lower-ranked pods on a core. */
    method FindPreemptionVictims(pool: Pool, coreID: int, criticality: string) returns (victims: seq<PodInfo>)
      requires pool.Valid()
      ensures multiset(victims) == multiset(LowerPods(PodsAt(pool.View(), coreID), criticality).Values)
    {
      var pods := pool.GetPodsOnCore(coreID);
      victims := Preemptable(pods, criticality);
      LowerOfEntries(pods, PodsAt(pool.View(), coreID), criticality);
    }

    method Preemptable(pods: seq<PodInfo>, criticality: string) returns (victims: seq<PodInfo>)
      ensures victims == LowerOf(pods, criticality)
    {
      victims := [];
      var k := 0;
      while k < |pods|
        invariant 0 <= k <= |pods|
        invariant victims + LowerOf(pods[k..], criticality) == LowerOf(pods, criticality)
      {
        LowerOfNext(pods, k, criticality);
        if Rank(criticality) > pods[k].PodRank() {
          victims := victims + [pods[k]];
        }
        k := k + 1;
      }
    }

    /** Migrates the victim, or evicts it when no core takes it; eviction leaves the pool to the cleanup
        that follows the pod's deletion. */
    method PreemptPod(victim: PodInfo, pool: Pool, currentCore: int, outcome: ApiOutcome) returns (a: Action)
      requires pool.Valid() && IsEntry(pool.View(), currentCore, victim)
      modifies this`resources, pool.Repr
      ensures pool.Valid() && pool.View() == Perform(old(pool.View()), a)
      ensures a.victim == victim && a.core == currentCore
      ensures forall rank | victim.PodRank() < rank :: Legal(old(pool.View()), rank, a)
      ensures a.GetFailed? <==> !outcome.fetched
      ensures a.Migrated? ==> (a.recorded <==> outcome.stored && victim.name in old(resources))
      ensures resources == Record(old(resources), a)
    {
      if !outcome.fetched {
        return GetFailed(victim, currentCore);
      }
      var newCore, _, canMigrate := FindMigrationTargetCore(pool, currentCore, victim.cpuMillis);
      if canMigrate {
        pool.RemovePodFromCore(currentCore, victim.name);
        pool.AddPodToCore(newCore, victim);
        var recorded := UpdatePodCoreAffinity(victim.name, newCore, outcome.stored);
        return Migrated(victim, currentCore, newCore, recorded);
      }
      return Evicted(victim, currentCore);
    }

    /** The effect on the victim's custom resource. */
    method UpdatePodCoreAffinity(name: string, newCore: int, stored: bool) returns (recorded: bool)
      requires newCore >= 0
      modifies this`resources
      ensures recorded <==> stored && name in old(resources)
      ensures resources == if recorded then old(resources)[name := old(resources)[name].(allocatedCore := Written(newCore))]
                           else old(resources)
    {
      recorded := stored && name in resources;
      if recorded {
        resources := resources[name := resources[name].(allocatedCore := Written(newCore))];
      }
    }

    /** The check of one target core. `api` answers the calls for the k-th victim of the round. */
    method PreemptOnCore(pool: Pool, coreID: int, millis: int, criticality: string, api: nat -> ApiOutcome)
      returns (actions: seq<Action>)
      requires pool.Valid()
      modifies this`resources, pool.Repr
      ensures pool.Valid()
      ensures Round(old(pool.View()), coreID, millis, criticality, actions)
      ensures pool.View() == Replay(old(pool.View()), actions)
      ensures resources == RecordAll(old(resources), actions)
    {
      ghost var was := pool.View();
      actions := [];
      var afterUsage := pool.GetCoreUtilization(coreID);
      afterUsage := afterUsage + millis;
      if afterUsage <= CORE_UTILIZATION_THRESHOLD {
        return;
      }
      var needed := afterUsage - CORE_UTILIZATION_THRESHOLD;
      var candidates := FindPreemptionVictims(pool, coreID, criticality);
      if |candidates| == 0 {
        NothingToChoose(multiset(candidates), needed as real);
        assert VictimsOf(actions) == [];
        return;
      }
      var victims := SelectMinimumVictims(candidates, needed as real);
      GreedyVictimsDiffer(PodsAt(was, coreID), criticality, needed as real, victims);
      assert forall p | p in victims :: IsEntry(was, coreID, p);
      actions := PreemptAll(pool, coreID, victims, Rank(criticality), api);
    }

    method PreemptAll(pool: Pool, coreID: int, victims: seq<PodInfo>, ghost rank: int, api: nat -> ApiOutcome)
      returns (actions: seq<Action>)
      requires pool.Valid()
      requires forall p | p in victims :: IsEntry(pool.View(), coreID, p) && p.PodRank() < rank
      requires forall i, j | 0 <= i < j < |victims| :: victims[i].name != victims[j].name
      modifies this`resources, pool.Repr
      ensures pool.Valid()
      ensures VictimsOf(actions) == victims && forall a | a in actions :: a.core == coreID
      ensures LegalRun(old(pool.View()), rank, actions)
      ensures pool.View() == Replay(old(pool.View()), actions)
      ensures resources == RecordAll(old(resources), actions)
    {
      ghost var was := pool.View();
      actions := [];
      var k := 0;
      while k < |victims|
        invariant 0 <= k <= |victims| && |actions| == k
        invariant pool.Valid() && pool.View() == Replay(was, actions)
        invariant LegalRun(was, rank, actions)
        invariant forall i | 0 <= i < k :: actions[i].victim == victims[i] && actions[i].core == coreID
        invariant forall i | k <= i < |victims| :: IsEntry(pool.View(), coreID, victims[i])
        invariant resources == RecordAll(old(resources), actions)
      {
        ghost var before := pool.View();
        assert victims[k] in victims;
        var a := PreemptPod(victims[k], pool, coreID, api(k));
        RunExtends(was, rank, actions, a);
        RecordExtends(old(resources), actions, a);
        OthersRemain(before, a, victims, k, coreID);
        actions := actions + [a];
        k := k + 1;
      }
    }

    /** The check before an allocation, over all target cores in order. */
    method CheckAndPreemptForPod(nodeName: string, targetCores: seq<int>, millis: int, criticality: string,
                                 api: (nat, nat) -> ApiOutcome)
      returns (rounds: seq<seq<Action>>)
      requires registry.Valid()
      modifies this`resources, registry`contents, registry.Repr
      ensures registry.Valid()
      ensures nodeName !in old(registry.View()) ==>
        rounds == [] && registry.View() == old(registry.View()) && resources == old(resources)
      ensures nodeName in old(registry.View()) ==>
        && Rounds(old(registry.View())[nodeName], targetCores, millis, criticality, rounds)
        && registry.View() == old(registry.View())[nodeName := After(old(registry.View())[nodeName], rounds)]
        && resources == RecordRounds(old(resources), rounds)
    {
      rounds := [];
      var pool := registry.GetPoolForNode(nodeName);
      if pool == null {
        return;
      }
      assert forall m | m in registry.pools && m != nodeName :: registry.pools[m].Repr !! pool.Repr;
      rounds := PreemptOnCores(pool, targetCores, millis, criticality, api);
      registry.Refresh(nodeName);
    }

    method PreemptOnCores(pool: Pool, targetCores: seq<int>, millis: int, criticality: string,
                          api: (nat, nat) -> ApiOutcome)
      returns (rounds: seq<seq<Action>>)
      requires pool.Valid()
      modifies this`resources, pool.Repr
      ensures pool.Valid()
      ensures Rounds(old(pool.View()), targetCores, millis, criticality, rounds)
      ensures pool.View() == After(old(pool.View()), rounds)
      ensures resources == RecordRounds(old(resources), rounds)
    {
      ghost var was := pool.View();
      rounds := [];
      var k: nat := 0;
      while k < |targetCores|
        invariant 0 <= k <= |targetCores|
        invariant pool.Valid() && pool.View() == After(was, rounds)
        invariant Rounds(was, targetCores[..k], millis, criticality, rounds)
        invariant resources == RecordRounds(old(resources), rounds)
      {
        var actions := PreemptOnCore(pool, targetCores[k], millis, criticality, (j: nat) => api(k, j));
        RoundsExtend(was, targetCores[..k], millis, criticality, rounds, targetCores[k], actions);
        RecordRoundsExtends(old(resources), rounds, actions);
        rounds := rounds + [actions];
        assert targetCores[..k + 1] == targetCores[..k] + [targetCores[k]];
        k := k + 1;
      }
      assert targetCores[..k] == targetCores;
    }

    /** Registers the pod on the requested cores of its node, unless all of them match already. */
    method UpdateCPUPoolForPod(req: Request, mc: Resource)
      requires registry.Valid()
      modifies registry, registry.Repr
      ensures registry.Valid() && fresh(registry.Repr - old(registry.Repr))
      ensures mc.settings.core.None? || req.node == "" ==> registry.View() == old(registry.View())
      ensures mc.settings.core.Some? && req.node != "" ==>
        registry.View() == Registered(old(registry.View()), req.node,
                                      InfoOf(mc, req.name, req.podNamespace, runtimeState))
    {
      if mc.settings.core.None? || req.node == "" {
        return;
      }
      var _ := registry.GetOrCreateCPUPool(req.node, DEFAULT_NUM_CORES);
      var millis := EffectiveMillis(mc.settings, runtimeState, req.name);
      var coreSet := ParseCoreSet(mc.settings.core.value);
      RegisterOnNode(req.node, coreSet, PodInfo(req.name, req.podNamespace, mc.criticality, millis, coreSet));
    }

    method RegisterOnNode(nodeName: string, ids: seq<int>, p: PodInfo)
      requires registry.Valid() && nodeName in registry.pools
      modifies registry`contents, registry.pools[nodeName].Repr
      ensures registry.Valid()
      ensures registry.View() == old(registry.View())[nodeName := RegisterPod(old(registry.View())[nodeName], ids, p)]
    {
      var pool := registry.pools[nodeName];
      assert forall m | m in registry.pools && m != nodeName :: registry.pools[m].Repr !! pool.Repr;
      var matches := AllRegistered(pool, ids, p.name, p.cpuMillis, p.criticality);
      if !matches {
        Reregister(pool, ids, p);
        registry.Refresh(nodeName);
      }
    }

    method AllRegistered(pool: Pool, ids: seq<int>, name: string, millis: int, criticality: string)
      returns (matches: bool)
      requires pool.Valid()
      ensures matches <==> AllMatch(pool.View(), ids, name, millis, criticality)
    {
      matches := true;
      var k := 0;
      while k < |ids|
        invariant 0 <= k <= |ids|
        invariant matches <==> AllMatch(pool.View(), ids[..k], name, millis, criticality)
      {
        if ids[k] in pool.cores {
          var pods := pool.cores[ids[k]].pods;
          matches := name in pods && pods[name].cpuMillis == millis && pods[name].criticality == criticality;
        } else {
          matches := false;
        }
        if !matches {
          assert !Matches(pool.View(), ids[k], name, millis, criticality);
          return;
        }
        k := k + 1;
      }
      assert ids[..k] == ids;
    }

    method Reregister(pool: Pool, ids: seq<int>, p: PodInfo)
      requires pool.Valid()
      modifies pool.Repr
      ensures pool.Valid() && pool.View() == RegisterOn(old(pool.View()), ids, p)
    {
      var k := 0;
      while k < |ids|
        invariant 0 <= k <= |ids| && pool.Valid()
        invariant RegisterOn(pool.View(), ids[k..], p) == RegisterOn(old(pool.View()), ids, p)
      {
        pool.RemovePodFromCore(ids[k], p.name);
        pool.AddPodToCore(ids[k], p);
        assert ids[k..][1..] == ids[k + 1..];
        k := k + 1;
      }
    }

    method EnsurePodRuntimeStateInitialized(name: string)
      modifies this`runtimeState
      ensures runtimeState == if name in old(runtimeState) then old(runtimeState) else old(runtimeState)[name := "low"]
    {
      if name !in runtimeState {
        runtimeState := runtimeState[name := "low"];
      }
    }

    /** The pool section of a reconciliation, for a pod that is bound to a node and pending or running. */
    method ReconcilePool(req: Request, accepted: bool, api: (nat, nat) -> ApiOutcome)
      returns (rounds: seq<seq<Action>>)
      requires registry.Valid() && req.name in resources && req.node != ""
      modifies this, registry, registry.Repr
      ensures registry.Valid()
      ensures runtimeState == if req.name in old(runtimeState) then old(runtimeState)
                              else old(runtimeState)[req.name := "low"]
      ensures
        if old(resources)[req.name].settings.core.None? then
          rounds == [] && registry.View() == old(registry.View()) && resources == old(resources)
        else
          Reconciled(old(registry.View()), old(resources), runtimeState, req, accepted,
                     registry.View(), resources, rounds)
    {
      EnsurePodRuntimeStateInitialized(req.name);
      if resources[req.name].settings.core.None? {
        UpdateCPUPoolForPod(req, resources[req.name]);
        rounds := [];
      } else {
        rounds := ReconcileCores(req, accepted, api);
      }
    }

    method ReconcileCores(req: Request, accepted: bool, api: (nat, nat) -> ApiOutcome)
      returns (rounds: seq<seq<Action>>)
      requires registry.Valid() && req.name in resources && req.node != ""
      requires resources[req.name].settings.core.Some?
      modifies this`resources, registry, registry.Repr
      ensures registry.Valid()
      ensures Reconciled(old(registry.View()), old(resources), runtimeState, req, accepted,
                         registry.View(), resources, rounds)
    {
      ghost var was := registry.View();
      var mc := resources[req.name];
      var actualCore := ActualCore(mc);
      if mc.allocatedCore == "" && accepted {
        resources := resources[req.name := mc.(allocatedCore := actualCore)];
      }
      var targets := ParseCoreSet(actualCore);
      var millis := EffectiveMillis(mc.settings, runtimeState, req.name);
      var pool := registry.GetOrCreateCPUPool(req.node, DEFAULT_NUM_CORES);
      ghost var created := registry.View();
      var alreadyRegistered := AllRegistered(pool, targets, req.name, millis, mc.criticality);
      if alreadyRegistered {
        rounds := [];
        ReconciledQuietly(was, old(resources), runtimeState, req, accepted);
      } else {
        rounds := PreemptAndRegister(req, mc, targets, api);
        ReconciledLoudly(was, old(resources), runtimeState, req, accepted, registry.View(), rounds);
      }
    }

    method PreemptAndRegister(req: Request, mc: Resource, targets: seq<int>, api: (nat, nat) -> ApiOutcome)
      returns (rounds: seq<seq<Action>>)
      requires registry.Valid() && req.node in registry.View() && req.node != "" && mc.settings.core.Some?
      modifies this`resources, registry, registry.Repr
      ensures registry.Valid()
      ensures
        var pool, p := old(registry.View())[req.node], InfoOf(mc, req.name, req.podNamespace, runtimeState);
        && Rounds(pool, targets, p.cpuMillis, p.criticality, rounds)
        && registry.View() == Registered(old(registry.View())[req.node := After(pool, rounds)], req.node, p)
      ensures resources == RecordRounds(old(resources), rounds)
    {
      var millis := EffectiveMillis(mc.settings, runtimeState, req.name);
      rounds := CheckAndPreemptForPod(req.node, targets, millis, mc.criticality, api);
      UpdateCPUPoolForPod(req, mc);
    }

    /** On recovery, pods in the high mode are set back to the low one, whether or not their containers take
        the new runtime; a pod without settings or without a known host address is passed over. */
    method RevertRuntimes(labelled: seq<RecoveringPod>)
      modifies this`runtimeState
      ensures runtimeState == Reverted(old(runtimeState), labelled)
    {
      for k := 0 to |labelled|
        invariant runtimeState == Reverted(old(runtimeState), labelled[..k])
      {
        ghost var before := runtimeState;
        var p := labelled[k];
        if p.name in runtimeState && runtimeState[p.name] == "hi" && p.configured && p.hostKnown {
          runtimeState := runtimeState[p.name := "low"];
        }
        assert labelled[..k + 1] == labelled[..k] + [p];
        RevertedNext(old(runtimeState), labelled[..k], p);
      }
      assert labelled[..|labelled|] == labelled;
    }

    /** Forgetting a deleted pod. */
    method CleanupPodState(podName: string)
      requires registry.Valid()
      modifies this`runtimeState, registry`contents, registry.Repr
      ensures registry.Valid() && registry.View() == DropEverywhere(old(registry.View()), podName)
      ensures runtimeState == old(runtimeState) - {podName}
    {
      runtimeState := runtimeState - {podName};
      var _ := registry.RemovePodFromPool(podName);
    }
  }

  lemma NothingToChoose(candidates: multiset<PodInfo>, needed: real)
    requires candidates == multiset{}
    ensures IsGreedy(candidates, needed, [])
  {
    var none: seq<PodInfo> := [];
    assert none[..Taken(none, needed)] == [];
    assert GreedyVia(none, candidates, needed, []);
  }

  lemma OthersRemain(pool: Cores, a: Action, victims: seq<PodInfo>, k: nat, core: int)
    requires k < |victims| && a.victim == victims[k] && a.core == core
    requires a.Migrated? ==> a.to != core
    requires forall i | k < i < |victims| :: IsEntry(pool, core, victims[i]) && victims[i].name != victims[k].name
    ensures forall i | k < i < |victims| :: IsEntry(Perform(pool, a), core, victims[i])
  {
  }
}
