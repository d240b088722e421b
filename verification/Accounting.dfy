/** The accounting of real-time budget as values: a core's cached usage next to the pod map it
    summarises, the operations that change them, and what every run of those operations keeps. */
module Accounting {
  import opened Criticality

  datatype Core = Core(usage: int, pods: map<string, PodInfo>)

  /** The pool of one node, by core ID, and all pools, by node name. */
  type Cores = map<int, Core>
  type Cluster = map<string, Cores>

  const EMPTY_CORE := Core(0, map[])

  /** A fresh pool has cores 0 to numCores - 1, all of them empty. */
  function EmptyPool(numCores: int): (pool: Cores)
    ensures forall i :: i in pool <==> 0 <= i < numCores
    ensures forall i | i in pool :: pool[i] == EMPTY_CORE
  {
    if numCores <= 0 then map[] else EmptyPool(numCores - 1)[numCores - 1 := EMPTY_CORE]
  }

  // ---------- The sum a core's cached usage stands for ----------

  ghost function PodSum(pods: map<string, PodInfo>): int
    decreases |pods|
  {
    if pods == map[] then 0
    else
      var name :| name in pods;
      pods[name].cpuMillis + PodSum(pods - {name})
  }

  lemma {:induction false} PodSumSplit(pods: map<string, PodInfo>, name: string)
    requires name in pods
    ensures PodSum(pods) == pods[name].cpuMillis + PodSum(pods - {name})
    decreases |pods|
  {
    var first :| first in pods && PodSum(pods) == pods[first].cpuMillis + PodSum(pods - {first});
    if first != name {
      PodSumSplit(pods - {first}, name);
      PodSumSplit(pods - {name}, first);
      assert pods - {first} - {name} == pods - {name} - {first};
    }
  }

  lemma PodSumAdd(pods: map<string, PodInfo>, p: PodInfo)
    ensures PodSum(pods[p.name := p]) == PodSum(pods - {p.name}) + p.cpuMillis
  {
    PodSumSplit(pods[p.name := p], p.name);
    assert pods[p.name := p] - {p.name} == pods - {p.name};
  }

  lemma {:induction false} PodSumNonNegative(pods: map<string, PodInfo>)
    requires forall name | name in pods :: pods[name].cpuMillis >= 0
    ensures PodSum(pods) >= 0
    decreases |pods|
  {
    if pods != map[] {
      var name :| name in pods;
      PodSumSplit(pods, name);
      PodSumNonNegative(pods - {name});
    }
  }

  /** What the cache claims beyond the entries it should summarise. */
  ghost function Drift(c: Core): int {
    c.usage - PodSum(c.pods)
  }

  ghost predicate Exact(c: Core) {
    c.usage == PodSum(c.pods)
  }

  // ---------- Operations on one core ----------

  /** Registering a pod writes its entry and adds its budget, whether or not an entry was there. */
  function Add(c: Core, p: PodInfo): Core {
    Core(c.usage + p.cpuMillis, c.pods[p.name := p])
  }

  function Drop(c: Core, name: string): Core {
    if name in c.pods then Core(c.usage - c.pods[name].cpuMillis, c.pods - {name}) else c
  }

  /** Dropping every registered pod that no longer exists. */
  ghost function KeepOnly(c: Core, existing: set<string>): Core {
    Core(c.usage - PodSum(c.pods - existing), map name | name in c.pods && name in existing :: c.pods[name])
  }

  lemma AddDrift(c: Core, p: PodInfo)
    ensures Drift(Add(c, p)) == Drift(c) + if p.name in c.pods then c.pods[p.name].cpuMillis else 0
  {
    PodSumAdd(c.pods, p);
    if p.name in c.pods {
      PodSumSplit(c.pods, p.name);
    } else {
      assert c.pods - {p.name} == c.pods;
    }
  }

  lemma DropDrift(c: Core, name: string)
    ensures Drift(Drop(c, name)) == Drift(c)
  {
    if name in c.pods {
      PodSumSplit(c.pods, name);
    }
  }

  lemma {:induction false} PodSumPartition(pods: map<string, PodInfo>, existing: set<string>)
    ensures PodSum(pods) == PodSum(pods - existing) + PodSum(map name | name in pods && name in existing :: pods[name])
    decreases |pods|
  {
    var kept := map name | name in pods && name in existing :: pods[name];
    if pods == map[] {
      assert pods - existing == map[] && kept == map[];
    } else {
      var x :| x in pods;
      PodSumSplit(pods, x);
      PodSumPartition(pods - {x}, existing);
      var kept' := map name | name in pods - {x} && name in existing :: (pods - {x})[name];
      if x in existing {
        PodSumSplit(kept, x);
        assert kept - {x} == kept';
        assert pods - {x} - existing == pods - existing;
      } else {
        PodSumSplit(pods - existing, x);
        assert pods - existing - {x} == pods - {x} - existing;
        assert kept == kept';
      }
    }
  }

  lemma KeepOnlyDrift(c: Core, existing: set<string>)
    ensures Drift(KeepOnly(c, existing)) == Drift(c)
  {
    PodSumPartition(c.pods, existing);
  }

  /** Registering keeps an exact cache exact just when no budget is overwritten: the source relies on
      its callers for that. */
  lemma AddKeepsExactIff(c: Core, p: PodInfo)
    requires Exact(c)
    ensures Exact(Add(c, p)) <==> (p.name !in c.pods || c.pods[p.name].cpuMillis == 0)
  {
    AddDrift(c, p);
  }

  // ---------- Removing one pod at a time and removing in bulk ----------

  function DropAll(c: Core, names: seq<string>): Core
    decreases |names|
  {
    if names == [] then c else DropAll(Drop(c, names[0]), names[1..])
  }

  /** Purging everything outside `existing` is dropping, in any order and with any repetition, every
      registered name outside it. */
  lemma {:induction false} PurgeIsDropInAnyOrder(c: Core, existing: set<string>, names: seq<string>)
    requires forall name | name in names :: name !in existing
    requires forall name | name in c.pods :: name in existing || name in names
    ensures DropAll(c, names) == KeepOnly(c, existing)
    decreases |names|
  {
    if names == [] {
      assert c.pods - existing == map[];
      assert KeepOnly(c, existing).pods == c.pods;
    } else {
      var d := Drop(c, names[0]);
      PurgeIsDropInAnyOrder(d, existing, names[1..]);
      assert KeepOnly(d, existing).pods == KeepOnly(c, existing).pods;
      if names[0] in c.pods {
        PodSumSplit(c.pods - existing, names[0]);
        assert c.pods - existing - {names[0]} == d.pods - existing;
      }
    }
  }

  // ---------- Operations on pools ----------

  function AddAt(pool: Cores, id: int, p: PodInfo): Cores {
    if id in pool then pool[id := Add(pool[id], p)] else pool
  }

  function DropAt(pool: Cores, id: int, name: string): Cores {
    if id in pool then pool[id := Drop(pool[id], name)] else pool
  }

  function DropEverywhere(cluster: Cluster, name: string): Cluster {
    map n | n in cluster :: map i | i in cluster[n] :: Drop(cluster[n][i], name)
  }

  ghost function KeepOnlyEverywhere(cluster: Cluster, existing: set<string>): Cluster {
    map n | n in cluster :: map i | i in cluster[n] :: KeepOnly(cluster[n][i], existing)
  }

  function DropAllEverywhere(cluster: Cluster, names: seq<string>): Cluster {
    map n | n in cluster :: map i | i in cluster[n] :: DropAll(cluster[n][i], names)
  }

  function DropEach(cluster: Cluster, names: seq<string>): Cluster
    decreases |names|
  {
    if names == [] then cluster else DropEach(DropEverywhere(cluster, names[0]), names[1..])
  }

  lemma {:induction false} DropEachIsPointwise(cluster: Cluster, names: seq<string>)
    ensures DropEach(cluster, names) == DropAllEverywhere(cluster, names)
    decreases |names|
  {
    if names == [] {
      assert forall n | n in cluster :: (map i | i in cluster[n] :: DropAll(cluster[n][i], names)) == cluster[n];
    } else {
      var next := DropEverywhere(cluster, names[0]);
      DropEachIsPointwise(next, names[1..]);
      forall n | n in cluster
        ensures DropAllEverywhere(next, names[1..])[n] == DropAllEverywhere(cluster, names)[n]
      {
        assert forall i | i in cluster[n] :: DropAll(next[n][i], names[1..]) == DropAll(cluster[n][i], names);
      }
    }
  }

  /** A removal leaves the pod nowhere, every other entry as it was, and takes exactly the pod's budget off
      each core's cache. */
  lemma RemovalIsExact(cluster: Cluster, name: string, n: string, i: int)
    requires HasCore(cluster, n, i)
    ensures HasCore(DropEverywhere(cluster, name), n, i)
    ensures
      var before, after := cluster[n][i], DropEverywhere(cluster, name)[n][i];
      && after.pods == before.pods - {name}
      && before.usage - after.usage == (if name in before.pods then before.pods[name].cpuMillis else 0)
  {
    assert name !in cluster[n][i].pods ==> cluster[n][i].pods - {name} == cluster[n][i].pods;
  }

  /** The cluster-wide purge equals a sequence of cluster-wide removals, one per stale name. */
  lemma PurgeEqualsRemovals(cluster: Cluster, existing: set<string>, names: seq<string>)
    requires forall name | name in names :: name !in existing
    requires forall n, i, name | n in cluster && i in cluster[n] && name in cluster[n][i].pods ::
      name in existing || name in names
    ensures DropEach(cluster, names) == KeepOnlyEverywhere(cluster, existing)
  {
    DropEachIsPointwise(cluster, names);
    forall n | n in cluster
      ensures DropAllEverywhere(cluster, names)[n] == KeepOnlyEverywhere(cluster, existing)[n]
    {
      forall i | i in cluster[n]
        ensures DropAll(cluster[n][i], names) == KeepOnly(cluster[n][i], existing)
      {
        PurgeIsDropInAnyOrder(cluster[n][i], existing, names);
      }
    }
  }

  /** Re-registering a pod on each core of its set: on every one the old entry goes first. */
  function RegisterOn(pool: Cores, ids: seq<int>, p: PodInfo): Cores {
    if ids == [] then pool else RegisterOn(AddAt(DropAt(pool, ids[0], p.name), ids[0], p), ids[1..], p)
  }

  /** The pool of a node, created on first use. */
  function WithPool(cluster: Cluster, node: string, numCores: int): (created: Cluster)
    ensures node in created
  {
    if node in cluster then cluster else cluster[node := EmptyPool(numCores)]
  }

  function Move(pool: Cores, from: int, to: int, p: PodInfo): Cores {
    AddAt(DropAt(pool, from, p.name), to, p)
  }

  // ---------- Runs ----------

  datatype Step =
    | CreatePool(node: string, numCores: int)
    | RemovePod(name: string)
    | Purge(existing: set<string>)
    | Register(node: string, ids: seq<int>, pod: PodInfo)
    | Migrate(node: string, from: int, to: int, pod: PodInfo)

  ghost function Apply(cluster: Cluster, step: Step): Cluster {
    match step
    case CreatePool(node, numCores) => WithPool(cluster, node, numCores)
    case RemovePod(name) => DropEverywhere(cluster, name)
    case Purge(existing) => KeepOnlyEverywhere(cluster, existing)
    case Register(node, ids, pod) =>
      if node in cluster then cluster[node := RegisterOn(cluster[node], ids, pod)] else cluster
    case Migrate(node, from, to, pod) =>
      if node in cluster then cluster[node := Move(cluster[node], from, to, pod)] else cluster
  }

  ghost function Run(cluster: Cluster, steps: seq<Step>): Cluster
    decreases |steps|
  {
    if steps == [] then cluster else Run(Apply(cluster, steps[0]), steps[1..])
  }

  predicate HoldsBudget(c: Core, name: string) {
    name in c.pods && c.pods[name].cpuMillis != 0
  }

  /** The one thing a step must avoid: migrating a pod onto a core that already holds budget for it. */
  predicate Clean(cluster: Cluster, step: Step) {
    step.Migrate? && step.node in cluster && step.to in cluster[step.node] ==>
      !HoldsBudget(DropAt(cluster[step.node], step.from, step.pod.name)[step.to], step.pod.name)
  }

  ghost predicate CleanRun(cluster: Cluster, steps: seq<Step>)
    decreases |steps|
  {
    steps == [] || (Clean(cluster, steps[0]) && CleanRun(Apply(cluster, steps[0]), steps[1..]))
  }

  predicate HasCore(cluster: Cluster, n: string, i: int) {
    n in cluster && i in cluster[n]
  }

  ghost predicate AllExact(cluster: Cluster) {
    forall n, i | HasCore(cluster, n, i) :: Exact(cluster[n][i])
  }

  predicate NonNegativeCore(c: Core) {
    forall name | name in c.pods :: c.pods[name].cpuMillis >= 0
  }

  ghost predicate AllNonNegative(cluster: Cluster) {
    forall n, i | HasCore(cluster, n, i) :: NonNegativeCore(cluster[n][i])
  }

  predicate NonNegativeStep(step: Step) {
    step.Register? || step.Migrate? ==> step.pod.cpuMillis >= 0
  }

  /** Between two pools: the same cores, no cache drifting downwards, all entries still non-negative. */
  ghost predicate Grows(before: Cores, after: Cores) {
    && after.Keys == before.Keys
    && forall i | i in before ::
         Drift(after[i]) >= Drift(before[i]) && (NonNegativeCore(before[i]) ==> NonNegativeCore(after[i]))
  }

  /** Dropping first, re-registration never overwrites, on any list of cores. */
  lemma {:induction false} RegisterOnKeepsDrift(pool: Cores, ids: seq<int>, p: PodInfo)
    ensures RegisterOn(pool, ids, p).Keys == pool.Keys
    ensures forall i | i in pool :: Drift(RegisterOn(pool, ids, p)[i]) == Drift(pool[i])
    ensures p.cpuMillis >= 0 ==> Grows(pool, RegisterOn(pool, ids, p))
  {
    if ids != [] {
      var next := AddAt(DropAt(pool, ids[0], p.name), ids[0], p);
      if ids[0] in pool {
        DropDrift(pool[ids[0]], p.name);
        AddDrift(Drop(pool[ids[0]], p.name), p);
      }
      RegisterOnKeepsDrift(next, ids[1..], p);
    }
  }

  /** A migration leaves every cache's drift alone except on a target that already held the pod, where
      the overwritten budget stays in the cache. */
  lemma MoveDrift(pool: Cores, from: int, to: int, p: PodInfo)
    ensures Move(pool, from, to, p).Keys == pool.Keys
    ensures forall i | i in pool && i != to :: Drift(Move(pool, from, to, p)[i]) == Drift(pool[i])
    ensures to in pool ==>
      var target := DropAt(pool, from, p.name)[to];
      Drift(Move(pool, from, to, p)[to])
        == Drift(pool[to]) + if p.name in target.pods then target.pods[p.name].cpuMillis else 0
  {
    if from in pool {
      DropDrift(pool[from], p.name);
    }
    if to in pool {
      AddDrift(DropAt(pool, from, p.name)[to], p);
    }
  }

  lemma ApplyGrows(cluster: Cluster, step: Step)
    requires AllNonNegative(cluster) && NonNegativeStep(step)
    ensures AllNonNegative(Apply(cluster, step))
    ensures forall n, i | HasCore(cluster, n, i) ::
      HasCore(Apply(cluster, step), n, i) && Drift(Apply(cluster, step)[n][i]) >= Drift(cluster[n][i])
  {
    match step
    case CreatePool(_, _) =>
    case RemovePod(name) =>
      forall n, i | HasCore(cluster, n, i)
        ensures Drift(Drop(cluster[n][i], name)) == Drift(cluster[n][i])
      {
        DropDrift(cluster[n][i], name);
      }
    case Purge(existing) =>
      forall n, i | HasCore(cluster, n, i)
        ensures Drift(KeepOnly(cluster[n][i], existing)) == Drift(cluster[n][i])
      {
        KeepOnlyDrift(cluster[n][i], existing);
      }
    case Register(node, ids, pod) =>
      if node in cluster {
        RegisterOnKeepsDrift(cluster[node], ids, pod);
        PoolStaysNonNegative(cluster, node);
      }
    case Migrate(node, from, to, pod) =>
      if node in cluster {
        PoolStaysNonNegative(cluster, node);
        MoveDrift(cluster[node], from, to, pod);
      }
  }

  lemma PoolStaysNonNegative(cluster: Cluster, node: string)
    requires AllNonNegative(cluster) && node in cluster
    ensures forall i | i in cluster[node] :: NonNegativeCore(cluster[node][i])
  {
    assert forall i | i in cluster[node] :: HasCore(cluster, node, i);
  }

  /** One step keeps all caches exact just when it is clean. */
  lemma ApplyExactIff(cluster: Cluster, step: Step)
    requires AllExact(cluster) && AllNonNegative(cluster) && NonNegativeStep(step)
    ensures AllExact(Apply(cluster, step)) <==> Clean(cluster, step)
  {
    var after := Apply(cluster, step);
    match step
    case CreatePool(_, _) =>
    case RemovePod(name) =>
      forall n, i | HasCore(cluster, n, i)
        ensures Exact(after[n][i])
      {
        DropDrift(cluster[n][i], name);
      }
    case Purge(existing) =>
      forall n, i | HasCore(cluster, n, i)
        ensures Exact(after[n][i])
      {
        KeepOnlyDrift(cluster[n][i], existing);
      }
    case Register(node, ids, pod) =>
      if node in cluster {
        RegisterOnKeepsDrift(cluster[node], ids, pod);
        assert forall i | i in cluster[node] :: HasCore(cluster, node, i);
      }
    case Migrate(node, from, to, pod) =>
      if node in cluster {
        MoveDrift(cluster[node], from, to, pod);
        assert forall i | i in cluster[node] :: HasCore(cluster, node, i);
        if to in cluster[node] {
          assert HasCore(after, node, to);
        }
      }
  }

  /** Over every run with non-negative budgets, however it migrates, no cache ever claims less than
      its entries, and none drifts back. */
  lemma {:induction false} RunNeverUndercounts(cluster: Cluster, steps: seq<Step>)
    requires AllNonNegative(cluster) && forall s | s in steps :: NonNegativeStep(s)
    ensures AllNonNegative(Run(cluster, steps))
    ensures forall n, i | HasCore(cluster, n, i) ::
      HasCore(Run(cluster, steps), n, i) && Drift(Run(cluster, steps)[n][i]) >= Drift(cluster[n][i])
    decreases |steps|
  {
    if steps != [] {
      assert steps[0] in steps;
      ApplyGrows(cluster, steps[0]);
      RunNeverUndercounts(Apply(cluster, steps[0]), steps[1..]);
    }
  }

  /** The cached usage refines the pod map over a whole run exactly when every migration in it is
      onto a core that does not already hold the victim's budget. */
  lemma {:induction false} UsageIsExactIff(cluster: Cluster, steps: seq<Step>)
    requires AllExact(cluster) && AllNonNegative(cluster)
    requires forall s | s in steps :: NonNegativeStep(s)
    ensures AllExact(Run(cluster, steps)) <==> CleanRun(cluster, steps)
    decreases |steps|
  {
    if steps != [] {
      assert steps[0] in steps;
      var next := Apply(cluster, steps[0]);
      ApplyExactIff(cluster, steps[0]);
      ApplyGrows(cluster, steps[0]);
      if AllExact(next) {
        UsageIsExactIff(next, steps[1..]);
      } else {
        StaleNeverRecovers(cluster, steps);
      }
    }
  }

  lemma StaleNeverRecovers(cluster: Cluster, steps: seq<Step>)
    requires AllExact(cluster) && AllNonNegative(cluster)
    requires steps != [] && forall s | s in steps :: NonNegativeStep(s)
    requires !AllExact(Apply(cluster, steps[0]))
    ensures !AllExact(Run(cluster, steps))
  {
    assert steps[0] in steps;
    var next := Apply(cluster, steps[0]);
    ApplyGrows(cluster, steps[0]);
    RunNeverUndercounts(next, steps[1..]);
    var n, i :| HasCore(next, n, i) && !Exact(next[n][i]);
    FreshCoresAreExact(cluster, steps[0], n, i);
    assert Drift(next[n][i]) > 0;
    assert HasCore(Run(cluster, steps), n, i);
  }

  lemma FreshCoresAreExact(cluster: Cluster, step: Step, n: string, i: int)
    requires HasCore(Apply(cluster, step), n, i)
    ensures HasCore(cluster, n, i) || Exact(Apply(cluster, step)[n][i])
  {
    if step.Register? && step.node in cluster {
      RegisterOnKeepsDrift(cluster[step.node], step.ids, step.pod);
    }
  }

  /** The situation the source does not guard against: a pod registered on cores 2 and 3 is chosen as
      a victim on core 2 and core 3 is the least loaded. */
  lemma MigrationMayDoubleCount(pod: PodInfo)
    requires pod.cpuMillis == 300 && pod.name == "victim"
    ensures
      var steps := [CreatePool("node", 4), Register("node", [2, 3], pod), Migrate("node", 2, 3, pod)];
      var after := Run(map[], steps);
      && HasCore(after, "node", 3)
      && after["node"][3].usage == 600
      && PodSum(after["node"][3].pods) == 300
  {
    var created: Cluster := Apply(map[], CreatePool("node", 4));
    var on2 := AddAt(DropAt(created["node"], 2, pod.name), 2, pod);
    assert RegisterOn(created["node"], [2, 3], pod) == RegisterOn(on2, [3], pod) by {
      assert [2, 3][1..] == [3];
    }
    assert RegisterOn(on2, [3], pod) == AddAt(DropAt(on2, 3, pod.name), 3, pod) by {
      assert [3][1..] == [];
    }
    var steps := [CreatePool("node", 4), Register("node", [2, 3], pod), Migrate("node", 2, 3, pod)];
    var registered: Cluster := Apply(created, steps[1]);
    var migrated: Cluster := Apply(registered, steps[2]);
    assert steps[1..] == [steps[1], steps[2]] && steps[1..][1..] == [steps[2]] && steps[1..][1..][1..] == [];
    assert Run(map[], steps) == Run(created, steps[1..]) == Run(registered, steps[1..][1..]) == migrated;
    PodSumSplit(migrated["node"][3].pods, pod.name);
    assert migrated["node"][3].pods - {pod.name} == map[];
  }
}
