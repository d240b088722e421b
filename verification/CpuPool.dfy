/** The mutable CPU pools: one record per core, one pool per node, and the process-wide registry of
    pools. Every method states its effect as an operation of module Accounting on the abstract value. */
module CpuPool {
  import opened GoTypes
  import opened Criticality
  import opened Accounting

  const DEFAULT_NUM_CORES := 16

  /** Entries are stored under the name of the pod they describe. */
  ghost predicate WellKeyed(pods: map<string, PodInfo>) {
    forall name | name in pods :: pods[name].name == name
  }

  /** One step of ranging over a map: some key not visited yet, in no particular order. */
  method NextKey<T>(todo: set<T>) returns (key: T)
    requires todo != {}
    ensures key in todo
  {
    key :| key in todo;
  }

  /** The same, with what is left to visit. */
  method TakeKey<T>(todo: set<T>) returns (key: T, rest: set<T>)
    requires todo != {}
    ensures key in todo && rest == todo - {key} && |rest| < |todo|
  {
    key := NextKey(todo);
    rest := todo - {key};
  }

  class CoreInfo {
    const coreID: int
    var usageMillis: int
    var pods: map<string, PodInfo>

    constructor (coreID: int)
      ensures this.coreID == coreID && Value() == EMPTY_CORE
    {
      this.coreID := coreID;
      usageMillis := 0;
      pods := map[];
    }

    ghost function Value(): Core
      reads this
    {
      Core(usageMillis, pods)
    }

    method DropPod(name: string) returns (removed: bool)
      modifies this
      ensures Value() == Drop(old(Value()), name)
      ensures removed <==> name in old(pods)
    {
      removed := name in pods;
      if removed {
        usageMillis := usageMillis - pods[name].cpuMillis;
        pods := pods - {name};
      }
    }

    /** Visits the entries in an arbitrary order, deleting while iterating. */
    method KeepPods(existing: set<string>)
      modifies this
      ensures Value() == KeepOnly(old(Value()), existing)
    {
      ghost var was := pods;
      var todo := pods.Keys;
      while todo != {}
        invariant todo <= was.Keys
        invariant pods == map name | name in was && (name in todo || name in existing) :: was[name]
        invariant usageMillis - PodSum(pods) == old(usageMillis) - PodSum(was)
        decreases |todo|
      {
        var name := NextKey(todo);
        if name !in existing {
          PodSumSplit(pods, name);
          usageMillis := usageMillis - pods[name].cpuMillis;
          pods := pods - {name};
        }
        todo := todo - {name};
      }
      PodSumPartition(was, existing);
      assert pods == map name | name in was && name in existing :: was[name];
    }

    /** The entries in an arbitrary order. */
    method ListPods() returns (list: seq<PodInfo>)
      requires WellKeyed(pods)
      ensures multiset(list) == multiset(pods.Values)
    {
      list := [];
      var todo := pods.Keys;
      while todo != {}
        invariant todo <= pods.Keys
        invariant Lists(list, pods, todo)
        decreases |todo|
      {
        var name := NextKey(todo);
        list := list + [pods[name]];
        todo := todo - {name};
      }
      ListedOnce(list, pods);
    }
  }

  /** `list` holds the entries outside `todo`, each once. */
  ghost predicate Lists(list: seq<PodInfo>, pods: map<string, PodInfo>, todo: set<string>) {
    && (forall i | 0 <= i < |list| :: list[i].name in pods && list[i].name !in todo && pods[list[i].name] == list[i])
    && (forall name | name in pods && name !in todo :: pods[name] in list)
    && (forall i, j | 0 <= i < j < |list| :: list[i] != list[j])
  }

  lemma ListedOnce(list: seq<PodInfo>, pods: map<string, PodInfo>)
    requires Lists(list, pods, {})
    ensures multiset(list) == multiset(pods.Values)
  {
    forall p
      ensures multiset(list)[p] == multiset(pods.Values)[p]
    {
      DistinctCount(list, p);
      if p in list {
        assert p.name in pods;
      }
    }
  }

  lemma {:induction false} DistinctCount(list: seq<PodInfo>, p: PodInfo)
    requires forall i, j | 0 <= i < j < |list| :: list[i] != list[j]
    ensures multiset(list)[p] == if p in list then 1 else 0
  {
    if list != [] {
      assert list == [list[0]] + list[1..];
      DistinctCount(list[1..], p);
    }
  }

  class Pool {
    const nodeName: string
    const cores: map<int, CoreInfo>
    ghost const Repr: set<CoreInfo>

    /** The fixed structure: one distinct record per core, numbered from zero. */
    ghost predicate Shape() {
      && (forall i | i in cores :: 0 <= i <= MAX_INT64)
      && (forall i | i in cores :: cores[i] in Repr)
      && (forall i, j | i in cores && j in cores && i != j :: cores[i] != cores[j])
    }

    ghost predicate Valid()
      reads Repr
    {
      Shape() && forall i | i in cores :: WellKeyed(cores[i].pods)
    }

    ghost function View(): Cores
      requires Shape()
      reads Repr
    {
      map i | i in cores :: cores[i].Value()
    }

    constructor (nodeName: string, numCores: GoInt)
      ensures Valid() && this.nodeName == nodeName
      ensures fresh(Repr)
      ensures View() == EmptyPool(numCores)
    {
      this.nodeName := nodeName;
      var made: map<int, CoreInfo> := map[];
      ghost var repr: set<CoreInfo> := {};
      var i := 0;
      while i < numCores
        invariant i >= 0 && (i <= numCores || i == 0)
        invariant forall j :: j in made <==> 0 <= j < i
        invariant fresh(repr)
        invariant forall j | j in made :: made[j] in repr && made[j].Value() == EMPTY_CORE
        invariant forall j, k | j in made && k in made && j != k :: made[j] != made[k]
      {
        var core := new CoreInfo(i);
        made := made[i := core];
        repr := repr + {core};
        i := i + 1;
      }
      cores := made;
      Repr := repr;
    }

    /** The utilisation of a core in thousandths; an unknown core reads as idle. */
    method GetCoreUtilization(coreID: int) returns (millis: int)
      requires Shape()
      ensures millis == if coreID in View() then View()[coreID].usage else 0
    {
      millis := if coreID in cores then cores[coreID].usageMillis else 0;
    }

    method AddPodToCore(coreID: int, pod: PodInfo)
      requires Valid()
      modifies Repr
      ensures Valid() && View() == AddAt(old(View()), coreID, pod)
    {
      if coreID in cores {
        var core := cores[coreID];
        core.pods := core.pods[pod.name := pod];
        core.usageMillis := core.usageMillis + pod.cpuMillis;
        assert forall i | i in cores && i != coreID :: cores[i].Value() == old(cores[i].Value());
        assert forall i | i in cores :: View()[i] == AddAt(old(View()), coreID, pod)[i];
      }
    }

    method DropOnCore(coreID: int, name: string) returns (removed: bool)
      requires Valid() && coreID in cores
      modifies Repr
      ensures Valid() && View() == old(View())[coreID := Drop(old(View())[coreID], name)]
      ensures removed <==> name in old(View())[coreID].pods
    {
      removed := cores[coreID].DropPod(name);
      assert forall i | i in cores && i != coreID :: cores[i].Value() == old(cores[i].Value());
      assert forall i | i in cores ::
          View()[i] == if i == coreID then Drop(old(View())[i], name) else old(View())[i];
    }

    method KeepOnCore(coreID: int, existing: set<string>)
      requires Valid() && coreID in cores
      modifies Repr
      ensures Valid() && View() == old(View())[coreID := KeepOnly(old(View())[coreID], existing)]
    {
      cores[coreID].KeepPods(existing);
      assert forall i | i in cores && i != coreID :: cores[i].Value() == old(cores[i].Value());
      assert forall i | i in cores ::
          View()[i] == if i == coreID then KeepOnly(old(View())[i], existing) else old(View())[i];
    }

    method RemovePodFromCore(coreID: int, podName: string)
      requires Valid()
      modifies Repr
      ensures Valid() && View() == DropAt(old(View()), coreID, podName)
    {
      if coreID in cores {
        var _ := DropOnCore(coreID, podName);
      }
    }

    method GetPodsOnCore(coreID: int) returns (list: seq<PodInfo>)
      requires Valid()
      ensures multiset(list) == multiset(PodsAt(View(), coreID).Values)
    {
      list := [];
      if coreID in cores {
        list := cores[coreID].ListPods();
      } else {
        assert PodsAt(View(), coreID).Values == {};
      }
    }

    method DropPod(name: string) returns (removed: bool)
      requires Valid()
      modifies Repr
      ensures Valid() && View() == DropInPool(old(View()), name)
      ensures removed <==> HeldOn(old(View()), name)
    {
      ghost var was := View();
      removed := false;
      var todo := cores.Keys;
      while todo != {}
        invariant Valid() && todo <= was.Keys
        invariant View() == map i | i in was :: if i in todo then was[i] else Drop(was[i], name)
        invariant removed <==> exists i :: i in was && i !in todo && name in was[i].pods
        decreases |todo|
      {
        var i := NextKey(todo);
        var r := DropOnCore(i, name);
        removed := removed || r;
        todo := todo - {i};
      }
    }

    method KeepPods(existing: set<string>)
      requires Valid()
      modifies Repr
      ensures Valid() && View() == KeepInPool(old(View()), existing)
    {
      ghost var was := View();
      var todo := cores.Keys;
      while todo != {}
        invariant Valid() && todo <= was.Keys
        invariant View() == map i | i in was :: if i in todo then was[i] else KeepOnly(was[i], existing)
        decreases |todo|
      {
        var i := NextKey(todo);
        KeepOnCore(i, existing);
        todo := todo - {i};
      }
    }
  }

  /** The entries of a core; none when the pool has no such core. */
  ghost function PodsAt(pool: Cores, coreID: int): map<string, PodInfo> {
    if coreID in pool then pool[coreID].pods else map[]
  }

  ghost function DropInPool(pool: Cores, name: string): Cores {
    map i | i in pool :: Drop(pool[i], name)
  }

  ghost function KeepInPool(pool: Cores, existing: set<string>): Cores {
    map i | i in pool :: KeepOnly(pool[i], existing)
  }

  ghost predicate HeldOn(pool: Cores, name: string) {
    exists i :: i in pool && name in pool[i].pods
  }

  ghost predicate HeldOutside(was: Cluster, todo: set<string>, name: string) {
    exists n :: n in was && n !in todo && HeldOn(was[n], name)
  }

  lemma HeldNext(was: Cluster, todo: set<string>, n: string, name: string)
    requires n in todo && n in was
    ensures HeldOutside(was, todo - {n}, name) <==> HeldOutside(was, todo, name) || HeldOn(was[n], name)
  {
  }

  /** How far a cluster-wide removal has come: the pools in `todo` are still as they were. */
  ghost function DroppedOutside(was: Cluster, todo: set<string>, name: string): (now: Cluster)
    ensures todo == {} ==> now == DropEverywhere(was, name)
    ensures was.Keys <= todo ==> now == was
    ensures now.Keys == was.Keys
  {
    map n | n in was :: if n in todo then was[n] else DropInPool(was[n], name)
  }

  ghost function PurgedOutside(was: Cluster, todo: set<string>, existing: set<string>): (now: Cluster)
    ensures todo == {} ==> now == KeepOnlyEverywhere(was, existing)
    ensures was.Keys <= todo ==> now == was
    ensures now.Keys == was.Keys
  {
    map n | n in was :: if n in todo then was[n] else KeepInPool(was[n], existing)
  }

  lemma DropStep(was: Cluster, todo: set<string>, n: string, name: string)
    requires n in todo && n in was
    ensures DroppedOutside(was, todo, name)[n] == was[n]
    ensures DroppedOutside(was, todo - {n}, name)
         == DroppedOutside(was, todo, name)[n := DropInPool(DroppedOutside(was, todo, name)[n], name)]
  {
  }

  lemma PurgeStep(was: Cluster, todo: set<string>, n: string, existing: set<string>)
    requires n in todo && n in was
    ensures PurgedOutside(was, todo - {n}, existing)
         == PurgedOutside(was, todo, existing)[n := KeepInPool(PurgedOutside(was, todo, existing)[n], existing)]
  {
  }

  /** The process-wide registry of pools. */
  class Registry {
    var pools: map<string, Pool>
    ghost var Repr: set<CoreInfo>
    ghost var contents: Cluster

    /** The contents of all pools. */
    ghost function View(): Cluster
      reads this
    {
      contents
    }

    /** The pools are sound and share no record. */
    ghost predicate Sound()
      reads this, Repr
    {
      && (forall n | n in pools :: pools[n].Repr <= Repr && pools[n].Valid())
      && (forall n, m | n in pools && m in pools && n != m :: pools[n].Repr !! pools[m].Repr)
    }

    ghost predicate Valid()
      reads this, Repr
    {
      && Sound() && contents.Keys == pools.Keys
      && forall n | n in pools :: pools[n].View() == contents[n]
    }

    constructor ()
      ensures Valid() && View() == map[] && Repr == {}
    {
      pools, Repr, contents := map[], {}, map[];
    }

    /** After one pool has been changed through its own methods, `contents` follows. */
    ghost method Refresh(n: string)
      requires Sound() && n in pools && contents.Keys == pools.Keys
      requires forall m | m in pools && m != n :: pools[m].View() == contents[m]
      modifies this`contents
      ensures Valid() && View() == old(View())[n := pools[n].View()]
    {
      contents := contents[n := pools[n].View()];
    }

    method GetPoolForNode(nodeName: string) returns (pool: Pool?)
      ensures pool == null <==> nodeName !in pools
      ensures pool != null ==> pool == pools[nodeName]
    {
      pool := if nodeName in pools then pools[nodeName] else null;
    }

    method GetOrCreateCPUPool(nodeName: string, numCores: GoInt) returns (pool: Pool)
      requires Valid()
      modifies this
      ensures Valid() && nodeName in pools && pool == pools[nodeName]
      ensures fresh(Repr - old(Repr))
      ensures View() == WithPool(old(View()), nodeName, numCores)
    {
      if nodeName in pools {
        pool := pools[nodeName];
      } else {
        pool := new Pool(nodeName, numCores);
        Enrol(nodeName, pool);
      }
    }

    /** Adds a freshly made pool. */
    method Enrol(nodeName: string, pool: Pool)
      requires Valid() && nodeName !in pools && pool.Valid() && pool.Repr !! Repr
      modifies this
      ensures Valid() && pools == old(pools)[nodeName := pool] && Repr == old(Repr) + pool.Repr
      ensures View() == old(View())[nodeName := pool.View()]
    {
      pools, Repr, contents := pools[nodeName := pool], Repr + pool.Repr, contents[nodeName := pool.View()];
    }

    method DropOnNode(n: string, name: string) returns (removed: bool)
      requires Valid() && n in pools
      modifies this`contents, pools[n].Repr
      ensures Valid()
      ensures View() == old(View())[n := DropInPool(old(View())[n], name)]
      ensures removed <==> HeldOn(old(View())[n], name)
    {
      var pool := pools[n];
      assert forall m | m in pools && m != n :: pools[m].Repr !! pool.Repr;
      removed := pool.DropPod(name);
      Refresh(n);
    }

    method KeepOnNode(n: string, existing: set<string>)
      requires Valid() && n in pools
      modifies this`contents, pools[n].Repr
      ensures Valid()
      ensures View() == old(View())[n := KeepInPool(old(View())[n], existing)]
    {
      var pool := pools[n];
      assert forall m | m in pools && m != n :: pools[m].Repr !! pool.Repr;
      pool.KeepPods(existing);
      Refresh(n);
    }

    /** One round of the removal loop: some pool of `todo` is done. */
    method DropNext(ghost was: Cluster, todo: set<string>, name: string)
      returns (n: string, rest: set<string>, removed: bool)
      requires Valid() && todo != {} && todo <= pools.Keys
      requires View() == DroppedOutside(was, todo, name)
      modifies this`contents, Repr
      ensures Valid() && n in todo && rest == todo - {n} && |rest| < |todo| && rest <= pools.Keys
      ensures View() == DroppedOutside(was, rest, name)
      ensures n in was && (removed <==> HeldOn(was[n], name))
    {
      n, rest := TakeKey(todo);
      DropStep(was, todo, n, name);
      removed := DropOnNode(n, name);
    }

    method KeepNext(ghost was: Cluster, todo: set<string>, existing: set<string>) returns (rest: set<string>)
      requires Valid() && todo != {} && todo <= pools.Keys
      requires View() == PurgedOutside(was, todo, existing)
      modifies this`contents, Repr
      ensures Valid() && |rest| < |todo| && rest <= pools.Keys
      ensures View() == PurgedOutside(was, rest, existing)
    {
      var n;
      n, rest := TakeKey(todo);
      PurgeStep(was, todo, n, existing);
      KeepOnNode(n, existing);
    }

    method RemovePodFromPool(podName: string) returns (removed: bool)
      requires Valid()
      modifies this`contents, Repr
      ensures Valid()
      ensures View() == DropEverywhere(old(View()), podName)
      ensures removed <==> exists n :: n in old(View()) && HeldOn(old(View())[n], podName)
    {
      ghost var was := View();
      removed := false;
      var todo := pools.Keys;
      while todo != {}
        invariant Valid() && todo <= pools.Keys
        invariant View() == DroppedOutside(was, todo, podName)
        invariant removed <==> HeldOutside(was, todo, podName)
        decreases |todo|
      {
        var n, rest, r := DropNext(was, todo, podName);
        HeldNext(was, todo, n, podName);
        removed, todo := removed || r, rest;
      }
    }

    method RemovePodsNotIn(existing: set<string>)
      requires Valid()
      modifies this`contents, Repr
      ensures Valid()
      ensures View() == KeepOnlyEverywhere(old(View()), existing)
    {
      ghost var was := View();
      var todo := pools.Keys;
      while todo != {}
        invariant Valid() && todo <= pools.Keys
        invariant View() == PurgedOutside(was, todo, existing)
        decreases |todo|
      {
        todo := KeepNext(was, todo, existing);
      }
    }
  }
}
