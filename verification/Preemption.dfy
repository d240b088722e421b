/** What preemption may do to a node's pool, as sequences of actions on the abstract pool, and what every
    such sequence keeps. */
module Preemption {
  import opened GoTypes
  import opened Criticality
  import opened Ordering
  import opened Accounting
  import opened Victims
  import opened CpuPool
  import opened Scheduling

  /** The controller's own limit, in millicores; admission uses a higher one. */
  const CORE_UTILIZATION_THRESHOLD := 900

  /** What became of one victim on core `core`. `recorded` says whether the API server stored the new
      core in the victim's custom resource. */
  datatype Action =
    | GetFailed(victim: PodInfo, core: int)
    | Migrated(victim: PodInfo, core: int, to: int, recorded: bool)
    | Evicted(victim: PodInfo, core: int)

  function Perform(pool: Cores, a: Action): Cores {
    if a.Migrated? then Move(pool, a.core, a.to, a.victim) else pool
  }

  function Replay(pool: Cores, actions: seq<Action>): Cores {
    if actions == [] then pool
    else Perform(Replay(pool, actions[..|actions| - 1]), actions[|actions| - 1])
  }

  // ---------- Which actions are possible ----------

  /** A core other than the victim's that stays within the threshold with the victim on it. The source's
      search starts from a utilisation of 200 %, which excludes any core at or above it. */
  predicate Eligible(pool: Cores, current: int, millis: int, i: int) {
    i in pool && i != current && pool[i].usage + millis <= CORE_UTILIZATION_THRESHOLD && pool[i].usage < 2000
  }

  ghost predicate LeastLoadedTarget(pool: Cores, current: int, millis: int, to: int) {
    && Eligible(pool, current, millis, to)
    && forall i | Eligible(pool, current, millis, i) :: pool[to].usage <= pool[i].usage
  }

  predicate IsEntry(pool: Cores, core: int, p: PodInfo) {
    core in pool && p.name in pool[core].pods && pool[core].pods[p.name] == p
  }

  /** The victim really is on the core and ranks below the preemptor; it migrates to a least-loaded core
      that takes it, and is evicted only when there is none. */
  ghost predicate Legal(pool: Cores, rank: int, a: Action) {
    && IsEntry(pool, a.core, a.victim) && a.victim.PodRank() < rank
    && (a.Migrated? ==> LeastLoadedTarget(pool, a.core, a.victim.cpuMillis, a.to))
    && (a.Evicted? ==> forall i :: !Eligible(pool, a.core, a.victim.cpuMillis, i))
  }

  ghost predicate LegalRun(pool: Cores, rank: int, actions: seq<Action>) {
    actions == []
    || (var n := |actions| - 1;
        LegalRun(pool, rank, actions[..n]) && Legal(Replay(pool, actions[..n]), rank, actions[n]))
  }

  lemma RunExtends(pool: Cores, rank: int, actions: seq<Action>, a: Action)
    ensures Replay(pool, actions + [a]) == Perform(Replay(pool, actions), a)
    ensures LegalRun(pool, rank, actions + [a]) <==> LegalRun(pool, rank, actions) && Legal(Replay(pool, actions), rank, a)
  {
    assert (actions + [a])[..|actions|] == actions;
  }

  // ---------- Conservation and the bound ----------

  ghost function TotalUsage(pool: Cores): int
    decreases |pool|
  {
    if forall i :: i !in pool then 0
    else
      var i :| i in pool;
      pool[i].usage + TotalUsage(pool - {i})
  }

  lemma {:induction false} TotalUsageSplit(pool: Cores, i: int)
    requires i in pool
    ensures TotalUsage(pool) == pool[i].usage + TotalUsage(pool - {i})
    decreases |pool|
  {
    var j :| j in pool && TotalUsage(pool) == pool[j].usage + TotalUsage(pool - {j});
    if j != i {
      TotalUsageSplit(pool - {j}, i);
      TotalUsageSplit(pool - {i}, j);
      assert pool - {i} - {j} == pool - {j} - {i};
    }
  }

  lemma TotalUsageUpdate(pool: Cores, i: int, c: Core)
    requires i in pool
    ensures TotalUsage(pool[i := c]) == TotalUsage(pool) - pool[i].usage + c.usage
  {
    TotalUsageSplit(pool, i);
    TotalUsageSplit(pool[i := c], i);
    assert pool[i := c] - {i} == pool - {i};
  }

  lemma LegalStepConserves(pool: Cores, rank: int, a: Action)
    requires Legal(pool, rank, a)
    ensures Perform(pool, a).Keys == pool.Keys
    ensures TotalUsage(Perform(pool, a)) == TotalUsage(pool)
  {
    if a.Migrated? {
      var dropped := DropAt(pool, a.core, a.victim.name);
      TotalUsageUpdate(pool, a.core, dropped[a.core]);
      TotalUsageUpdate(dropped, a.to, Add(dropped[a.to], a.victim));
    }
  }

  /** Whatever is migrated, evicted or fails, the usage summed over the node's cores is unchanged. */
  lemma {:induction false} PreemptionConservesUsage(pool: Cores, rank: int, actions: seq<Action>)
    requires LegalRun(pool, rank, actions)
    ensures Replay(pool, actions).Keys == pool.Keys
    ensures TotalUsage(Replay(pool, actions)) == TotalUsage(pool)
    decreases |actions|
  {
    if actions != [] {
      var n := |actions| - 1;
      PreemptionConservesUsage(pool, rank, actions[..n]);
      LegalStepConserves(Replay(pool, actions[..n]), rank, actions[n]);
    }
  }

  function Max(a: int, b: int): int {
    if a >= b then a else b
  }

  ghost predicate NonNegativePool(pool: Cores) {
    forall i | i in pool :: NonNegativeCore(pool[i])
  }

  /** With non-negative budgets, no core ends above both its usage before and the threshold. */
  lemma {:induction false} PreemptionBoundsUsage(pool: Cores, rank: int, actions: seq<Action>)
    requires LegalRun(pool, rank, actions) && NonNegativePool(pool)
    ensures Replay(pool, actions).Keys == pool.Keys && NonNegativePool(Replay(pool, actions))
    ensures forall i | i in pool ::
      Replay(pool, actions)[i].usage <= Max(pool[i].usage, CORE_UTILIZATION_THRESHOLD)
    decreases |actions|
  {
    if actions != [] {
      var n := |actions| - 1;
      PreemptionBoundsUsage(pool, rank, actions[..n]);
      var before, a := Replay(pool, actions[..n]), actions[n];
      assert NonNegativeCore(before[a.core]);
      assert a.victim.cpuMillis >= 0;
    }
  }

  // ---------- The rounds of one preemption check ----------

  function VictimsOf(actions: seq<Action>): (victims: seq<PodInfo>)
    ensures |victims| == |actions|
    ensures forall i | 0 <= i < |actions| :: victims[i] == actions[i].victim
  {
    seq(|actions|, i requires 0 <= i < |actions| => actions[i].victim)
  }

  function UsageAt(pool: Cores, core: int): int {
    if core in pool then pool[core].usage else 0
  }

  /** How far the core would exceed the threshold with the newcomer on it. */
  function Excess(pool: Cores, core: int, millis: int): int {
    UsageAt(pool, core) + millis - CORE_UTILIZATION_THRESHOLD
  }

  /** What the check may do for one target core: nothing if the newcomer fits under the threshold, and
      otherwise one action for each pod of a greedy selection among the lower-ranked pods there. */
  ghost predicate Round(pool: Cores, core: int, millis: int, criticality: string, actions: seq<Action>) {
    if Excess(pool, core, millis) <= 0 then actions == []
    else
      && IsGreedy(multiset(LowerPods(PodsAt(pool, core), criticality).Values),
                  Excess(pool, core, millis) as real, VictimsOf(actions))
      && (forall a | a in actions :: a.core == core)
      && LegalRun(pool, Rank(criticality), actions)
  }

  /** The pool after some rounds. */
  function After(pool: Cores, rounds: seq<seq<Action>>): Cores {
    if rounds == [] then pool
    else Replay(After(pool, rounds[..|rounds| - 1]), rounds[|rounds| - 1])
  }

  /** One round per target core, each seeing the pool its predecessors left. */
  ghost predicate Rounds(pool: Cores, cores: seq<int>, millis: int, criticality: string, rounds: seq<seq<Action>>) {
    && |rounds| == |cores|
    && forall i | 0 <= i < |cores| :: Round(After(pool, rounds[..i]), cores[i], millis, criticality, rounds[i])
  }

  /** The whole check, for any list of target cores and whatever the API calls do: the pool's total usage
      is conserved, and with non-negative budgets no core rises above the threshold. */
  lemma {:induction false} RoundsConserveAndBound(pool: Cores, cores: seq<int>, millis: int, criticality: string,
                                                  rounds: seq<seq<Action>>)
    requires Rounds(pool, cores, millis, criticality, rounds)
    ensures After(pool, rounds).Keys == pool.Keys
    ensures TotalUsage(After(pool, rounds)) == TotalUsage(pool)
    ensures NonNegativePool(pool) ==>
      && NonNegativePool(After(pool, rounds))
      && forall i | i in pool :: After(pool, rounds)[i].usage <= Max(pool[i].usage, CORE_UTILIZATION_THRESHOLD)
    decreases |rounds|
  {
    if rounds != [] {
      var n := |rounds| - 1;
      RoundsPrefix(pool, cores, millis, criticality, rounds, n);
      RoundsConserveAndBound(pool, cores[..n], millis, criticality, rounds[..n]);
      var before := After(pool, rounds[..n]);
      assert Round(before, cores[n], millis, criticality, rounds[n]);
      PreemptionConservesUsage(before, Rank(criticality), rounds[n]);
      if NonNegativePool(pool) {
        PreemptionBoundsUsage(before, Rank(criticality), rounds[n]);
      }
    }
  }

  lemma RoundsPrefix(pool: Cores, cores: seq<int>, millis: int, criticality: string, rounds: seq<seq<Action>>, n: nat)
    requires Rounds(pool, cores, millis, criticality, rounds) && n <= |rounds|
    ensures Rounds(pool, cores[..n], millis, criticality, rounds[..n])
  {
    forall i | 0 <= i < n
      ensures Round(After(pool, rounds[..n][..i]), cores[..n][i], millis, criticality, rounds[..n][i])
    {
      assert rounds[..n][..i] == rounds[..i];
    }
  }

  lemma RoundsExtend(pool: Cores, cores: seq<int>, millis: int, criticality: string, rounds: seq<seq<Action>>,
                     core: int, actions: seq<Action>)
    requires Rounds(pool, cores, millis, criticality, rounds)
    requires Round(After(pool, rounds), core, millis, criticality, actions)
    ensures Rounds(pool, cores + [core], millis, criticality, rounds + [actions])
    ensures After(pool, rounds + [actions]) == Replay(After(pool, rounds), actions)
  {
    var more := rounds + [actions];
    assert more[..|rounds|] == rounds;
    forall i | 0 <= i <= |cores|
      ensures Round(After(pool, more[..i]), (cores + [core])[i], millis, criticality, more[i])
    {
      if i < |cores| {
        assert more[..i] == rounds[..i];
      }
    }
  }

  // ---------- When a check preempts, whom, and what becomes of them ----------

  /** The check of a core preempts nobody exactly when the newcomer stays within 900 there, or no pod on it
      ranks lower. */
  lemma PreemptsNobodyIff(pool: Cores, core: int, millis: int, criticality: string, actions: seq<Action>)
    requires Round(pool, core, millis, criticality, actions)
    ensures actions == [] <==>
      || (if core in pool then pool[core].usage else 0) + millis <= 900
      || forall name | name in PodsAt(pool, core) :: Rank(PodsAt(pool, core)[name].criticality) >= Rank(criticality)
  {
    if Excess(pool, core, millis) > 0 {
      var lower := LowerPods(PodsAt(pool, core), criticality);
      var s :| GreedyVia(s, multiset(lower.Values), Excess(pool, core, millis) as real, VictimsOf(actions));
      if s == [] {
        NothingListed(lower);
        assert forall name | name in PodsAt(pool, core) :: name !in lower;
      } else {
        assert s[0] in multiset(s);
        assert s[0] in lower.Values;
      }
    }
  }

  lemma NothingListed(pods: map<string, PodInfo>)
    requires multiset(pods.Values) == multiset{}
    ensures pods == map[]
  {
    assert forall name | name in pods :: pods[name] in multiset(pods.Values);
  }

  /** Above 900, the victims are pods of the core that rank lower; if those hold the excess, the victims
      do, and no proper prefix of them, and otherwise all of them are victims. `lower` lists them in any
      order. */
  lemma RoundTakesWhatIsNeeded(pool: Cores, core: int, millis: int, criticality: string, actions: seq<Action>,
                               lower: seq<PodInfo>)
    requires Round(pool, core, millis, criticality, actions)
    requires NonNegative(lower)
    requires multiset(lower) == multiset((map name | name in PodsAt(pool, core)
      && Rank(PodsAt(pool, core)[name].criticality) < Rank(criticality) :: PodsAt(pool, core)[name]).Values)
    requires core in pool && pool[core].usage + millis > 900
    ensures
      var excess := pool[core].usage + millis - 900;
      && multiset(VictimsOf(actions)) <= multiset(lower)
      && (Budget(lower) >= excess ==>
            && Budget(VictimsOf(actions)) >= excess
            && forall k | 0 <= k < |actions| :: Budget(VictimsOf(actions)[..k]) < excess)
      && (Budget(lower) < excess ==> multiset(VictimsOf(actions)) == multiset(lower))
  {
    assert LowerPods(PodsAt(pool, core), criticality) == map name | name in PodsAt(pool, core)
      && Rank(PodsAt(pool, core)[name].criticality) < Rank(criticality) :: PodsAt(pool, core)[name];
    SelectionTakesWhatIsNeeded(lower, pool[core].usage + millis - 900, VictimsOf(actions));
  }

  lemma SelectionTakesWhatIsNeeded(lower: seq<PodInfo>, excess: int, chosen: seq<PodInfo>)
    requires excess > 0 && NonNegative(lower) && IsGreedy(multiset(lower), excess as real, chosen)
    ensures multiset(chosen) <= multiset(lower)
    ensures Budget(lower) >= excess ==>
      Budget(chosen) >= excess && forall k | 0 <= k < |chosen| :: Budget(chosen[..k]) < excess
    ensures Budget(lower) < excess ==> multiset(chosen) == multiset(lower)
  {
    if Budget(lower) >= excess {
      GreedyCovers(lower, excess as real, chosen);
    } else {
      GreedyTakesAllWhenShort(lower, excess as real, chosen);
    }
  }

  /** A victim that could be fetched is migrated exactly when it fits under 900 on some other core, then to a
      least used of those, and is evicted otherwise. */
  lemma VictimFate(pool: Cores, rank: int, a: Action)
    requires Legal(pool, rank, a) && !a.GetFailed? && a.victim.cpuMillis >= 0
    ensures a.Migrated? <==> exists i :: i in pool && i != a.core && pool[i].usage + a.victim.cpuMillis <= 900
    ensures a.Migrated? ==>
      && a.to in pool && a.to != a.core && pool[a.to].usage + a.victim.cpuMillis <= 900
      && forall i | i in pool && i != a.core && pool[i].usage + a.victim.cpuMillis <= 900 ::
           pool[a.to].usage <= pool[i].usage
  {
    assert forall i | i in pool && i != a.core && pool[i].usage + a.victim.cpuMillis <= 900 ::
      Eligible(pool, a.core, a.victim.cpuMillis, i);
  }

  // ---------- What happens on the preempted core itself ----------

  function VictimNames(actions: seq<Action>): set<string> {
    set a | a in actions :: a.victim.name
  }

  /** On the victims' own core migrations only take away: exactly the victims' entries and budgets. */
  lemma {:induction false} MigrationsClearCore(pool: Cores, rank: int, core: int, actions: seq<Action>)
    requires LegalRun(pool, rank, actions) && core in pool
    requires forall a | a in actions :: a.core == core && a.Migrated?
    ensures Replay(pool, actions).Keys == pool.Keys
    ensures Replay(pool, actions)[core].usage == pool[core].usage - Budget(VictimsOf(actions))
    ensures Replay(pool, actions)[core].pods == pool[core].pods - VictimNames(actions)
    decreases |actions|
  {
    if actions == [] {
      assert VictimNames(actions) == {};
    } else {
      var n := |actions| - 1;
      var a := actions[n];
      assert a in actions;
      MigrationsClearCore(pool, rank, core, actions[..n]);
      BudgetConcat(VictimsOf(actions[..n]), [a.victim]);
      assert VictimsOf(actions) == VictimsOf(actions[..n]) + [a.victim];
      assert Budget([a.victim]) == a.victim.cpuMillis;
      assert VictimNames(actions) == VictimNames(actions[..n]) + {a.victim.name};
    }
  }

  /** A migrated victim stays where it was put while other victims leave the same core, and its new core
      stays within the threshold. */
  lemma {:induction false} MigratedStays(pool: Cores, rank: int, core: int, actions: seq<Action>, k: nat)
    requires LegalRun(pool, rank, actions) && k < |actions|
    requires forall a | a in actions :: a.core == core && a.Migrated?
    requires forall i, j | 0 <= i < j < |actions| :: actions[i].victim.name != actions[j].victim.name
    ensures IsEntry(Replay(pool, actions), actions[k].to, actions[k].victim)
    ensures Replay(pool, actions)[actions[k].to].usage <= CORE_UTILIZATION_THRESHOLD
    ensures actions[k].to != core
    decreases |actions|
  {
    var n := |actions| - 1;
    assert actions[k] in actions && actions[n] in actions;
    if k < n {
      assert actions[..n][k] == actions[k];
      MigratedStays(pool, rank, core, actions[..n], k);
    }
  }

  /** Each victim of a run went to a core that was then, of those that would take it, a least loaded one. */
  lemma {:induction false} MigratedToLeastLoaded(pool: Cores, rank: int, actions: seq<Action>, k: nat)
    requires LegalRun(pool, rank, actions) && k < |actions| && actions[k].Migrated?
    ensures LeastLoadedTarget(Replay(pool, actions[..k]), actions[k].core, actions[k].victim.cpuMillis, actions[k].to)
    decreases |actions|
  {
    var n := |actions| - 1;
    if k < n {
      assert actions[..n][..k] == actions[..k];
      MigratedToLeastLoaded(pool, rank, actions[..n], k);
    }
  }

  /** What a core holds for a name. */
  function EntryAt(pool: Cores, core: int, name: string): Option<PodInfo> {
    if core in pool && name in pool[core].pods then Some(pool[core].pods[name]) else None
  }

  /** Names that are not among the victims keep their entries, on every core. */
  lemma {:induction false} UntouchedEntry(pool: Cores, actions: seq<Action>, core: int, name: string)
    requires name !in VictimNames(actions)
    ensures EntryAt(Replay(pool, actions), core, name) == EntryAt(pool, core, name)
    decreases |actions|
  {
    if actions != [] {
      var n := |actions| - 1;
      assert actions[n] in actions;
      assert VictimNames(actions[..n]) <= VictimNames(actions);
      UntouchedEntry(pool, actions[..n], core, name);
    }
  }

  /** Victims of one greedy selection on a core have different names. */
  lemma GreedyVictimsDiffer(pods: map<string, PodInfo>, criticality: string, needed: real, chosen: seq<PodInfo>)
    requires WellKeyed(pods)
    requires IsGreedy(multiset(LowerPods(pods, criticality).Values), needed, chosen)
    ensures forall i, j | 0 <= i < j < |chosen| :: chosen[i].name != chosen[j].name
    ensures forall p | p in chosen :: p.name in pods && pods[p.name] == p && p.PodRank() < Rank(criticality)
  {
    var lower := LowerPods(pods, criticality).Values;
    var s :| GreedyVia(s, multiset(lower), needed, chosen);
    forall p | p in chosen
      ensures p in lower
    {
      assert p in multiset(s);
    }
    forall i, j | 0 <= i < j < |chosen|
      ensures chosen[i].name != chosen[j].name
    {
      assert chosen[i] in chosen && chosen[j] in chosen;
      TwiceInSequence(s, i, j);
      assert multiset(lower)[s[i]] <= 1;
    }
  }

  /** The victims of `core` in the pool afterwards: each was moved to a core that was a least loaded one at
      that moment, is there, and left it within the threshold. */
  ghost predicate Rehoused(before: Cores, after: Cores, core: int, rank: int, actions: seq<Action>) {
    forall k | 0 <= k < |actions| ::
      var a := actions[k];
      && a.Migrated? && a.victim.PodRank() < rank
      && LeastLoadedTarget(Replay(before, actions[..k]), core, a.victim.cpuMillis, a.to)
      && IsEntry(after, a.to, a.victim) && after[a.to].usage <= CORE_UTILIZATION_THRESHOLD
  }

  /** All names but these have the same entries, on every core. */
  ghost predicate SameExcept(before: Cores, after: Cores, names: set<string>) {
    forall i, name | name !in names :: EntryAt(after, i, name) == EntryAt(before, i, name)
  }

  /** What making room promises: the pod is on its core at no more than 900, exactly the victims are gone
      from there and rehoused, and on the other cores all other entries are as they were. */
  ghost predicate RoomMade(before: Cores, after: Cores, core: int, pod: PodInfo, actions: seq<Action>) {
    && IsEntry(after, core, pod) && after[core].usage <= CORE_UTILIZATION_THRESHOLD
    && core in before && after[core].pods - {pod.name} == before[core].pods - VictimNames(actions)
    && Rehoused(before, after, core, Rank(pod.criticality), actions)
    && forall i, name | i != core && name !in VictimNames(actions) ::
         EntryAt(after, i, name) == EntryAt(before, i, name)
  }

  /** Single-target preemption makes room: if the pod is not on the core yet, the lower-ranked budget there
      covers the excess, and every chosen victim found a core, then the check and the registration make
      room. */
  lemma PreemptionMakesRoom(pool: Cores, core: int, pod: PodInfo, actions: seq<Action>)
    requires core in pool && WellKeyed(pool[core].pods) && pod.name !in pool[core].pods
    requires LowerBudget(pool[core], pod.criticality) >= Excess(pool, core, pod.cpuMillis)
    requires Round(pool, core, pod.cpuMillis, pod.criticality, actions)
    requires forall a | a in actions :: a.Migrated?
    ensures RoomMade(pool, RegisterOn(Replay(pool, actions), [core], pod), core, pod, actions)
  {
    var mid := Replay(pool, actions);
    RoundClearsCore(pool, core, pod.cpuMillis, pod.criticality, actions);
    assert DropAt(mid, core, pod.name) == mid;
    assert RegisterOn(mid, [core], pod) == AddAt(mid, core, pod) by {
      assert [core][1..] == [];
    }
    RegistrationCompletes(pool, mid, core, pod, actions);
  }

  lemma RegistrationCompletes(pool: Cores, mid: Cores, core: int, pod: PodInfo, actions: seq<Action>)
    requires core in pool && core in mid && pod.name !in pool[core].pods
    requires mid[core].usage + pod.cpuMillis <= CORE_UTILIZATION_THRESHOLD
    requires mid[core].pods == pool[core].pods - VictimNames(actions)
    requires Rehoused(pool, mid, core, Rank(pod.criticality), actions)
    requires SameExcept(pool, mid, VictimNames(actions))
    ensures RoomMade(pool, AddAt(mid, core, pod), core, pod, actions)
  {
    var after := AddAt(mid, core, pod);
    assert after[core].pods - {pod.name} == mid[core].pods;
    assert forall i, name | i != core :: EntryAt(after, i, name) == EntryAt(mid, i, name);
  }

  /** The part of it before the registration. */
  lemma RoundClearsCore(pool: Cores, core: int, millis: int, criticality: string, actions: seq<Action>)
    requires core in pool && WellKeyed(pool[core].pods)
    requires LowerBudget(pool[core], criticality) >= Excess(pool, core, millis)
    requires Round(pool, core, millis, criticality, actions)
    requires forall a | a in actions :: a.Migrated?
    ensures Replay(pool, actions).Keys == pool.Keys
    ensures Replay(pool, actions)[core].usage + millis <= CORE_UTILIZATION_THRESHOLD
    ensures Replay(pool, actions)[core].pods == pool[core].pods - VictimNames(actions)
    ensures Rehoused(pool, Replay(pool, actions), core, Rank(criticality), actions)
    ensures SameExcept(pool, Replay(pool, actions), VictimNames(actions))
  {
    var rank := Rank(criticality);
    forall i, name | name !in VictimNames(actions)
      ensures EntryAt(Replay(pool, actions), i, name) == EntryAt(pool, i, name)
    {
      UntouchedEntry(pool, actions, i, name);
    }
    if actions == [] && Excess(pool, core, millis) <= 0 {
      assert VictimNames(actions) == {};
    } else {
      MigrationsClearCore(pool, rank, core, actions);
      GreedyVictimsDiffer(pool[core].pods, criticality, Excess(pool, core, millis) as real, VictimsOf(actions));
      SelectionCoversExcess(pool[core], criticality, Excess(pool, core, millis), VictimsOf(actions));
      VictimsStay(pool, rank, core, actions);
    }
  }

  lemma VictimsStay(pool: Cores, rank: int, core: int, actions: seq<Action>)
    requires LegalRun(pool, rank, actions)
    requires forall a | a in actions :: a.core == core && a.Migrated?
    requires forall i, j | 0 <= i < j < |actions| :: VictimsOf(actions)[i].name != VictimsOf(actions)[j].name
    requires forall p | p in VictimsOf(actions) :: p.PodRank() < rank
    ensures Rehoused(pool, Replay(pool, actions), core, rank, actions)
  {
    forall i, j | 0 <= i < j < |actions|
      ensures actions[i].victim.name != actions[j].victim.name
    {
      assert VictimsOf(actions)[i].name != VictimsOf(actions)[j].name;
    }
    forall k | 0 <= k < |actions|
      ensures
        var a := actions[k];
        && a.Migrated? && a.victim.PodRank() < rank
        && LeastLoadedTarget(Replay(pool, actions[..k]), core, a.victim.cpuMillis, a.to)
        && IsEntry(Replay(pool, actions), a.to, a.victim)
        && Replay(pool, actions)[a.to].usage <= CORE_UTILIZATION_THRESHOLD
    {
      assert actions[k] in actions && VictimsOf(actions)[k] in VictimsOf(actions);
      MigratedStays(pool, rank, core, actions, k);
      MigratedToLeastLoaded(pool, rank, actions, k);
    }
  }

  lemma SelectionCoversExcess(core: Core, criticality: string, excess: int, chosen: seq<PodInfo>)
    requires WellKeyed(core.pods) && 0 < excess <= LowerBudget(core, criticality)
    requires IsGreedy(multiset(LowerPods(core.pods, criticality).Values), excess as real, chosen)
    ensures Budget(chosen) >= excess
  {
    var lower := LowerPods(core.pods, criticality);
    var s :| GreedyVia(s, multiset(lower.Values), excess as real, chosen);
    BudgetOfEntries(s, lower);
    GreedyCovers(s, excess as real, chosen);
  }
}
