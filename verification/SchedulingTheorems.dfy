/** What follows from the contracts of the search and of the check, over all pool contents. */
module SchedulingTheorems {
  import opened Criticality
  import opened Accounting
  import opened Victims
  import opened VictimTheorems
  import opened CpuPool
  import opened Scheduling

  ghost predicate AllWellKeyed(cluster: Cluster) {
    forall n, i | HasCore(cluster, n, i) :: WellKeyed(cluster[n][i].pods)
  }

  ghost predicate Room(core: Core, required: real, criticality: string) {
    (Free(core) + LowerBudget(core, criticality)) as real >= required
  }

  lemma LowerBudgetNonNegative(core: Core, criticality: string)
    requires NonNegativeCore(core)
    ensures LowerBudget(core, criticality) >= 0
  {
    PodSumNonNegative(LowerPods(core.pods, criticality));
  }

  /** Completeness and soundness of the verdict: with non-negative budgets the search succeeds just when
      on some considered core the free budget and the strictly lower-ranked budget cover the need. */
  lemma SearchSucceedsIff(cluster: Cluster, nodes: seq<Node>, required: real, criticality: string,
                          preferred: seq<int>, r: FeasibilityResult)
    requires SearchOutcome(cluster, nodes, required, criticality, preferred, r)
    requires AllNonNegative(cluster)
    ensures r.feasible <==> exists n, c :: Considered(cluster, nodes, preferred, n, c)
                                           && Room(CoreAt(cluster, n, c), required, criticality)
  {
    forall n, c | Considered(cluster, nodes, preferred, n, c)
      ensures Admits(CoreAt(cluster, n, c), required, criticality)
         <==> Room(CoreAt(cluster, n, c), required, criticality)
    {
      LowerBudgetNonNegative(CoreAt(cluster, n, c), criticality);
    }
  }

  /** The pods a core gives up for a newcomer lie on that core, rank strictly below the newcomer, are
      enough together with the free budget, and none of their proper prefixes is. */
  lemma VictimsAreLowerAndSuffice(core: Core, required: real, criticality: string, names: seq<string>)
    returns (chosen: seq<PodInfo>)
    requires WellKeyed(core.pods)
    requires MakesRoom(core, required, criticality, names)
    requires Admits(core, required, criticality) && !Fits(core, required)
    ensures names == Names(chosen) && chosen != []
    ensures forall p | p in chosen :: p.name in core.pods && core.pods[p.name] == p
                                      && p.PodRank() < Rank(criticality)
    ensures (Free(core) + Budget(chosen)) as real >= required
    ensures forall k | 0 <= k < |chosen| :: ((Free(core) + Budget(chosen[..k])) as real) < required
  {
    var lower := LowerPods(core.pods, criticality);
    var needed := required - Free(core) as real;
    chosen :| ChosenFor(core, required, criticality, chosen) && names == Names(chosen);
    var s :| GreedyVia(s, multiset(lower.Values), needed, chosen);
    BudgetOfEntries(s, lower);
    GreedyCovers(s, needed, chosen);
    forall p | p in chosen
      ensures p.name in core.pods && core.pods[p.name] == p && p.PodRank() < Rank(criticality)
    {
      assert p in multiset(chosen) && p in multiset(s);
      assert p in lower.Values;
    }
  }

  /** Which pairs the search looks at: with preferred cores just those that the node has by its count,
      otherwise the cores of the node's pool, or all by its count if it has no pool. */
  lemma ConsideredIff(cluster: Cluster, node: Node, preferred: seq<int>, c: int)
    ensures Considered(cluster, [node], preferred, node.name, c) <==>
      if preferred != [] then c in preferred && 0 <= c < NumCores(node)
      else if node.name in cluster then c in cluster[node.name]
      else 0 <= c < NumCores(node)
  {
    assert Considered(cluster, [node], preferred, node.name, c) <==> Considers(cluster, node, preferred, c) by {
      assert node in [node];
    }
  }

  /** Whom the search picks, in terms of usage alone. If the pod fits on some considered core, the winner is
      a least used one of all considered cores and nobody is evicted. Otherwise no considered core that can
      make room, by whatever greedy selection, needs fewer victims than the winner, and none that needs as
      many is less used. */
  lemma WinnerIsBest(cluster: Cluster, nodes: seq<Node>, required: real, criticality: string,
                     preferred: seq<int>, r: FeasibilityResult)
    requires SearchOutcome(cluster, nodes, required, criticality, preferred, r) && r.feasible
    ensures Considered(cluster, nodes, preferred, r.nodeName, r.coreID)
    ensures (exists n, c :: Considered(cluster, nodes, preferred, n, c)
                            && (950 - CoreAt(cluster, n, c).usage) as real >= required) ==>
      && r.victims == []
      && forall n, c | Considered(cluster, nodes, preferred, n, c) ::
           CoreAt(cluster, r.nodeName, r.coreID).usage <= CoreAt(cluster, n, c).usage
    ensures (forall n, c | Considered(cluster, nodes, preferred, n, c) ::
               ((950 - CoreAt(cluster, n, c).usage) as real) < required) ==>
      && MakesRoom(CoreAt(cluster, r.nodeName, r.coreID), required, criticality, r.victims)
      && forall n, c, names | Considered(cluster, nodes, preferred, n, c)
                              && Admits(CoreAt(cluster, n, c), required, criticality)
                              && MakesRoom(CoreAt(cluster, n, c), required, criticality, names) ::
           && |r.victims| <= |names|
           && (|r.victims| == |names| ==>
                 CoreAt(cluster, r.nodeName, r.coreID).usage <= CoreAt(cluster, n, c).usage)
  {
    var core := CoreAt(cluster, r.nodeName, r.coreID);
    if Fits(core, required) {
      assert DirectWin(cluster, nodes, required, preferred, r);
    } else {
      assert EvictionWin(cluster, nodes, required, criticality, preferred, r);
    }
  }

  /** The budget that the named pods hold on a core. */
  function FreedBy(core: Core, names: seq<string>): int {
    if names == [] then 0
    else (if names[0] in core.pods then core.pods[names[0]].cpuMillis else 0) + FreedBy(core, names[1..])
  }

  lemma {:induction false} FreedByNames(core: Core, chosen: seq<PodInfo>)
    requires forall p | p in chosen :: p.name in core.pods && core.pods[p.name] == p
    ensures FreedBy(core, Names(chosen)) == Budget(chosen)
  {
    if chosen != [] {
      assert chosen[0] in chosen;
      assert Names(chosen)[1..] == Names(chosen[1..]);
      FreedByNames(core, chosen[1..]);
    }
  }

  lemma ChosenAreEntries(core: Core, required: real, criticality: string, chosen: seq<PodInfo>)
    requires WellKeyed(core.pods) && ChosenFor(core, required, criticality, chosen)
    ensures FreedBy(core, Names(chosen)) == Budget(chosen)
  {
    var lower := LowerPods(core.pods, criticality);
    var s :| GreedyVia(s, multiset(lower.Values), required - Free(core) as real, chosen);
    forall p | p in chosen
      ensures p.name in core.pods && core.pods[p.name] == p
    {
      assert p in s;
      assert p in multiset(s);
      assert p in lower.Values;
    }
    FreedByNames(core, chosen);
  }

  /** Two answers for the same core name equally many victims, freeing the same budget. */
  lemma RoomFreesTheSame(core: Core, required: real, criticality: string, x: seq<string>, y: seq<string>)
    requires WellKeyed(core.pods)
    requires MakesRoom(core, required, criticality, x) && MakesRoom(core, required, criticality, y)
    ensures |x| == |y| && FreedBy(core, x) == FreedBy(core, y)
  {
    var a :| ChosenFor(core, required, criticality, a) && x == Names(a);
    var b :| ChosenFor(core, required, criticality, b) && y == Names(b);
    ChosenFreeTheSame(core, required, criticality, a, b);
  }

  lemma ChosenFreeTheSame(core: Core, required: real, criticality: string, a: seq<PodInfo>, b: seq<PodInfo>)
    requires WellKeyed(core.pods)
    requires ChosenFor(core, required, criticality, a) && ChosenFor(core, required, criticality, b)
    ensures |a| == |b| && FreedBy(core, Names(a)) == FreedBy(core, Names(b))
  {
    GreedyIsDeterminedByContents(multiset(LowerPods(core.pods, criticality).Values),
                                 required - Free(core) as real, a, b);
    ChosenAreEntries(core, required, criticality, a);
    ChosenAreEntries(core, required, criticality, b);
  }

  /** The search depends on the contents only: any two runs over the same pools, with the nodes and
      preferred cores listed in any order, any map order and any tie-breaking of the sorts, agree on the
      verdict, on the number of victims and on the winner's free budget. */
  lemma SearchDependsOnContents(cluster: Cluster, nodes: seq<Node>, nodes': seq<Node>, required: real,
                                criticality: string, preferred: seq<int>, preferred': seq<int>,
                                r: FeasibilityResult, r': FeasibilityResult)
    requires SearchOutcome(cluster, nodes, required, criticality, preferred, r)
    requires SearchOutcome(cluster, nodes', required, criticality, preferred', r')
    requires forall node :: node in nodes <==> node in nodes'
    requires |preferred| == |preferred'| && forall c :: c in preferred <==> c in preferred'
    ensures r.feasible == r'.feasible
    ensures r.feasible ==> |r.victims| == |r'.victims|
    ensures r.feasible ==> Free(CoreAt(cluster, r.nodeName, r.coreID)) == Free(CoreAt(cluster, r'.nodeName, r'.coreID))
  {
    forall n, c
      ensures Considered(cluster, nodes, preferred, n, c) <==> Considered(cluster, nodes', preferred', n, c)
    {
    }
    if r.feasible {
      assert r'.feasible;
      assert Considered(cluster, nodes, preferred, r'.nodeName, r'.coreID);
      assert Considered(cluster, nodes', preferred', r.nodeName, r.coreID);
      if !Fits(CoreAt(cluster, r.nodeName, r.coreID), required) {
        assert EvictionWin(cluster, nodes, required, criticality, preferred, r);
        assert EvictionWin(cluster, nodes', required, criticality, preferred', r');
      }
    }
  }

  // ---------- The two deciders ----------

  /** Whatever the search picks, the check of that pair accepts, at the same price. */
  lemma CheckConfirmsSearch(cluster: Cluster, nodes: seq<Node>, required: real, criticality: string,
                            preferred: seq<int>, r: FeasibilityResult, feasible: bool, victims: seq<string>)
    requires AllWellKeyed(cluster)
    requires SearchOutcome(cluster, nodes, required, criticality, preferred, r) && r.feasible
    requires CheckOutcome(cluster, r.nodeName, r.coreID, required, criticality, feasible, victims)
    ensures feasible && |victims| == |r.victims|
    ensures
      var core := CoreAt(cluster, r.nodeName, r.coreID);
      FreedBy(core, victims) == FreedBy(core, r.victims)
  {
    var core := CoreAt(cluster, r.nodeName, r.coreID);
    assert LowerPods(EMPTY_CORE.pods, criticality) == map[];
    if !Fits(core, required) {
      assert MakesRoom(core, required, criticality, r.victims);
      RoomFreesTheSame(core, required, criticality, victims, r.victims);
    }
  }

  /** Conversely, a pair the check accepts makes the unrestricted search succeed, with two exceptions: the
      node's pool lacks the core, or the node has no pool and the need exceeds a whole core. */
  lemma SearchConfirmsCheck(cluster: Cluster, nodes: seq<Node>, required: real, criticality: string,
                            node: Node, c: int, victims: seq<string>, r: FeasibilityResult)
    requires node in nodes
    requires CheckOutcome(cluster, node.name, c, required, criticality, true, victims)
    requires SearchOutcome(cluster, nodes, required, criticality, [], r)
    ensures !r.feasible ==>
      if node.name in cluster then c !in cluster[node.name] else required > RT_CAPACITY_PER_CORE as real
  {
    if node.name in cluster {
      if c in cluster[node.name] {
        assert Considers(cluster, node, [], c);
        assert Considered(cluster, nodes, [], node.name, c);
      }
    } else if required <= RT_CAPACITY_PER_CORE as real {
      assert Considers(cluster, node, [], 0);
      assert Considered(cluster, nodes, [], node.name, 0);
      assert Fits(CoreAt(cluster, node.name, 0), required);
    }
  }

  /** For one node, exactly when the check accepts a pair and the search finds none: the node has no pool
      and the need exceeds a whole core, or the pool lacks the core, which the check takes for an empty
      one, and none of the cores that exist admits the pod. */
  lemma DecidersDifferIff(cluster: Cluster, node: Node, required: real, criticality: string,
                          c: int, feasible: bool, victims: seq<string>, r: FeasibilityResult)
    requires CheckOutcome(cluster, node.name, c, required, criticality, feasible, victims)
    requires SearchOutcome(cluster, [node], required, criticality, [], r)
    ensures feasible && !r.feasible <==>
      if node.name !in cluster then required > RT_CAPACITY_PER_CORE as real
      else
        && c !in cluster[node.name] && required <= RT_CAPACITY_PER_CORE as real
        && forall i | i in cluster[node.name] :: !Admits(cluster[node.name][i], required, criticality)
  {
    if node.name in cluster {
      forall n, i
        ensures Considered(cluster, [node], [], n, i) <==> n == node.name && i in cluster[n]
      {
        assert i in cluster[node.name] ==> Considers(cluster, node, [], i);
      }
      assert LowerPods(EMPTY_CORE.pods, criticality) == map[];
      assert forall i | i in cluster[node.name] :: CoreAt(cluster, node.name, i) == cluster[node.name][i];
    } else {
      DecidersOnUnknownNode(cluster, node, required, criticality, c, feasible, victims, r);
    }
  }

  /** On a node without a pool the check accepts any need, the search only one that
      fits an empty core. */
  lemma DecidersOnUnknownNode(cluster: Cluster, node: Node, required: real, criticality: string,
                              c: int, feasible: bool, victims: seq<string>, r: FeasibilityResult)
    requires node.name !in cluster
    requires CheckOutcome(cluster, node.name, c, required, criticality, feasible, victims)
    requires SearchOutcome(cluster, [node], required, criticality, [], r)
    ensures feasible == r.feasible <==> required <= 950.0
  {
    forall n, i | Considered(cluster, [node], [], n, i)
      ensures Admits(CoreAt(cluster, n, i), required, criticality) <==> required <= 950.0
    {
      assert LowerPods(CoreAt(cluster, n, i).pods, criticality) == map[];
    }
    assert Considers(cluster, node, [], 0);
    assert Considered(cluster, [node], [], node.name, 0);
  }
}
