/** Admission: the worst-fit search over all (node, core) pairs with its eviction lookahead, and the
    check of one given pair. Budgets are exact and in millicores: a core admits 950 of them, and the
    required budget is a real because it is a ratio. */
module Scheduling {
  import opened GoTypes
  import opened Criticality
  import opened Ordering
  import opened Accounting
  import opened Victims
  import opened VictimTheorems
  import opened CpuPool

  const RT_CAPACITY_PER_CORE := 950

  /** A live node: its name and the CPU capacity it reports, if it reports one. */
  datatype Node = Node(name: string, cpuCapacity: Option<GoInt>)

  datatype FeasibilityResult = FeasibilityResult(
    feasible: bool, nodeName: string, coreID: int, victims: seq<string>)

  datatype Candidate = Candidate(nodeName: string, coreID: int, free: int, victims: seq<string>)

  function NumCores(node: Node): (n: int)
    ensures 0 < n <= MAX_INT64
    ensures n == 16 || node.cpuCapacity == Some(n)
    ensures node.cpuCapacity.Some? && node.cpuCapacity.value > 0 ==> node.cpuCapacity == Some(n)
  {
    if node.cpuCapacity.Some? && node.cpuCapacity.value > 0 then node.cpuCapacity.value else DEFAULT_NUM_CORES
  }

  // ---------- What the pool contents say about one core ----------

  /** A core that no pool describes is empty. */
  function CoreAt(cluster: Cluster, n: string, c: int): Core {
    if HasCore(cluster, n, c) then cluster[n][c] else EMPTY_CORE
  }

  function Free(core: Core): int {
    RT_CAPACITY_PER_CORE - core.usage
  }

  function LowerPods(pods: map<string, PodInfo>, criticality: string): map<string, PodInfo> {
    map name | name in pods && pods[name].PodRank() < Rank(criticality) :: pods[name]
  }

  /** The budget on a core held by pods of strictly lower rank. */
  ghost function LowerBudget(core: Core, criticality: string): int {
    PodSum(LowerPods(core.pods, criticality))
  }

  predicate Fits(core: Core, required: real) {
    Free(core) as real >= required
  }

  ghost predicate Admits(core: Core, required: real, criticality: string) {
    Fits(core, required) || (Free(core) + LowerBudget(core, criticality)) as real >= required
  }

  /** `names` is what the greedy selection may answer for the missing budget on this core. */
  ghost predicate MakesRoom(core: Core, required: real, criticality: string, names: seq<string>) {
    exists chosen :: ChosenFor(core, required, criticality, chosen) && names == Names(chosen)
  }

  ghost predicate ChosenFor(core: Core, required: real, criticality: string, chosen: seq<PodInfo>) {
    IsGreedy(multiset(LowerPods(core.pods, criticality).Values), required - Free(core) as real, chosen)
  }

  // ---------- Which pairs the search looks at ----------

  ghost predicate Considers(cluster: Cluster, node: Node, preferred: seq<int>, c: int) {
    if |preferred| > 0 then c in preferred && 0 <= c < NumCores(node)
    else if node.name in cluster then c in cluster[node.name]
    else 0 <= c < NumCores(node)
  }

  ghost predicate Considered(cluster: Cluster, nodes: seq<Node>, preferred: seq<int>, n: string, c: int) {
    exists node :: node in nodes && node.name == n && Considers(cluster, node, preferred, c)
  }

  // ---------- What the two decisions promise ----------

  ghost predicate SearchOutcome(cluster: Cluster, nodes: seq<Node>, required: real, criticality: string,
                                preferred: seq<int>, r: FeasibilityResult)
  {
    && (r.feasible <==> exists n, c :: Considered(cluster, nodes, preferred, n, c)
                                       && Admits(CoreAt(cluster, n, c), required, criticality))
    && (r.feasible ==>
          && Considered(cluster, nodes, preferred, r.nodeName, r.coreID)
          && (DirectWin(cluster, nodes, required, preferred, r)
              || EvictionWin(cluster, nodes, required, criticality, preferred, r)))
  }

  /** Worst fit: no considered core has more free budget than the winner, which needs no victims. */
  ghost predicate DirectWin(cluster: Cluster, nodes: seq<Node>, required: real,
                            preferred: seq<int>, r: FeasibilityResult)
  {
    var core := CoreAt(cluster, r.nodeName, r.coreID);
    && Fits(core, required) && r.victims == []
    && forall n, c | Considered(cluster, nodes, preferred, n, c) :: Free(CoreAt(cluster, n, c)) <= Free(core)
  }

  /** Fallback: nothing fits directly, and the winner is least by number of victims, then by free budget. */
  ghost predicate EvictionWin(cluster: Cluster, nodes: seq<Node>, required: real, criticality: string,
                              preferred: seq<int>, r: FeasibilityResult)
  {
    var core := CoreAt(cluster, r.nodeName, r.coreID);
    && Admits(core, required, criticality) && MakesRoom(core, required, criticality, r.victims)
    && (forall n, c | Considered(cluster, nodes, preferred, n, c) :: !Fits(CoreAt(cluster, n, c), required))
    && (forall n, c, names | Considered(cluster, nodes, preferred, n, c)
                             && Admits(CoreAt(cluster, n, c), required, criticality)
                             && MakesRoom(CoreAt(cluster, n, c), required, criticality, names) ::
          !Better(|names|, Free(CoreAt(cluster, n, c)), |r.victims|, Free(core)))
  }

  /** Fewer victims first, then more free budget. */
  predicate Better(victims: int, free: int, victims': int, free': int) {
    if victims != victims' then victims < victims' else free > free'
  }

  ghost predicate CheckOutcome(cluster: Cluster, n: string, c: int, required: real, criticality: string,
                               feasible: bool, victims: seq<string>)
  {
    if n !in cluster then feasible && victims == []
    else
      var core := CoreAt(cluster, n, c);
      && (feasible <==> Admits(core, required, criticality))
      && (if feasible && !Fits(core, required) then MakesRoom(core, required, criticality, victims)
          else victims == [])
  }

  // ---------- Listing the pods below a rank ----------

  function LowerOf(pods: seq<PodInfo>, criticality: string): seq<PodInfo> {
    if pods == [] then []
    else (if pods[0].PodRank() < Rank(criticality) then [pods[0]] else []) + LowerOf(pods[1..], criticality)
  }

  lemma LowerOfNext(pods: seq<PodInfo>, k: nat, criticality: string)
    requires k < |pods|
    ensures LowerOf(pods[k..], criticality)
         == (if pods[k].PodRank() < Rank(criticality) then [pods[k]] else []) + LowerOf(pods[k + 1..], criticality)
  {
    assert pods[k..][1..] == pods[k + 1..];
  }

  lemma {:induction false} LowerOfCount(pods: seq<PodInfo>, criticality: string, p: PodInfo)
    ensures multiset(LowerOf(pods, criticality))[p]
         == if p.PodRank() < Rank(criticality) then multiset(pods)[p] else 0
  {
    if pods != [] {
      assert pods == [pods[0]] + pods[1..];
      LowerOfCount(pods[1..], criticality, p);
    }
  }

  lemma LowerOfEntries(list: seq<PodInfo>, pods: map<string, PodInfo>, criticality: string)
    requires WellKeyed(pods) && multiset(list) == multiset(pods.Values)
    ensures multiset(LowerOf(list, criticality)) == multiset(LowerPods(pods, criticality).Values)
  {
    var lower := LowerPods(pods, criticality);
    forall p
      ensures multiset(LowerOf(list, criticality))[p] == multiset(lower.Values)[p]
    {
      LowerOfCount(list, criticality, p);
      assert multiset(list)[p] == multiset(pods.Values)[p];
      if p in pods.Values && p.PodRank() < Rank(criticality) {
        var name :| name in pods && pods[name] == p;
        assert lower[name] == p;
      }
    }
  }

  lemma {:induction false} BudgetOfEntries(list: seq<PodInfo>, pods: map<string, PodInfo>)
    requires WellKeyed(pods) && multiset(list) == multiset(pods.Values)
    ensures Budget(list) == PodSum(pods)
    decreases |list|
  {
    if pods != map[] {
      var name :| name in pods;
      assert pods[name] in multiset(pods.Values);
      assert pods[name] in multiset(list);
    }
    if list != [] {
      var p := list[0];
      assert p in multiset(list);
      assert p in pods.Values;
      var rest := pods - {p.name};
      assert rest.Values == pods.Values - {p} by {
        forall x
          ensures x in rest.Values <==> x in pods.Values && x != p
        {
          if x in pods.Values && x != p {
            assert x.name in rest && rest[x.name] == x;
          }
        }
      }
      assert multiset(rest.Values) == multiset(pods.Values) - multiset{p};
      assert list == [p] + list[1..];
      PodSumSplit(pods, p.name);
      BudgetOfEntries(list[1..], rest);
    }
  }

  /** The pods a newcomer of this criticality may evict, and their total budget. */
  method PoolEvictionLookahead(pods: seq<PodInfo>, criticality: string)
    returns (victims: seq<PodInfo>, total: int)
    ensures victims == LowerOf(pods, criticality) && total == Budget(victims)
  {
    var rank := Rank(criticality);
    victims, total := [], 0;
    var i := 0;
    while i < |pods|
      invariant 0 <= i <= |pods|
      invariant victims + LowerOf(pods[i..], criticality) == LowerOf(pods, criticality)
      invariant total == Budget(victims)
    {
      LowerOfNext(pods, i, criticality);
      if pods[i].PodRank() < rank {
        BudgetConcat(victims, [pods[i]]);
        victims := victims + [pods[i]];
        total := total + pods[i].cpuMillis;
      }
      i := i + 1;
    }
  }

  // ---------- The check of one pair ----------

  method CheckNodeCoreFeasibility(registry: Registry, nodeName: string, coreID: int, required: real,
                                  criticality: string)
    returns (feasible: bool, victims: seq<string>)
    requires registry.Valid()
    ensures CheckOutcome(registry.View(), nodeName, coreID, required, criticality, feasible, victims)
  {
    var pool := registry.GetPoolForNode(nodeName);
    if pool == null {
      return true, [];
    }
    ghost var core := CoreAt(registry.View(), nodeName, coreID);
    var used := pool.GetCoreUtilization(coreID);
    var corePods := pool.GetPodsOnCore(coreID);
    assert used == core.usage && multiset(corePods) == multiset(core.pods.Values);
    var free := RT_CAPACITY_PER_CORE - used;
    if free as real >= required {
      return true, [];
    }
    assert WellKeyed(core.pods);
    var candidates, total := PoolEvictionLookahead(corePods, criticality);
    LowerOfEntries(corePods, core.pods, criticality);
    BudgetOfEntries(candidates, LowerPods(core.pods, criticality));
    if (free + total) as real >= required {
      victims := NamesToEvict(core, required, criticality, candidates, free);
      return true, victims;
    }
    return false, [];
  }

  method NamesToEvict(ghost core: Core, required: real, criticality: string,
                      candidates: seq<PodInfo>, free: int)
    returns (victims: seq<string>)
    requires multiset(candidates) == multiset(LowerPods(core.pods, criticality).Values)
    requires free == Free(core)
    ensures MakesRoom(core, required, criticality, victims)
  {
    var a := new PodInfo[|candidates|](i requires 0 <= i < |candidates| => candidates[i]);
    assert a[..] == candidates;
    ghost var chosen;
    victims, chosen := GreedyMinVictims(a, required - free as real);
    assert ChosenFor(core, required, criticality, chosen);
  }

  // ---------- The search ----------

  method CoresToCheck(registry: Registry, node: Node, preferred: seq<int>) returns (toCheck: seq<int>)
    requires registry.Valid()
    ensures forall c :: c in toCheck <==> Considers(registry.View(), node, preferred, c)
  {
    var numCores := NumCores(node);
    var pool := registry.GetPoolForNode(node.name);
    toCheck := [];
    if |preferred| > 0 {
      toCheck := FilterValidCores(preferred, numCores);
      assert forall c :: c in toCheck <==> Considers(registry.View(), node, preferred, c);
    } else if pool != null {
      var todo := pool.cores.Keys;
      while todo != {}
        invariant todo <= pool.cores.Keys
        invariant forall c :: c in toCheck <==> c in pool.cores && c !in todo
        decreases |todo|
      {
        var c := NextKey(todo);
        toCheck := toCheck + [c];
        todo := todo - {c};
      }
      assert registry.View()[node.name] == pool.View();
      assert forall c :: c in toCheck <==> Considers(registry.View(), node, preferred, c);
    } else {
      toCheck := seq(numCores, j => j);
      forall c
        ensures c in toCheck <==> 0 <= c < numCores
      {
        if 0 <= c < numCores {
          assert toCheck[c] == c;
        }
      }
      assert node.name !in registry.View();
    }
  }

  method FilterValidCores(preferred: seq<int>, numCores: int) returns (valid: seq<int>)
    ensures forall c :: c in valid <==> c in preferred && 0 <= c < numCores
  {
    valid := [];
    var i := 0;
    while i < |preferred|
      invariant 0 <= i <= |preferred|
      invariant forall c :: c in valid <==> c in preferred[..i] && 0 <= c < numCores
    {
      if 0 <= preferred[i] < numCores {
        valid := valid + [preferred[i]];
      }
      i := i + 1;
    }
    assert preferred[..i] == preferred;
  }

  /** A direct candidate and one that needs evictions, as the search records them. */
  ghost predicate IsDirect(cluster: Cluster, required: real, d: Candidate) {
    var core := CoreAt(cluster, d.nodeName, d.coreID);
    d.free == Free(core) && Fits(core, required) && d.victims == []
  }

  ghost predicate IsEvicting(cluster: Cluster, required: real, criticality: string, d: Candidate) {
    var core := CoreAt(cluster, d.nodeName, d.coreID);
    && d.free == Free(core) && !Fits(core, required)
    && Admits(core, required, criticality) && MakesRoom(core, required, criticality, d.victims)
  }

  /** How one core enters the search. */
  method AssessCore(registry: Registry, nodeName: string, coreID: int, required: real, criticality: string)
    returns (direct: bool, evicting: bool, d: Candidate)
    requires registry.Valid()
    ensures d.nodeName == nodeName && d.coreID == coreID
    ensures direct <==> Fits(CoreAt(registry.View(), nodeName, coreID), required)
    ensures evicting <==> !direct && Admits(CoreAt(registry.View(), nodeName, coreID), required, criticality)
    ensures direct ==> IsDirect(registry.View(), required, d)
    ensures evicting ==> IsEvicting(registry.View(), required, criticality, d)
  {
    ghost var core := CoreAt(registry.View(), nodeName, coreID);
    var pool := registry.GetPoolForNode(nodeName);
    var used, corePods := 0, [];
    if pool != null {
      used := pool.GetCoreUtilization(coreID);
      corePods := pool.GetPodsOnCore(coreID);
    }
    assert used == core.usage && multiset(corePods) == multiset(core.pods.Values);
    assert WellKeyed(core.pods);
    var free := RT_CAPACITY_PER_CORE - used;
    direct, evicting, d := false, false, Candidate(nodeName, coreID, free, []);
    if free as real >= required {
      direct := true;
    } else {
      var candidates, budget := PoolEvictionLookahead(corePods, criticality);
      LowerOfEntries(corePods, core.pods, criticality);
      BudgetOfEntries(candidates, LowerPods(core.pods, criticality));
      if (free + budget) as real >= required {
        var victims := NamesToEvict(core, required, criticality, candidates, free);
        evicting, d := true, Candidate(nodeName, coreID, free, victims);
      }
    }
  }

  ghost predicate Listed(candidates: seq<Candidate>, n: string, c: int) {
    exists d :: d in candidates && d.nodeName == n && d.coreID == c
  }

  /** The candidate lists are right for the pairs in `seen`. */
  ghost predicate Collected(cluster: Cluster, required: real, criticality: string, seen: set<(string, int)>,
                            direct: seq<Candidate>, withEvict: seq<Candidate>)
  {
    && (forall d | d in direct :: (d.nodeName, d.coreID) in seen && IsDirect(cluster, required, d))
    && (forall d | d in withEvict :: (d.nodeName, d.coreID) in seen && IsEvicting(cluster, required, criticality, d))
    && (forall p | p in seen && Fits(CoreAt(cluster, p.0, p.1), required) :: Listed(direct, p.0, p.1))
    && (forall p | p in seen && !Fits(CoreAt(cluster, p.0, p.1), required)
                   && Admits(CoreAt(cluster, p.0, p.1), required, criticality) :: Listed(withEvict, p.0, p.1))
  }

  lemma CollectMore(cluster: Cluster, required: real, criticality: string, seen: set<(string, int)>,
                    direct: seq<Candidate>, withEvict: seq<Candidate>, d: Candidate)
    requires Collected(cluster, required, criticality, seen, direct, withEvict)
    ensures
      var core := CoreAt(cluster, d.nodeName, d.coreID);
      var seen' := seen + {(d.nodeName, d.coreID)};
      && (IsDirect(cluster, required, d) ==>
            Collected(cluster, required, criticality, seen', direct + [d], withEvict))
      && (IsEvicting(cluster, required, criticality, d) ==>
            Collected(cluster, required, criticality, seen', direct, withEvict + [d]))
      && (!Fits(core, required) && !Admits(core, required, criticality) ==>
            Collected(cluster, required, criticality, seen', direct, withEvict))
  {
    ListedAppend(direct, d);
    ListedAppend(withEvict, d);
  }

  lemma ListedAppend(candidates: seq<Candidate>, d: Candidate)
    ensures Listed(candidates + [d], d.nodeName, d.coreID)
    ensures forall n, c | Listed(candidates, n, c) :: Listed(candidates + [d], n, c)
  {
    assert d in candidates + [d];
    forall n, c | Listed(candidates, n, c)
      ensures Listed(candidates + [d], n, c)
    {
      var x :| x in candidates && x.nodeName == n && x.coreID == c;
      assert x in candidates + [d];
    }
  }

  /** `seen` holds the pairs that the first `k` nodes contribute. */
  ghost predicate SeenExactly(cluster: Cluster, nodes: seq<Node>, preferred: seq<int>, k: int,
                              seen: set<(string, int)>)
    requires 0 <= k <= |nodes|
  {
    forall n, c :: (n, c) in seen <==> Considered(cluster, nodes[..k], preferred, n, c)
  }

  method SelectBestNodeAndCore(registry: Registry, nodes: seq<Node>, required: real, criticality: string,
                               preferred: seq<int>)
    returns (r: FeasibilityResult)
    requires registry.Valid()
    ensures SearchOutcome(old(registry.View()), nodes, required, criticality, preferred, r)
  {
    ghost var cluster := registry.View();
    var direct, withEvict;
    ghost var seen;
    direct, withEvict, seen := CollectCandidates(registry, nodes, required, criticality, preferred);
    if |direct| > 0 {
      r := BestDirect(direct);
      FirstOfDirect(cluster, nodes, required, criticality, preferred, seen, direct, withEvict, r);
    } else if |withEvict| > 0 {
      r := BestWithEvict(withEvict);
      FirstOfEvicting(cluster, nodes, required, criticality, preferred, seen, withEvict, r);
    } else {
      r := FeasibilityResult(false, "", 0, []);
      NoCandidates(cluster, nodes, required, criticality, preferred, seen, r);
    }
  }

  method CollectCandidates(registry: Registry, nodes: seq<Node>, required: real, criticality: string,
                           preferred: seq<int>)
    returns (direct: seq<Candidate>, withEvict: seq<Candidate>, ghost seen: set<(string, int)>)
    requires registry.Valid()
    ensures forall n, c :: (n, c) in seen <==> Considered(registry.View(), nodes, preferred, n, c)
    ensures Collected(registry.View(), required, criticality, seen, direct, withEvict)
  {
    ghost var cluster := registry.View();
    seen, direct, withEvict := {}, [], [];
    var k := 0;
    while k < |nodes|
      invariant 0 <= k <= |nodes|
      invariant SeenExactly(cluster, nodes, preferred, k, seen)
      invariant Collected(cluster, required, criticality, seen, direct, withEvict)
    {
      ghost var before := seen;
      var toCheck := CoresToCheck(registry, nodes[k], preferred);
      direct, withEvict, seen := AssessNode(registry, cluster, nodes[k].name, toCheck, required, criticality,
                                            seen, direct, withEvict);
      SeenNext(cluster, nodes, preferred, k, before, toCheck, seen);
      k := k + 1;
    }
    assert nodes[..k] == nodes;
  }

  /** The inner loop of the search: every core ID listed for one node. */
  method AssessNode(registry: Registry, ghost cluster: Cluster, nodeName: string, toCheck: seq<int>,
                    required: real, criticality: string, ghost seen: set<(string, int)>,
                    direct0: seq<Candidate>, withEvict0: seq<Candidate>)
    returns (direct: seq<Candidate>, withEvict: seq<Candidate>, ghost seen': set<(string, int)>)
    requires registry.Valid() && cluster == registry.View()
    requires Collected(cluster, required, criticality, seen, direct0, withEvict0)
    ensures Collected(cluster, required, criticality, seen', direct, withEvict)
    ensures seen' == seen + set c | c in toCheck :: (nodeName, c)
  {
    direct, withEvict, seen' := direct0, withEvict0, seen;
    var j := 0;
    while j < |toCheck|
      invariant 0 <= j <= |toCheck|
      invariant seen' == seen + set c | c in toCheck[..j] :: (nodeName, c)
      invariant Collected(cluster, required, criticality, seen', direct, withEvict)
    {
      var isDirect, isEvicting, d := AssessCore(registry, nodeName, toCheck[j], required, criticality);
      CollectMore(cluster, required, criticality, seen', direct, withEvict, d);
      if isDirect {
        direct := direct + [d];
      } else if isEvicting {
        withEvict := withEvict + [d];
      }
      seen' := seen' + {(nodeName, toCheck[j])};
      assert toCheck[..j + 1] == toCheck[..j] + [toCheck[j]];
      j := j + 1;
    }
    assert toCheck[..j] == toCheck;
  }

  lemma SeenNext(cluster: Cluster, nodes: seq<Node>, preferred: seq<int>, k: int, seen: set<(string, int)>,
                 toCheck: seq<int>, seen': set<(string, int)>)
    requires 0 <= k < |nodes| && SeenExactly(cluster, nodes, preferred, k, seen)
    requires forall c :: c in toCheck <==> Considers(cluster, nodes[k], preferred, c)
    requires seen' == seen + set c | c in toCheck :: (nodes[k].name, c)
    ensures SeenExactly(cluster, nodes, preferred, k + 1, seen')
  {
    assert nodes[..k + 1] == nodes[..k] + [nodes[k]];
    forall n, c
      ensures Considered(cluster, nodes[..k + 1], preferred, n, c) <==>
              Considered(cluster, nodes[..k], preferred, n, c)
              || (n == nodes[k].name && Considers(cluster, nodes[k], preferred, c))
    {
      assert forall node :: node in nodes[..k + 1] <==> node in nodes[..k] || node == nodes[k];
    }
  }

  method BestDirect(direct: seq<Candidate>) returns (r: FeasibilityResult)
    requires |direct| > 0
    ensures r.feasible && r.victims == []
    ensures exists d :: d in direct && d.nodeName == r.nodeName && d.coreID == r.coreID
                        && forall e | e in direct :: e.free <= d.free
  {
    var a := new Candidate[|direct|](i requires 0 <= i < |direct| => direct[i]);
    assert a[..] == direct;
    var less := (x: Candidate, y: Candidate) => x.free > y.free;
    SortSlice(a, less);
    var b := a[0];
    FirstIsLeast(a[..], less, direct);
    r := FeasibilityResult(true, b.nodeName, b.coreID, []);
  }

  method BestWithEvict(withEvict: seq<Candidate>) returns (r: FeasibilityResult)
    requires |withEvict| > 0
    ensures r.feasible
    ensures exists d :: d in withEvict && r == FeasibilityResult(true, d.nodeName, d.coreID, d.victims)
                        && forall e | e in withEvict :: !Better(|e.victims|, e.free, |d.victims|, d.free)
  {
    var a := new Candidate[|withEvict|](i requires 0 <= i < |withEvict| => withEvict[i]);
    assert a[..] == withEvict;
    var less := (x: Candidate, y: Candidate) => Better(|x.victims|, x.free, |y.victims|, y.free);
    SortSlice(a, less);
    var b := a[0];
    FirstIsLeast(a[..], less, withEvict);
    r := FeasibilityResult(true, b.nodeName, b.coreID, b.victims);
  }

  lemma FirstIsLeast(sorted: seq<Candidate>, less: (Candidate, Candidate) -> bool, candidates: seq<Candidate>)
    requires StrictWeakOrder(less) && Sorted(sorted, less)
    requires sorted != [] && multiset(sorted) == multiset(candidates)
    ensures sorted[0] in candidates
    ensures forall d | d in candidates :: !less(d, sorted[0])
  {
    assert sorted[0] in multiset(sorted);
    forall d | d in candidates
      ensures !less(d, sorted[0])
    {
      assert d in multiset(sorted);
      var i :| 0 <= i < |sorted| && sorted[i] == d;
    }
  }

  lemma FirstOfDirect(cluster: Cluster, nodes: seq<Node>, required: real, criticality: string,
                      preferred: seq<int>, seen: set<(string, int)>, direct: seq<Candidate>,
                      withEvict: seq<Candidate>, r: FeasibilityResult)
    requires forall n, c :: (n, c) in seen <==> Considered(cluster, nodes, preferred, n, c)
    requires Collected(cluster, required, criticality, seen, direct, withEvict)
    requires r.feasible && r.victims == []
    requires exists d :: d in direct && d.nodeName == r.nodeName && d.coreID == r.coreID
                         && forall e | e in direct :: e.free <= d.free
    ensures SearchOutcome(cluster, nodes, required, criticality, preferred, r)
  {
    var d :| d in direct && d.nodeName == r.nodeName && d.coreID == r.coreID
             && forall e | e in direct :: e.free <= d.free;
    assert Considered(cluster, nodes, preferred, d.nodeName, d.coreID);
    forall n, c | Considered(cluster, nodes, preferred, n, c)
      ensures Free(CoreAt(cluster, n, c)) <= d.free
    {
      assert (n, c) in seen;
      if Fits(CoreAt(cluster, n, c), required) {
        assert Listed(direct, (n, c).0, (n, c).1);
      }
    }
    assert DirectWin(cluster, nodes, required, preferred, r);
  }

  lemma FirstOfEvicting(cluster: Cluster, nodes: seq<Node>, required: real, criticality: string,
                        preferred: seq<int>, seen: set<(string, int)>,
                        withEvict: seq<Candidate>, r: FeasibilityResult)
    requires forall n, c :: (n, c) in seen <==> Considered(cluster, nodes, preferred, n, c)
    requires Collected(cluster, required, criticality, seen, [], withEvict)
    requires exists d :: d in withEvict && r == FeasibilityResult(true, d.nodeName, d.coreID, d.victims)
                         && forall e | e in withEvict :: !Better(|e.victims|, e.free, |d.victims|, d.free)
    ensures SearchOutcome(cluster, nodes, required, criticality, preferred, r)
  {
    var d :| d in withEvict && r == FeasibilityResult(true, d.nodeName, d.coreID, d.victims)
             && forall e | e in withEvict :: !Better(|e.victims|, e.free, |d.victims|, d.free);
    assert Considered(cluster, nodes, preferred, d.nodeName, d.coreID);
    forall n, c | Considered(cluster, nodes, preferred, n, c)
      ensures !Fits(CoreAt(cluster, n, c), required)
    {
      assert (n, c) in seen;
      assert !Listed([], (n, c).0, (n, c).1);
    }
    forall n, c, names | Considered(cluster, nodes, preferred, n, c)
                         && Admits(CoreAt(cluster, n, c), required, criticality)
                         && MakesRoom(CoreAt(cluster, n, c), required, criticality, names)
      ensures !Better(|names|, Free(CoreAt(cluster, n, c)), |d.victims|, d.free)
    {
      assert (n, c) in seen;
      assert Listed(withEvict, (n, c).0, (n, c).1);
      var e :| e in withEvict && e.nodeName == n && e.coreID == c;
      RoomNeedsAsManyVictims(CoreAt(cluster, n, c), required, criticality, names, e.victims);
    }
    assert EvictionWin(cluster, nodes, required, criticality, preferred, r);
  }

  lemma NoCandidates(cluster: Cluster, nodes: seq<Node>, required: real, criticality: string,
                     preferred: seq<int>, seen: set<(string, int)>, r: FeasibilityResult)
    requires forall n, c :: (n, c) in seen <==> Considered(cluster, nodes, preferred, n, c)
    requires Collected(cluster, required, criticality, seen, [], []) && !r.feasible
    ensures SearchOutcome(cluster, nodes, required, criticality, preferred, r)
  {
    forall n, c | Considered(cluster, nodes, preferred, n, c)
      ensures !Admits(CoreAt(cluster, n, c), required, criticality)
    {
      assert (n, c) in seen;
      assert !Listed([], (n, c).0, (n, c).1);
    }
  }

  /** How many victims a core costs does not depend on how its pods were listed and sorted. */
  lemma RoomNeedsAsManyVictims(core: Core, required: real, criticality: string, x: seq<string>, y: seq<string>)
    requires MakesRoom(core, required, criticality, x) && MakesRoom(core, required, criticality, y)
    ensures |x| == |y|
  {
    var a :| ChosenFor(core, required, criticality, a) && x == Names(a);
    var b :| ChosenFor(core, required, criticality, b) && y == Names(b);
    GreedyIsDeterminedByContents(multiset(LowerPods(core.pods, criticality).Values),
                                 required - Free(core) as real, a, b);
  }
}
