/** Choosing which lower-criticality pods give way: the greedy selection shared by the admission
    webhooks (names only) and the controller (whole records), and what it does and does not minimise. */
module Victims {
  import opened Criticality
  import opened Ordering

  // ---------- The comparator and the sums ----------

  /** The comparator of both selections: lower criticality first, then larger budget first. */
  predicate Before(a: PodInfo, b: PodInfo) {
    if a.PodRank() != b.PodRank() then a.PodRank() < b.PodRank() else a.cpuMillis > b.cpuMillis
  }

  ghost predicate ByPriority(s: seq<PodInfo>) {
    forall i, j | 0 <= i < j < |s| :: !Before(s[j], s[i])
  }

  /** Total budget of a list of pods, in millicores. */
  function Budget(s: seq<PodInfo>): int {
    if s == [] then 0 else s[0].cpuMillis + Budget(s[1..])
  }

  function Names(s: seq<PodInfo>): (names: seq<string>)
    ensures |names| == |s|
    ensures forall i | 0 <= i < |s| :: names[i] == s[i].name
  {
    seq(|s|, i requires 0 <= i < |s| => s[i].name)
  }

  ghost predicate NonNegative(s: seq<PodInfo>) {
    forall p | p in s :: p.cpuMillis >= 0
  }

  /** How many pods a greedy pass over `s` takes: it stops at the first one that makes the running
      total reach `needed`, and always takes the first pod there is. */
  function Taken(s: seq<PodInfo>, needed: real): (k: nat)
    ensures k <= |s|
    ensures s != [] ==> k >= 1
  {
    if s == [] then 0
    else if s[0].cpuMillis as real >= needed then 1
    else 1 + Taken(s[1..], needed - s[0].cpuMillis as real)
  }

  /** `chosen` is what a greedy pass may return for these candidates: the prefix it takes of some
      ordering that the comparator accepts. */
  ghost predicate IsGreedy(candidates: multiset<PodInfo>, needed: real, chosen: seq<PodInfo>) {
    exists s :: GreedyVia(s, candidates, needed, chosen)
  }

  ghost predicate GreedyVia(s: seq<PodInfo>, candidates: multiset<PodInfo>, needed: real, chosen: seq<PodInfo>) {
    multiset(s) == candidates && ByPriority(s) && chosen == s[..Taken(s, needed)]
  }

  // ---------- The two selections ----------

  method GreedyMinVictims(candidates: array<PodInfo>, needed: real)
    returns (names: seq<string>, ghost chosen: seq<PodInfo>)
    modifies candidates
    ensures multiset(candidates[..]) == multiset(old(candidates[..]))
    ensures IsGreedy(multiset(old(candidates[..])), needed, chosen)
    ensures names == Names(chosen)
  {
    SortByPriority(candidates);
    ghost var s := candidates[..];
    names, chosen := [], [];
    var acc := 0;
    var i := 0;
    while i < candidates.Length
      invariant 0 <= i <= candidates.Length
      invariant candidates[..] == s
      invariant chosen == s[..i] && names == Names(chosen)
      invariant Taken(s, needed) == i + Taken(s[i..], needed - acc as real)
    {
      TakenNext(s, i, acc, needed);
      var c := candidates[i];
      names, chosen := names + [c.name], chosen + [c];
      acc := acc + c.cpuMillis;
      i := i + 1;
      if acc as real >= needed {
        break;
      }
    }
    assert GreedyVia(s, multiset(old(candidates[..])), needed, chosen);
  }

  lemma TakenNext(s: seq<PodInfo>, i: nat, acc: int, needed: real)
    requires i < |s|
    ensures Taken(s[i..], needed - acc as real)
         == if (acc + s[i].cpuMillis) as real >= needed then 1
            else 1 + Taken(s[i + 1..], needed - (acc + s[i].cpuMillis) as real)
  {
    assert s[i..][1..] == s[i + 1..];
  }

  /** The variant that copies the candidates first and returns their records. */
  method SelectMinimumVictims(candidates: seq<PodInfo>, needed: real) returns (result: seq<PodInfo>)
    ensures IsGreedy(multiset(candidates), needed, result)
  {
    var sorted := new PodInfo[|candidates|](i requires 0 <= i < |candidates| => candidates[i]);
    assert sorted[..] == candidates;
    SortByPriority(sorted);
    ghost var s := sorted[..];
    result := [];
    var acc := 0;
    var i := 0;
    while i < sorted.Length
      invariant 0 <= i <= sorted.Length
      invariant sorted[..] == s
      invariant result == s[..i]
      invariant Taken(s, needed) == i + Taken(s[i..], needed - acc as real)
    {
      TakenNext(s, i, acc, needed);
      result := result + [sorted[i]];
      acc := acc + sorted[i].cpuMillis;
      i := i + 1;
      if acc as real >= needed {
        break;
      }
    }
    assert GreedyVia(s, multiset(candidates), needed, result);
  }

  method SortByPriority(a: array<PodInfo>)
    modifies a
    ensures ByPriority(a[..])
    ensures multiset(a[..]) == multiset(old(a[..]))
  {
    var less := (x: PodInfo, y: PodInfo) => Before(x, y);
    SortSlice(a, less);
    assert forall i, j | 0 <= i < j < |a[..]| :: !less(a[..][j], a[..][i]);
  }

  // ---------- Sums and sub-collections ----------

  lemma {:induction false} BudgetConcat(a: seq<PodInfo>, b: seq<PodInfo>)
    ensures Budget(a + b) == Budget(a) + Budget(b)
  {
    if a == [] {
      assert a + b == b;
    } else {
      assert (a + b)[1..] == a[1..] + b;
      BudgetConcat(a[1..], b);
    }
  }

  function Without(q: seq<PodInfo>, i: nat): seq<PodInfo>
    requires i < |q|
  {
    q[..i] + q[i + 1..]
  }

  lemma WithoutSums(q: seq<PodInfo>, i: nat)
    requires i < |q|
    ensures multiset(Without(q, i)) == multiset(q) - multiset{q[i]}
    ensures Budget(Without(q, i)) == Budget(q) - q[i].cpuMillis
  {
    WithoutMultiset(q, i);
    WithoutBudget(q, i);
  }

  lemma WithoutMultiset(q: seq<PodInfo>, i: nat)
    requires i < |q|
    ensures multiset(Without(q, i)) == multiset(q) - multiset{q[i]}
  {
    assert q == q[..i] + [q[i]] + q[i + 1..];
  }

  lemma WithoutBudget(q: seq<PodInfo>, i: nat)
    requires i < |q|
    ensures Budget(Without(q, i)) == Budget(q) - q[i].cpuMillis
  {
    BudgetInsert(q[..i], q[i], q[i + 1..]);
    assert q == q[..i] + [q[i]] + q[i + 1..];
  }

  lemma BudgetInsert(a: seq<PodInfo>, p: PodInfo, b: seq<PodInfo>)
    ensures Budget(a + [p] + b) == p.cpuMillis + Budget(a + b)
  {
    BudgetConcat(a, b);
    BudgetConcat(a + [p], b);
    BudgetConcat(a, [p]);
  }

  lemma {:induction false} BudgetPermutation(s: seq<PodInfo>, t: seq<PodInfo>)
    requires multiset(s) == multiset(t)
    ensures |s| == |t| && Budget(s) == Budget(t)
  {
    assert |s| == |multiset(s)| == |multiset(t)| == |t|;
    if s != [] {
      assert s[0] in multiset(t);
      var i :| 0 <= i < |t| && t[i] == s[0];
      WithoutSums(s, 0);
      WithoutSums(t, i);
      BudgetPermutation(Without(s, 0), Without(t, i));
    }
  }

  lemma {:induction false} PrefixBudgetMonotone(s: seq<PodInfo>, i: nat, j: nat)
    requires NonNegative(s) && i <= j <= |s|
    ensures Budget(s[..i]) <= Budget(s[..j])
    decreases j
  {
    if i < j {
      assert s[..j] == s[..j - 1] + [s[j - 1]];
      BudgetConcat(s[..j - 1], [s[j - 1]]);
      assert s[j - 1] in s;
      PrefixBudgetMonotone(s, i, j - 1);
    }
  }

  // ---------- What the greedy result is ----------

  /** The pass takes the shortest covering prefix, or everything when nothing covers. */
  lemma {:induction false} TakenIsShortestPrefix(s: seq<PodInfo>, needed: real)
    ensures forall k | 1 <= k < Taken(s, needed) :: (Budget(s[..k]) as real) < needed
    ensures s != [] && Budget(s) as real >= needed ==> Budget(s[..Taken(s, needed)]) as real >= needed
    ensures Taken(s, needed) < |s| ==> Budget(s[..Taken(s, needed)]) as real >= needed
  {
    if s != [] {
      assert s[..1][1..] == [];
      if (s[0].cpuMillis as real) < needed {
        var rest := needed - s[0].cpuMillis as real;
        TakenIsShortestPrefix(s[1..], rest);
        forall k | 1 <= k <= |s|
          ensures Budget(s[..k]) == s[0].cpuMillis + Budget(s[1..][..k - 1])
        {
          assert s[..k][1..] == s[1..][..k - 1];
        }
        assert s[1..] == [] ==> Budget(s) == s[0].cpuMillis;
      }
    }
  }

  /** Soundness: given enough budget among the candidates, the victims cover the need, no proper
      prefix of them does, and they are candidates. */
  lemma GreedyCovers(candidates: seq<PodInfo>, needed: real, chosen: seq<PodInfo>)
    requires IsGreedy(multiset(candidates), needed, chosen)
    requires needed > 0.0 && Budget(candidates) as real >= needed
    ensures chosen != [] && Budget(chosen) as real >= needed
    ensures forall k | 0 <= k < |chosen| :: (Budget(chosen[..k]) as real) < needed
    ensures multiset(chosen) <= multiset(candidates)
  {
    var s :| GreedyVia(s, multiset(candidates), needed, chosen);
    BudgetPermutation(s, candidates);
    TakenIsShortestPrefix(s, needed);
    forall k | 0 <= k < |chosen|
      ensures (Budget(chosen[..k]) as real) < needed
    {
      assert chosen[..k] == s[..k];
      if k == 0 {
        assert chosen[..k] == [];
      }
    }
    assert s == chosen + s[|chosen|..];
  }

  /** Where the candidates cannot cover the need, all of them are taken. */
  lemma GreedyTakesAllWhenShort(candidates: seq<PodInfo>, needed: real, chosen: seq<PodInfo>)
    requires IsGreedy(multiset(candidates), needed, chosen)
    requires NonNegative(candidates) && (Budget(candidates) as real) < needed
    ensures multiset(chosen) == multiset(candidates)
  {
    var s :| GreedyVia(s, multiset(candidates), needed, chosen);
    BudgetPermutation(s, candidates);
    assert forall p | p in s :: p in multiset(s) && p in multiset(candidates);
    TakenIsAllWhenShort(s, needed);
    assert s[..|s|] == s;
  }

  lemma {:induction false} TakenIsAllWhenShort(s: seq<PodInfo>, needed: real)
    requires NonNegative(s) && (Budget(s) as real) < needed
    ensures Taken(s, needed) == |s|
  {
    if s != [] {
      BudgetNonNegative(s[1..]);
      assert s[0] in s;
      TakenIsAllWhenShort(s[1..], needed - s[0].cpuMillis as real);
    }
  }

  lemma {:induction false} BudgetNonNegative(s: seq<PodInfo>)
    requires NonNegative(s)
    ensures Budget(s) >= 0
  {
    if s != [] {
      assert s[0] in s;
      BudgetNonNegative(s[1..]);
    }
  }

  /** Criticality is respected: a pod is taken only after every candidate of lower rank. */
  lemma GreedyTakesLowerRanksFirst(candidates: seq<PodInfo>, needed: real, chosen: seq<PodInfo>,
                                   taken: PodInfo, lower: PodInfo)
    requires IsGreedy(multiset(candidates), needed, chosen)
    requires taken in chosen && lower.PodRank() < taken.PodRank()
    ensures multiset(chosen)[lower] == multiset(candidates)[lower]
  {
    var s :| GreedyVia(s, multiset(candidates), needed, chosen);
    var i :| 0 <= i < |chosen| && chosen[i] == taken;
    assert s[i] == taken;
    assert s == chosen + s[|chosen|..];
    NothingLowerLater(s, i, |chosen|, lower);
    assert multiset(s) == multiset(chosen) + multiset(s[|chosen|..]);
  }

  lemma NothingLowerLater(s: seq<PodInfo>, i: nat, k: nat, lower: PodInfo)
    requires ByPriority(s) && i < k <= |s| && lower.PodRank() < s[i].PodRank()
    ensures lower !in s[k..]
  {
    forall j | k <= j < |s|
      ensures s[j] != lower
    {
      assert !Before(s[j], s[i]);
    }
  }

  // ---------- Optimality ----------

  function CountRank(s: seq<PodInfo>, rank: int): nat {
    if s == [] then 0 else (if s[0].PodRank() == rank then 1 else 0) + CountRank(s[1..], rank)
  }

  function CountBelow(s: seq<PodInfo>, rank: int): nat {
    if s == [] then 0 else (if s[0].PodRank() < rank then 1 else 0) + CountBelow(s[1..], rank)
  }

  lemma {:induction false} CountRankConcat(a: seq<PodInfo>, b: seq<PodInfo>, rank: int)
    ensures CountRank(a + b, rank) == CountRank(a, rank) + CountRank(b, rank)
  {
    if a == [] {
      assert a + b == b;
    } else {
      assert (a + b)[1..] == a[1..] + b;
      CountRankConcat(a[1..], b, rank);
    }
  }

  lemma CountRankWithout(q: seq<PodInfo>, i: nat, rank: int)
    requires i < |q|
    ensures CountRank(Without(q, i), rank) == CountRank(q, rank) - (if q[i].PodRank() == rank then 1 else 0)
  {
    assert q == q[..i] + ([q[i]] + q[i + 1..]);
    CountRankConcat(q[..i], [q[i]] + q[i + 1..], rank);
    CountRankConcat([q[i]], q[i + 1..], rank);
    CountRankConcat(q[..i], q[i + 1..], rank);
    assert CountRank([q[i]], rank) == if q[i].PodRank() == rank then 1 else 0;
  }

  lemma DropHead(s: seq<PodInfo>, q: seq<PodInfo>, i: nat)
    requires s != [] && i < |q| && q[i] == s[0]
    requires multiset(q) <= multiset(s) && multiset(Without(q, i)) == multiset(q) - multiset{q[i]}
    ensures multiset(Without(q, i)) <= multiset(s[1..])
  {
    assert s == [s[0]] + s[1..];
    assert multiset(s[1..]) == multiset(s) - multiset{s[0]};
  }

  /** Where a sub-collection can lose the first pod of the ordering, or otherwise any pod at all. */
  lemma DropOne(s: seq<PodInfo>, q: seq<PodInfo>) returns (i: nat)
    requires s != [] && q != [] && multiset(q) <= multiset(s)
    ensures i < |q| && q[i] in s && multiset(Without(q, i)) <= multiset(s[1..])
    ensures s[0] in q ==> q[i] == s[0]
    ensures forall p | p in Without(q, i) :: p in q
    ensures Budget(q) == q[i].cpuMillis + Budget(Without(q, i))
  {
    i := 0;
    if s[0] in q {
      i :| 0 <= i < |q| && q[i] == s[0];
    }
    WithoutSums(q, i);
    WithoutMembers(q, i);
    MemberOfSuper(s, q, q[i]);
    if s[0] in q {
      DropHead(s, q, i);
    } else {
      SkipHead(s, q);
    }
  }

  lemma WithoutMembers(q: seq<PodInfo>, i: nat)
    requires i < |q|
    ensures forall p | p in Without(q, i) :: p in q
  {
  }

  /** The exchange argument. In an ordering accepted by the comparator, a sub-collection of ranks up to
      `rank` with `CountRank(q, rank)` pods of that rank weighs no more than the prefix holding every
      lower pod and equally many pods of that rank. */
  lemma {:induction false} RankPrefixIsHeaviest(s: seq<PodInfo>, q: seq<PodInfo>, rank: int)
    requires ByPriority(s) && NonNegative(s)
    requires multiset(q) <= multiset(s)
    requires forall p | p in q :: p.PodRank() <= rank
    ensures PrefixOutweighs(s, q, rank)
    decreases |s|, 1
  {
    if q == [] {
      NothingIsLighter(s, rank);
    } else {
      MemberOfSuper(s, q, q[0]);
      if s[0].PodRank() < rank && s[0] !in q {
        SkipHead(s, q);
        RankPrefixIsHeaviest(s[1..], q, rank);
        HeadAdds(s, rank, CountRank(q, rank), Budget(q));
      } else {
        HeadExchanged(s, q, rank);
      }
    }
  }

  /** The prefix holding every pod below `rank` and as many of that rank as q weighs at least as much as q. */
  ghost predicate PrefixOutweighs(s: seq<PodInfo>, q: seq<PodInfo>, rank: int) {
    && CountBelow(s, rank) + CountRank(q, rank) <= |s|
    && Budget(q) <= Budget(s[..CountBelow(s, rank) + CountRank(q, rank)])
  }

  lemma HeadExchanged(s: seq<PodInfo>, q: seq<PodInfo>, rank: int)
    requires ByPriority(s) && NonNegative(s)
    requires multiset(q) <= multiset(s) && s != [] && q != []
    requires forall p | p in q :: p.PodRank() <= rank
    requires s[0].PodRank() < rank ==> s[0] in q
    ensures PrefixOutweighs(s, q, rank)
    decreases |s|, 0
  {
    var i := DropOne(s, q);
    HeadIsHeavier(s, q[i]);
    RankPrefixIsHeaviest(s[1..], Without(q, i), rank);
    HeadJoins(s, q, i, rank);
  }

  lemma NothingIsLighter(s: seq<PodInfo>, rank: int)
    requires NonNegative(s)
    ensures CountBelow(s, rank) <= |s| && 0 <= Budget(s[..CountBelow(s, rank)])
  {
    CountBelowIsBounded(s, rank);
    PrefixBudgetMonotone(s, 0, CountBelow(s, rank));
  }

  /** A head of lower rank only adds to the prefix. */
  lemma HeadAdds(s: seq<PodInfo>, rank: int, n: nat, budget: int)
    requires s != [] && s[0].PodRank() < rank && s[0].cpuMillis >= 0
    requires CountBelow(s[1..], rank) + n < |s|
    requires budget <= Budget(s[1..][..CountBelow(s[1..], rank) + n])
    ensures CountBelow(s, rank) + n <= |s|
    ensures budget <= Budget(s[..CountBelow(s, rank) + n])
  {
    var k := CountBelow(s[1..], rank) + n;
    assert CountBelow(s, rank) + n == k + 1;
    PrefixBudgetHead(s, k + 1);
  }

  /** Taking the head of the ordering against the pod at i moves the prefix by one. */
  lemma HeadJoins(s: seq<PodInfo>, q: seq<PodInfo>, i: nat, rank: int)
    requires s != [] && i < |q|
    requires q[i] == s[0] || s[0].PodRank() >= rank
    requires s[0].PodRank() <= q[i].PodRank() <= rank && q[i].cpuMillis <= s[0].cpuMillis
    requires Budget(q) == q[i].cpuMillis + Budget(Without(q, i))
    requires CountBelow(s[1..], rank) + CountRank(Without(q, i), rank) < |s|
    requires Budget(Without(q, i)) <= Budget(s[1..][..CountBelow(s[1..], rank) + CountRank(Without(q, i), rank)])
    ensures CountBelow(s, rank) + CountRank(q, rank) <= |s|
    ensures Budget(q) <= Budget(s[..CountBelow(s, rank) + CountRank(q, rank)])
  {
    CountRankWithout(q, i, rank);
    var n := CountBelow(s[1..], rank) + CountRank(Without(q, i), rank);
    assert CountBelow(s, rank) + CountRank(q, rank) == n + 1;
    PrefixBudgetHead(s, n + 1);
  }

  lemma PrefixBudgetHead(s: seq<PodInfo>, n: nat)
    requires 1 <= n <= |s|
    ensures Budget(s[..n]) == s[0].cpuMillis + Budget(s[1..][..n - 1])
  {
    assert s[..n][1..] == s[1..][..n - 1];
  }

  lemma MemberOfSuper(s: seq<PodInfo>, q: seq<PodInfo>, p: PodInfo)
    requires multiset(q) <= multiset(s) && p in q
    ensures p in s && s[0] in s
    ensures forall x | x in s[1..] :: x in s
  {
    assert p in multiset(q);
    assert p in multiset(s);
  }

  lemma SkipHead(s: seq<PodInfo>, q: seq<PodInfo>)
    requires s != [] && s[0] !in q && multiset(q) <= multiset(s)
    ensures multiset(q) <= multiset(s[1..])
  {
    assert s == [s[0]] + s[1..];
    assert forall p :: multiset(q)[p] <= multiset(s[1..])[p];
  }

  /** The first pod of the ordering has the least rank, and the largest budget of that rank. */
  lemma HeadIsHeavier(s: seq<PodInfo>, p: PodInfo)
    requires ByPriority(s) && p in s
    ensures s[0].PodRank() <= p.PodRank()
    ensures s[0].PodRank() == p.PodRank() ==> s[0].cpuMillis >= p.cpuMillis
  {
    var j :| 0 <= j < |s| && s[j] == p;
  }

  lemma {:induction false} CountBelowIsBounded(s: seq<PodInfo>, rank: int)
    ensures CountBelow(s, rank) <= |s|
  {
    if s != [] {
      CountBelowIsBounded(s[1..], rank);
    }
  }

  /** In an ordering by rank, a prefix ending in rank m holds every pod below m. */
  lemma {:induction false} PrefixSplitsByRank(s: seq<PodInfo>, k: nat, rank: int)
    requires ByPriority(s) && 1 <= k <= |s| && s[k - 1].PodRank() == rank
    ensures k == CountBelow(s, rank) + CountRank(s[..k], rank)
    decreases k
  {
    assert s[..k][1..] == s[1..][..k - 1];
    if k > 1 {
      assert !Before(s[k - 1], s[0]);
      PrefixSplitsByRank(s[1..], k - 1, rank);
    } else {
      assert CountRank(s[..1][1..], rank) == 0;
      assert forall p | p in s[1..] :: p.PodRank() >= rank by {
        forall p | p in s[1..]
          ensures p.PodRank() >= rank
        {
          var j :| 1 <= j < |s| && s[j] == p;
          assert !Before(s[j], s[0]);
        }
      }
      NothingBelow(s[1..], rank);
    }
  }

  lemma {:induction false} NothingBelow(s: seq<PodInfo>, rank: int)
    requires forall p | p in s :: p.PodRank() >= rank
    ensures CountBelow(s, rank) == 0
  {
    if s != [] {
      NothingBelow(s[1..], rank);
    }
  }

  /** Partial optimality. Let m be the top rank the greedy pass touches. Every covering sub-collection
      holds a pod of rank at least m, and one confined to ranks up to m holds at least as many pods of
      rank m as the greedy result. */
  lemma GreedyIsRankOptimal(candidates: seq<PodInfo>, needed: real, chosen: seq<PodInfo>, q: seq<PodInfo>)
    requires IsGreedy(multiset(candidates), needed, chosen)
    requires NonNegative(candidates)
    requires needed > 0.0 && Budget(candidates) as real >= needed
    requires multiset(q) <= multiset(candidates) && Budget(q) as real >= needed
    ensures chosen != []
    ensures exists p :: p in q && p.PodRank() >= chosen[|chosen| - 1].PodRank()
    ensures (forall p | p in q :: p.PodRank() <= chosen[|chosen| - 1].PodRank())
            ==> CountRank(q, chosen[|chosen| - 1].PodRank()) >= CountRank(chosen, chosen[|chosen| - 1].PodRank())
  {
    var s :| GreedyVia(s, multiset(candidates), needed, chosen);
    GreedyCovers(candidates, needed, chosen);
    SubsetOfPermutation(s, candidates);
    var m := chosen[|chosen| - 1].PodRank();
    assert s[..|chosen| - 1] == chosen[..|chosen| - 1];
    if (forall p | p in q :: p.PodRank() <= m) && CountRank(q, m) < CountRank(chosen, m) {
      FewerOfTopRankIsLighter(s, |chosen|, q, m);
      assert false;
    }
    if forall p | p in q :: p.PodRank() < m {
      NoneOfRank(q, m);
      NoneBut(chosen, m);
      FewerOfTopRankIsLighter(s, |chosen|, q, m);
      assert false;
    }
  }

  /** A sub-collection of ranks up to m, with fewer pods of rank m than the prefix of k pods ending in
      rank m, weighs no more than that prefix without its last pod. */
  lemma FewerOfTopRankIsLighter(s: seq<PodInfo>, k: int, q: seq<PodInfo>, m: int)
    requires ByPriority(s) && NonNegative(s) && multiset(q) <= multiset(s)
    requires 1 <= k <= |s| && s[k - 1].PodRank() == m
    requires forall p | p in q :: p.PodRank() <= m
    requires CountRank(q, m) < CountRank(s[..k], m)
    ensures Budget(q) <= Budget(s[..k - 1])
  {
    PrefixSplitsByRank(s, k, m);
    RankPrefixIsHeaviest(s, q, m);
    PrefixBudgetMonotone(s, CountBelow(s, m) + CountRank(q, m), k - 1);
  }

  lemma SubsetOfPermutation(s: seq<PodInfo>, t: seq<PodInfo>)
    requires multiset(s) == multiset(t)
    ensures NonNegative(t) ==> NonNegative(s)
  {
    forall p | p in s
      ensures p in t
    {
      assert p in multiset(s);
    }
  }

  lemma {:induction false} NoneOfRank(q: seq<PodInfo>, rank: int)
    requires forall p | p in q :: p.PodRank() != rank
    ensures CountRank(q, rank) == 0
  {
    if q != [] {
      NoneOfRank(q[1..], rank);
    }
  }

  lemma NoneBut(chosen: seq<PodInfo>, rank: int)
    requires chosen != [] && chosen[|chosen| - 1].PodRank() == rank
    ensures CountRank(chosen, rank) >= 1
  {
    var k := |chosen| - 1;
    assert chosen == chosen[..k] + [chosen[k]];
    CountRankConcat(chosen[..k], [chosen[k]], rank);
  }

  lemma {:induction false} AllOfRank(q: seq<PodInfo>, rank: int)
    requires forall p | p in q :: p.PodRank() == rank
    ensures CountRank(q, rank) == |q|
  {
    if q != [] {
      AllOfRank(q[1..], rank);
    }
  }

  /** Within one criticality class the greedy result is a minimum-cardinality cover. */
  lemma GreedyIsMinimumInOneClass(candidates: seq<PodInfo>, needed: real, chosen: seq<PodInfo>,
                                  q: seq<PodInfo>, rank: int)
    requires IsGreedy(multiset(candidates), needed, chosen)
    requires NonNegative(candidates)
    requires forall p | p in candidates :: p.PodRank() == rank
    requires needed > 0.0
    requires multiset(q) <= multiset(candidates) && Budget(q) as real >= needed
    ensures |q| >= |chosen|
  {
    ghost var total := Budget(candidates) as real;
    SubcollectionWeighsLess(candidates, q);
    GreedyIsRankOptimal(candidates, needed, chosen, q);
    GreedyCovers(candidates, needed, chosen);
    forall p | p in q
      ensures p in candidates
    {
      assert p in multiset(q);
    }
    forall p | p in chosen
      ensures p in candidates
    {
      assert p in multiset(chosen);
    }
    assert chosen[|chosen| - 1] in chosen;
    AllOfRank(q, rank);
    AllOfRank(chosen, rank);
  }

  lemma {:induction false} SubcollectionWeighsLess(s: seq<PodInfo>, q: seq<PodInfo>)
    requires NonNegative(s) && multiset(q) <= multiset(s)
    ensures Budget(q) <= Budget(s) && |q| <= |s|
    decreases |s|
  {
    if q == [] {
      assert s[..0] == [] && s[..|s|] == s;
      PrefixBudgetMonotone(s, 0, |s|);
    } else {
      MemberOfSuper(s, q, q[0]);
      var i := DropOne(s, q);
      SubcollectionWeighsLess(s[1..], Without(q, i));
      if s[0] !in q {
        SkipHead(s, q);
        SubcollectionWeighsLess(s[1..], q);
      }
    }
  }
}
