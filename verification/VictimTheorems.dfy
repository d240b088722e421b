/** Two further facts about the greedy selection: its outcome does not depend on how the candidates
    were enumerated or on how an unstable sort broke ties, and exactly when it is a smallest cover. */
module VictimTheorems {
  import opened Criticality
  import opened Victims

  // ---------- Independence from enumeration order and from the sort ----------

  /** All that the comparator looks at. */
  datatype Key = Key(rank: nat, millis: int)

  predicate KeyBefore(a: Key, b: Key) {
    if a.rank != b.rank then a.rank < b.rank else a.millis > b.millis
  }

  function KeyOf(p: PodInfo): Key {
    Key(p.PodRank(), p.cpuMillis)
  }

  function Keys(s: seq<PodInfo>): (keys: seq<Key>)
    ensures |keys| == |s|
    ensures forall i | 0 <= i < |s| :: keys[i] == KeyOf(s[i])
  {
    seq(|s|, i requires 0 <= i < |s| => KeyOf(s[i]))
  }

  lemma KeysWithout(t: seq<PodInfo>, i: nat)
    requires i < |t|
    ensures multiset(Keys(t)) == multiset(Keys(Without(t, i))) + multiset{KeyOf(t[i])}
  {
    var keys := Keys(t);
    assert Keys(Without(t, i)) == keys[..i] + keys[i + 1..];
    assert keys == keys[..i] + [keys[i]] + keys[i + 1..];
  }

  lemma {:induction false} KeysOfPermutation(s: seq<PodInfo>, t: seq<PodInfo>)
    requires multiset(s) == multiset(t)
    ensures multiset(Keys(s)) == multiset(Keys(t))
  {
    assert |multiset(s)| == |s| && |multiset(t)| == |t|;
    if s != [] {
      assert s[0] in multiset(t);
      var i :| 0 <= i < |t| && t[i] == s[0];
      WithoutSums(s, 0);
      WithoutSums(t, i);
      KeysOfPermutation(Without(s, 0), Without(t, i));
      KeysWithout(s, 0);
      KeysWithout(t, i);
    }
  }

  ghost predicate KeysOrdered(a: seq<Key>) {
    forall i, j | 0 <= i < j < |a| :: !KeyBefore(a[j], a[i])
  }

  lemma FirstKeyIsLeast(a: seq<Key>, k: Key)
    requires KeysOrdered(a) && k in multiset(a)
    ensures !KeyBefore(k, a[0])
  {
    var i :| 0 <= i < |a| && a[i] == k;
  }

  lemma {:induction false} OrderedKeysAreUnique(a: seq<Key>, b: seq<Key>)
    requires multiset(a) == multiset(b)
    requires KeysOrdered(a) && KeysOrdered(b)
    ensures a == b
  {
    assert |multiset(a)| == |a| && |multiset(b)| == |b|;
    if a != [] {
      assert a[0] in multiset(a) && b[0] in multiset(b);
      FirstKeyIsLeast(a, b[0]);
      FirstKeyIsLeast(b, a[0]);
      assert a == [a[0]] + a[1..] && b == [b[0]] + b[1..];
      assert multiset(a[1..]) == multiset(a) - multiset{a[0]};
      OrderedKeysAreUnique(a[1..], b[1..]);
    }
  }

  lemma {:induction false} TakenDependsOnKeys(s: seq<PodInfo>, t: seq<PodInfo>, needed: real)
    requires Keys(s) == Keys(t)
    ensures Taken(s, needed) == Taken(t, needed)
  {
    assert |s| == |Keys(s)| == |t|;
    if s != [] {
      assert KeyOf(s[0]) == Keys(s)[0] == KeyOf(t[0]);
      assert Keys(s[1..]) == Keys(s)[1..] == Keys(t[1..]);
      TakenDependsOnKeys(s[1..], t[1..], needed - s[0].cpuMillis as real);
    }
  }

  lemma {:induction false} BudgetDependsOnKeys(s: seq<PodInfo>, t: seq<PodInfo>)
    requires Keys(s) == Keys(t)
    ensures |s| == |t| && Budget(s) == Budget(t)
  {
    assert |s| == |Keys(s)| == |t|;
    if s != [] {
      assert KeyOf(s[0]) == Keys(s)[0] == KeyOf(t[0]);
      assert Keys(s[1..]) == Keys(s)[1..] == Keys(t[1..]);
      BudgetDependsOnKeys(s[1..], t[1..]);
    }
  }

  lemma PrioritizedPermutationsAgree(s: seq<PodInfo>, t: seq<PodInfo>, needed: real)
    requires multiset(s) == multiset(t) && ByPriority(s) && ByPriority(t)
    ensures Keys(s) == Keys(t) && Taken(s, needed) == Taken(t, needed)
  {
    KeysOfPermutation(s, t);
    OrderedKeysAreUnique(Keys(s), Keys(t));
    TakenDependsOnKeys(s, t, needed);
  }

  /** Any two outcomes for the same pods agree on how many are chosen, on their ranks and budgets in
      order, and on the budget freed. */
  lemma GreedyIsDeterminedByContents(candidates: multiset<PodInfo>, needed: real,
                                     x: seq<PodInfo>, y: seq<PodInfo>)
    requires IsGreedy(candidates, needed, x) && IsGreedy(candidates, needed, y)
    ensures |x| == |y| && Keys(x) == Keys(y) && Budget(x) == Budget(y)
  {
    var s :| GreedyVia(s, candidates, needed, x);
    var t :| GreedyVia(t, candidates, needed, y);
    PrioritizedPermutationsAgree(s, t, needed);
    var k := Taken(s, needed);
    assert Keys(s[..k]) == Keys(s)[..k] == Keys(t[..k]);
    BudgetDependsOnKeys(x, y);
  }

  // ---------- Which pods a selection may contain ----------

  /** The budget of the pods that strictly precede p. */
  function BudgetAhead(s: seq<PodInfo>, p: PodInfo): int {
    if s == [] then 0 else (if Before(s[0], p) then s[0].cpuMillis else 0) + BudgetAhead(s[1..], p)
  }

  lemma {:induction false} BudgetAheadConcat(a: seq<PodInfo>, b: seq<PodInfo>, p: PodInfo)
    ensures BudgetAhead(a + b, p) == BudgetAhead(a, p) + BudgetAhead(b, p)
  {
    if a == [] {
      assert a + b == b;
    } else {
      assert (a + b)[1..] == a[1..] + b;
      BudgetAheadConcat(a[1..], b, p);
    }
  }

  lemma BudgetAheadWithout(t: seq<PodInfo>, i: nat, p: PodInfo)
    requires i < |t|
    ensures BudgetAhead(t, p) == BudgetAhead(Without(t, i), p) + if Before(t[i], p) then t[i].cpuMillis else 0
  {
    assert t == t[..i] + t[i..];
    BudgetAheadConcat(t[..i], t[i..], p);
    BudgetAheadConcat(t[..i], t[i + 1..], p);
  }

  lemma {:induction false} BudgetAheadPermutation(s: seq<PodInfo>, t: seq<PodInfo>, p: PodInfo)
    requires multiset(s) == multiset(t)
    ensures BudgetAhead(s, p) == BudgetAhead(t, p)
  {
    assert |s| == |multiset(s)| == |multiset(t)| == |t|;
    if s != [] {
      assert s[0] in multiset(t);
      var i :| 0 <= i < |t| && t[i] == s[0];
      WithoutSums(s, 0);
      WithoutSums(t, i);
      BudgetAheadPermutation(Without(s, 0), Without(t, i), p);
      BudgetAheadWithout(s, 0, p);
      BudgetAheadWithout(t, i, p);
    }
  }

  /** p in its place, before its equals. */
  function Insert(s: seq<PodInfo>, p: PodInfo): (t: seq<PodInfo>)
    ensures multiset(t) == multiset(s) + multiset{p}
  {
    if s == [] then [p]
    else if Before(s[0], p) then
      assert s == [s[0]] + s[1..];
      [s[0]] + Insert(s[1..], p)
    else [p] + s
  }

  lemma {:induction false} InsertKeepsOrder(s: seq<PodInfo>, p: PodInfo)
    requires ByPriority(s)
    ensures ByPriority(Insert(s, p))
  {
    if s != [] && Before(s[0], p) {
      InsertKeepsOrder(s[1..], p);
      var rest := Insert(s[1..], p);
      forall q | q in rest
        ensures !Before(q, s[0])
      {
        assert q in multiset(rest);
      }
    } else {
      assert forall q | q in s :: !Before(q, p);
    }
  }

  /** Some order that the comparator accepts. */
  function Arranged(s: seq<PodInfo>): (t: seq<PodInfo>)
    ensures multiset(t) == multiset(s)
  {
    if s == [] then []
    else
      assert s == [s[0]] + s[1..];
      Insert(Arranged(s[1..]), s[0])
  }

  lemma {:induction false} ArrangedInOrder(s: seq<PodInfo>)
    ensures ByPriority(Arranged(s))
  {
    if s != [] {
      ArrangedInOrder(s[1..]);
      InsertKeepsOrder(Arranged(s[1..]), s[0]);
    }
  }

  lemma {:induction false} InsertedIsTaken(s: seq<PodInfo>, p: PodInfo, needed: real)
    requires NonNegative(s) && BudgetAhead(s, p) as real < needed
    ensures p in Insert(s, p)[..Taken(Insert(s, p), needed)]
  {
    var t := Insert(s, p);
    if s != [] && Before(s[0], p) {
      BudgetAheadNonNegative(s[1..], p);
      InsertedIsTaken(s[1..], p, needed - s[0].cpuMillis as real);
      var rest := Insert(s[1..], p);
      var k := Taken(rest, needed - s[0].cpuMillis as real);
      assert t[1..] == rest;
      assert t[..1 + k] == [s[0]] + rest[..k];
    } else {
      assert t[0] == p;
    }
  }

  lemma {:induction false} BudgetAheadNonNegative(s: seq<PodInfo>, p: PodInfo)
    requires NonNegative(s)
    ensures BudgetAhead(s, p) >= 0
  {
    if s != [] {
      assert s[0] in s;
      BudgetAheadNonNegative(s[1..], p);
    }
  }

  lemma {:induction false} TakenHasLittleAhead(s: seq<PodInfo>, p: PodInfo, needed: real)
    requires NonNegative(s) && ByPriority(s) && needed > 0.0
    requires p in s[..Taken(s, needed)]
    ensures (BudgetAhead(s, p) as real) < needed
  {
    var k := Taken(s, needed);
    if s[0] == p {
      NothingAheadOfFirst(s, p);
    } else {
      var i :| 0 <= i < k && s[i] == p;
      assert s[1..][i - 1] == p;
      assert p in s[1..][..k - 1];
      TakenHasLittleAhead(s[1..], p, needed - s[0].cpuMillis as real);
    }
  }

  lemma {:induction false} NothingAheadOfFirst(s: seq<PodInfo>, p: PodInfo)
    requires forall q | q in s :: !Before(q, p)
    ensures BudgetAhead(s, p) == 0
  {
    if s != [] {
      NothingAheadOfFirst(s[1..], p);
    }
  }

  /** A candidate can be among the victims exactly when the candidates strictly before it do not cover the
      need. */
  lemma MayBeChosenIff(candidates: seq<PodInfo>, needed: real, p: PodInfo)
    requires NonNegative(candidates) && needed > 0.0 && p in candidates
    ensures (exists chosen :: IsGreedy(multiset(candidates), needed, chosen) && p in chosen) <==>
            (BudgetAhead(candidates, p) as real) < needed
  {
    forall chosen | IsGreedy(multiset(candidates), needed, chosen) && p in chosen
      ensures (BudgetAhead(candidates, p) as real) < needed
    {
      var s :| GreedyVia(s, multiset(candidates), needed, chosen);
      assert forall q | q in s :: q in multiset(s);
      BudgetAheadPermutation(s, candidates, p);
      TakenHasLittleAhead(s, p, needed);
    }
    if (BudgetAhead(candidates, p) as real) < needed {
      var _ := SelectionWith(candidates, needed, p);
    }
  }

  lemma SelectionWith(candidates: seq<PodInfo>, needed: real, p: PodInfo) returns (chosen: seq<PodInfo>)
    requires NonNegative(candidates) && p in candidates && (BudgetAhead(candidates, p) as real) < needed
    ensures IsGreedy(multiset(candidates), needed, chosen) && p in chosen
  {
    var i :| 0 <= i < |candidates| && candidates[i] == p;
    WithoutSums(candidates, i);
    var others := Arranged(Without(candidates, i));
    ArrangedInOrder(Without(candidates, i));
    InsertKeepsOrder(others, p);
    var s := Insert(others, p);
    assert forall q | q in others :: q in multiset(others) && q in multiset(candidates);
    BudgetAheadPermutation(others, Without(candidates, i), p);
    BudgetAheadWithout(candidates, i, p);
    InsertedIsTaken(others, p, needed);
    chosen := s[..Taken(s, needed)];
    assert GreedyVia(s, multiset(candidates), needed, chosen);
  }

  // ---------- When the selection is a smallest cover ----------

  ghost predicate LargestFirst(t: seq<PodInfo>) {
    forall i, j | 0 <= i < j < |t| :: t[i].cpuMillis >= t[j].cpuMillis
  }

  lemma {:induction false} LargestPrefixIsHeaviest(t: seq<PodInfo>, q: seq<PodInfo>)
    requires LargestFirst(t) && multiset(q) <= multiset(t)
    ensures |q| <= |t| && Budget(q) <= Budget(t[..|q|])
    decreases |t|
  {
    if q != [] {
      MemberOfSuper(t, q, q[0]);
      var i := DropOne(t, q);
      var j :| 0 <= j < |t| && t[j] == q[i];
      LargestPrefixIsHeaviest(t[1..], Without(q, i));
      PrefixBudgetHead(t, |q|);
    }
  }

  /** No covering sub-collection of the candidates has fewer than `size` pods. */
  ghost predicate SmallestCoverHas(candidates: seq<PodInfo>, needed: real, size: nat) {
    forall q: seq<PodInfo> | multiset(q) <= multiset(candidates) && Budget(q) as real >= needed :: |q| >= size
  }

  /** Which candidates make the selection a smallest cover: exactly those where the shortest covering
      prefix in priority order is as long as the shortest one in the order of budgets, largest first. */
  lemma GreedyIsSmallestCoverIff(candidates: seq<PodInfo>, needed: real, chosen: seq<PodInfo>,
                                 s: seq<PodInfo>, t: seq<PodInfo>)
    requires IsGreedy(multiset(candidates), needed, chosen)
    requires NonNegative(candidates) && needed > 0.0 && Budget(candidates) as real >= needed
    requires multiset(s) == multiset(candidates) && ByPriority(s)
    requires multiset(t) == multiset(candidates) && LargestFirst(t)
    ensures |chosen| == Taken(s, needed)
    ensures SmallestCoverHas(candidates, needed, |chosen|) <==> Taken(t, needed) == Taken(s, needed)
  {
    var u :| GreedyVia(u, multiset(candidates), needed, chosen);
    PrioritizedPermutationsAgree(s, u, needed);
    GreedyCovers(candidates, needed, chosen);
    SubsetOfPermutation(t, candidates);
    CoverHasAtLeast(t, needed, chosen);
    var q := LargestCover(t, candidates, needed);
    if |chosen| == |q| {
      forall x: seq<PodInfo> | multiset(x) <= multiset(candidates) && Budget(x) as real >= needed
        ensures |x| >= |q|
      {
        CoverHasAtLeast(t, needed, x);
      }
    }
  }

  /** The shortest covering prefix of the largest pods is a cover. */
  lemma LargestCover(t: seq<PodInfo>, candidates: seq<PodInfo>, needed: real) returns (q: seq<PodInfo>)
    requires multiset(t) == multiset(candidates) && needed > 0.0 && Budget(candidates) as real >= needed
    ensures multiset(q) <= multiset(candidates) && Budget(q) as real >= needed && |q| == Taken(t, needed)
  {
    BudgetPermutation(t, candidates);
    TakenIsShortestPrefix(t, needed);
    q := t[..Taken(t, needed)];
    assert t == q + t[|q|..];
  }

  /** Any covering sub-collection has as many pods as the shortest prefix of the largest ones. */
  lemma CoverHasAtLeast(t: seq<PodInfo>, needed: real, q: seq<PodInfo>)
    requires LargestFirst(t) && NonNegative(t) && needed > 0.0
    requires multiset(q) <= multiset(t) && Budget(q) as real >= needed
    ensures |q| >= Taken(t, needed)
  {
    LargestPrefixIsHeaviest(t, q);
    ShorterPrefixFails(t, needed, |q|);
  }

  lemma ShorterPrefixFails(t: seq<PodInfo>, needed: real, n: nat)
    requires needed > 0.0
    ensures n < Taken(t, needed) ==> (Budget(t[..n]) as real) < needed
  {
    TakenIsShortestPrefix(t, needed);
    assert t[..0] == [];
  }

  /** It is not always one: criticality comes first, so a small LOW pod is taken although the MIDDLE
      pod that must follow would have been enough alone. */
  lemma GreedyMayExceedSmallestCover(low: PodInfo, middle: PodInfo)
    requires low.criticality == "LOW" && low.cpuMillis == 1
    requires middle.criticality == "MIDDLE" && middle.cpuMillis == 900
    ensures IsGreedy(multiset{low, middle}, 900.0, [low, middle])
    ensures !SmallestCoverHas([low, middle], 900.0, 2)
  {
    var s := [low, middle];
    assert s[1..] == [middle] && [middle][1..] == [];
    assert Taken(s, 900.0) == 2;
    assert s[..2] == s;
    assert GreedyVia(s, multiset{low, middle}, 900.0, s);
    var q := [middle];
    assert Budget(q) == 900 && multiset(q) <= multiset(s);
    assert |q| < 2;
  }
}
