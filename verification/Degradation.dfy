/** Graceful degradation: the reduction of one pod's CPU requests, and where repeating it on the heaviest
    pod of an unchanging tier leads. */
module Degradation {
  import opened GoTypes
  import opened Tiers

  // ---------- One pod ----------

  /** A fifth off, rounded down, but never below the minimum. */
  function Reduced(oldMilli: int): int {
    var newMilli := 4 * oldMilli / 5;
    if newMilli < MIN_MILLI then MIN_MILLI else newMilli
  }

  predicate Requests(c: Container) {
    c.request.Some? && c.request.value != 0
  }

  function DegradedContainer(c: Container): Container {
    if Requests(c) then Container(Some(Reduced(c.request.value))) else c
  }

  function DegradedContainers(cs: seq<Container>): (degraded: seq<Container>)
    ensures |degraded| == |cs|
    ensures forall i | 0 <= i < |cs| :: degraded[i] == DegradedContainer(cs[i])
  {
    seq(|cs|, i requires 0 <= i < |cs| => DegradedContainer(cs[i]))
  }

  function Degraded(p: Pod): Pod {
    p.(containers := DegradedContainers(p.containers))
  }

  lemma DegradedTakesAFifth(pod: Pod)
    ensures Degraded(pod).name == pod.name && Degraded(pod).app == pod.app
    ensures |Degraded(pod).containers| == |pod.containers|
    ensures forall i | 0 <= i < |pod.containers| ::
      IsFifthOff(pod.containers[i].request, Degraded(pod).containers[i].request)
  {
    forall i | 0 <= i < |pod.containers|
      ensures IsFifthOff(pod.containers[i].request, Degraded(pod).containers[i].request)
    {
      if Requests(pod.containers[i]) {
        ReducedBounds(pod.containers[i].request.value);
      }
    }
  }

  predicate Succeeds(pod: Pod, accepted: bool) {
    accepted || forall c | c in pod.containers :: !Requests(c)
  }

  /** A request after a fifth has been taken off: four fifths, rounded down, or ten millicores where that
      would be less; a missing or zero request stays. */
  predicate IsFifthOff(before: Option<int>, after: Option<int>) {
    if before == None || before == Some(0) then after == before
    else
      && after.Some? && after.value >= 10
      && if 4 * before.value >= 50 then 5 * after.value <= 4 * before.value < 5 * after.value + 5
         else after.value == 10
  }

  /** Patches every container that has a CPU request; `accepted` is the API server's answer. With nothing
      to patch there is no call, and the degradation counts as done. */
  method DegradePodRequests(pod: Pod, accepted: bool) returns (ok: bool, after: Pod)
    ensures after == if ok then Degraded(pod) else pod
    ensures ok <==> Succeeds(pod, accepted)
    ensures ok <==> accepted || forall c | c in pod.containers :: c.request == None || c.request == Some(0)
    ensures after.name == pod.name && after.app == pod.app && |after.containers| == |pod.containers|
    ensures ok ==> forall i | 0 <= i < |pod.containers| ::
      IsFifthOff(pod.containers[i].request, after.containers[i].request)
  {
    DegradedTakesAFifth(pod);
    var patched, patches := pod.containers, 0;
    for i := 0 to |pod.containers|
      invariant |patched| == |pod.containers|
      invariant forall j | 0 <= j < i :: patched[j] == DegradedContainer(pod.containers[j])
      invariant forall j | i <= j < |patched| :: patched[j] == pod.containers[j]
      invariant patches == 0 <==> forall c | c in pod.containers[..i] :: !Requests(c)
      invariant patches >= 0
    {
      var c := pod.containers[i];
      if c.request.Some? && c.request.value != 0 {
        var newMilli := 4 * c.request.value / 5;
        if newMilli < MIN_MILLI {
          newMilli := MIN_MILLI;
        }
        patched, patches := patched[i := Container(Some(newMilli))], patches + 1;
      }
      assert pod.containers[..i + 1] == pod.containers[..i] + [c];
    }
    assert pod.containers[..|pod.containers|] == pod.containers;
    assert patched == DegradedContainers(pod.containers);
    if patches == 0 {
      assert patched == pod.containers;
      return true, pod;
    }
    ok := accepted;
    after := if ok then pod.(containers := patched) else pod;
  }

  // ---------- How far a pod is above the minimum ----------

  function Above(c: Container): nat {
    if c.request.Some? && c.request.value > MIN_MILLI then c.request.value - MIN_MILLI else 0
  }

  function PodExcess(cs: seq<Container>): nat {
    if cs == [] then 0 else Above(cs[0]) + PodExcess(cs[1..])
  }

  /** Total request of a pod, as the node's listing computes it. */
  function PodMilli(cs: seq<Container>): int {
    if cs == [] then 0 else (if cs[0].request.Some? then cs[0].request.value else 0) + PodMilli(cs[1..])
  }

  predicate NonNegativeRequests(p: Pod) {
    forall c | c in p.containers && c.request.Some? :: c.request.value >= 0
  }

  /** A reduction never goes below the minimum, is a strict decrease exactly above it, and leaves four
      fifths, less a fraction of a millicore, wherever that is at least the minimum. */
  lemma ReducedBounds(oldMilli: int)
    ensures Reduced(oldMilli) >= MIN_MILLI
    ensures Reduced(oldMilli) < oldMilli <==> oldMilli > MIN_MILLI
    ensures 4 * oldMilli >= 5 * MIN_MILLI ==> 5 * Reduced(oldMilli) <= 4 * oldMilli < 5 * Reduced(oldMilli) + 5
  {
    var q := 4 * oldMilli / 5;
    assert 5 * q <= 4 * oldMilli < 5 * q + 5;
  }

  lemma {:induction false} DegradedExcess(cs: seq<Container>)
    ensures PodExcess(DegradedContainers(cs)) <= PodExcess(cs)
    ensures PodExcess(DegradedContainers(cs)) < PodExcess(cs) <==>
            exists c :: c in cs && c.request.Some? && c.request.value > MIN_MILLI
  {
    if cs != [] {
      assert DegradedContainers(cs)[1..] == DegradedContainers(cs[1..]);
      DegradedExcess(cs[1..]);
      assert cs == [cs[0]] + cs[1..];
    }
  }

  lemma {:induction false} ExcessIffActionable(cs: seq<Container>)
    ensures PodExcess(cs) > 0 <==> exists c :: c in cs && c.request.Some? && c.request.value > MIN_MILLI
  {
    if cs != [] {
      ExcessIffActionable(cs[1..]);
      assert cs == [cs[0]] + cs[1..];
    }
  }

  /** Where nothing is above the minimum, degradation only lifts small requests up to it. */
  lemma {:induction false} IdleDegradation(cs: seq<Container>)
    requires forall c | c in cs && c.request.Some? :: 0 <= c.request.value <= MIN_MILLI
    ensures forall c | c in DegradedContainers(cs) && c.request.Some? :: 0 <= c.request.value <= MIN_MILLI
    ensures PodMilli(DegradedContainers(cs)) >= PodMilli(cs)
  {
    if cs != [] {
      assert DegradedContainers(cs)[1..] == DegradedContainers(cs[1..]);
      assert cs[0] in cs;
      IdleDegradation(cs[1..]);
    }
  }

  lemma {:induction false} MilliCoversContainers(cs: seq<Container>)
    requires forall c | c in cs && c.request.Some? :: c.request.value >= 0
    ensures PodMilli(cs) >= 0
    ensures forall c | c in cs && c.request.Some? :: c.request.value <= PodMilli(cs)
  {
    if cs != [] {
      assert cs[0] in cs;
      MilliCoversContainers(cs[1..]);
      assert cs == [cs[0]] + cs[1..];
    }
  }

  // ---------- An unchanging tier ----------

  ghost predicate DistinctNames(pods: seq<Pod>) {
    forall i, j | 0 <= i < j < |pods| :: pods[i].name != pods[j].name
  }

  /** Requests by pod name. */
  function MilliMap(pods: seq<Pod>): (m: map<string, int>)
    ensures forall p | p in pods :: p.name in m
  {
    if pods == [] then map[]
    else
      var n := |pods| - 1;
      MilliMap(pods[..n])[pods[n].name := PodMilli(pods[n].containers)]
  }

  method ListPodMilliCPU(pods: seq<Pod>) returns (m: map<string, int>)
    ensures m == MilliMap(pods)
  {
    m := map[];
    for k := 0 to |pods|
      invariant m == MilliMap(pods[..k])
    {
      assert pods[..k + 1][..k] == pods[..k];
      var sum := SumRequests(pods[k].containers);
      m := m[pods[k].name := sum];
    }
    assert pods[..|pods|] == pods;
  }

  method SumRequests(cs: seq<Container>) returns (sum: int)
    ensures sum == PodMilli(cs)
  {
    sum := 0;
    for i := 0 to |cs|
      invariant sum + PodMilli(cs[i..]) == PodMilli(cs)
    {
      if cs[i].request.Some? {
        sum := sum + cs[i].request.value;
      }
    }
  }

  lemma {:induction false} MilliMapLookup(pods: seq<Pod>, k: nat)
    requires DistinctNames(pods) && k < |pods|
    ensures pods[k].name in MilliMap(pods)
    ensures MilliMap(pods)[pods[k].name] == PodMilli(pods[k].containers)
    decreases |pods|
  {
    var n := |pods| - 1;
    if k < n {
      assert pods[..n][k] == pods[k];
      MilliMapLookup(pods[..n], k);
    }
  }

  /** A tier as the theorems below look at it: different names, no negative requests. */
  ghost predicate TierOK(pods: seq<Pod>) {
    DistinctNames(pods) && forall p | p in pods :: NonNegativeRequests(p)
  }

  /** One degradation of the heaviest pod, under the guard that its total is above the minimum. */
  function DegradeHeaviest(pods: seq<Pod>): (after: seq<Pod>)
    ensures |after| == |pods|
  {
    var k := Highest(pods, MilliMap(pods));
    if k.Some? && MilliMap(pods)[pods[k.value].name] > MIN_MILLI
    then pods[k.value := Degraded(pods[k.value])]
    else pods
  }

  function Repeat(pods: seq<Pod>, n: nat): seq<Pod> {
    if n == 0 then pods else DegradeHeaviest(Repeat(pods, n - 1))
  }

  predicate AnyActionable(pods: seq<Pod>) {
    exists p :: p in pods && IsActionable(p)
  }

  /** The heaviest pod has nothing left to give while another pod has. */
  predicate Stuck(pods: seq<Pod>) {
    var k := Highest(pods, MilliMap(pods));
    AnyActionable(pods) && k.Some? && !IsActionable(pods[k.value])
  }

  function TierExcess(pods: seq<Pod>): nat {
    if pods == [] then 0
    else TierExcess(pods[..|pods| - 1]) + PodExcess(pods[|pods| - 1].containers)
  }

  /** Nothing left to degrade, stuck, or able to go on. */
  datatype Phase = Exhausted | Jammed | Progressing

  function PhaseOf(pods: seq<Pod>): Phase {
    if TierExcess(pods) == 0 then Exhausted
    else
      var k := Highest(pods, MilliMap(pods));
      if k.Some? && PodExcess(pods[k.value].containers) == 0 then Jammed else Progressing
  }

  /** The phase after n degradations of the heaviest pod. */
  function PhaseAfter(pods: seq<Pod>, n: nat): Phase {
    PhaseOf(Repeat(pods, n))
  }

  /** Exhausted: no container above the minimum. Jammed: there is one, but not in the heaviest pod. */
  lemma PhaseMeaning(pods: seq<Pod>)
    ensures PhaseOf(pods) == Exhausted <==> !AnyActionable(pods)
    ensures PhaseOf(pods) == Jammed <==> Stuck(pods)
  {
    TierExcessIffActionable(pods);
    var k := Highest(pods, MilliMap(pods));
    if k.Some? {
      ExcessIffActionable(pods[k.value].containers);
    }
  }

  lemma {:induction false} TierExcessUpdate(pods: seq<Pod>, k: nat, p: Pod)
    requires k < |pods|
    ensures TierExcess(pods[k := p]) == TierExcess(pods) - PodExcess(pods[k].containers) + PodExcess(p.containers)
    decreases |pods|
  {
    var n := |pods| - 1;
    if k < n {
      TierExcessUpdate(pods[..n], k, p);
      assert pods[k := p][..n] == pods[..n][k := p];
    } else {
      assert pods[k := p][..n] == pods[..n];
    }
  }

  lemma DegradedStaysNonNegative(p: Pod)
    requires NonNegativeRequests(p)
    ensures NonNegativeRequests(Degraded(p))
  {
    forall c | c in Degraded(p).containers && c.request.Some?
      ensures c.request.value >= 0
    {
      var i :| 0 <= i < |p.containers| && c == DegradedContainer(p.containers[i]);
      assert p.containers[i] in p.containers;
    }
  }

  lemma StepKeepsTier(pods: seq<Pod>)
    requires TierOK(pods)
    ensures TierOK(DegradeHeaviest(pods))
  {
    var after := DegradeHeaviest(pods);
    forall p | p in after
      ensures NonNegativeRequests(p)
    {
      var i :| 0 <= i < |after| && after[i] == p;
      assert pods[i] in pods;
      DegradedStaysNonNegative(pods[i]);
    }
  }

  /** If anything in the tier can be degraded, a heaviest pod is found and passes the guard. */
  lemma HeaviestIsFound(pods: seq<Pod>)
    requires TierOK(pods) && AnyActionable(pods)
    ensures
      var k := Highest(pods, MilliMap(pods));
      && k.Some? && MilliMap(pods)[pods[k.value].name] > MIN_MILLI
      && IsHighest(pods, MilliMap(pods), k.value)
  {
    var p :| p in pods && IsActionable(p);
    var i :| 0 <= i < |pods| && pods[i] == p;
    MilliMapLookup(pods, i);
    MilliCoversContainers(p.containers);
    HighestIsFirstMaximum(pods, MilliMap(pods));
    assert IsListed(pods[i], MilliMap(pods));
  }

  /** Progress: unless the tier is stuck, each degradation strictly lowers the total above the minimum. */
  lemma StepProgress(pods: seq<Pod>)
    requires TierOK(pods) && AnyActionable(pods)
    ensures TierExcess(DegradeHeaviest(pods)) <= TierExcess(pods)
    ensures TierExcess(DegradeHeaviest(pods)) < TierExcess(pods) <==> !Stuck(pods)
  {
    HeaviestIsFound(pods);
    var k := Highest(pods, MilliMap(pods)).value;
    DegradedExcess(pods[k].containers);
    TierExcessUpdate(pods, k, Degraded(pods[k]));
  }

  /** A stuck tier stays stuck: the same pod is picked again, and gives nothing again. */
  lemma StuckIsForever(pods: seq<Pod>)
    requires TierOK(pods) && Stuck(pods)
    ensures Stuck(DegradeHeaviest(pods))
  {
    HeaviestIsFound(pods);
    var k := Highest(pods, MilliMap(pods)).value;
    var after := DegradeHeaviest(pods);
    var idle := pods[k];
    assert idle in pods;
    assert forall c | c in idle.containers && c.request.Some? :: 0 <= c.request.value <= MIN_MILLI;
    IdleDegradation(idle.containers);
    StepKeepsTier(pods);
    var p :| p in pods && IsActionable(p);
    var i :| 0 <= i < |pods| && pods[i] == p;
    assert after[i] == p;
    SamePick(pods, after, k);
  }

  /** Making only the picked pod heavier does not change the pick. */
  lemma SamePick(pods: seq<Pod>, after: seq<Pod>, k: nat)
    requires DistinctNames(pods) && DistinctNames(after) && k < |pods| == |after|
    requires IsHighest(pods, MilliMap(pods), k)
    requires forall i | 0 <= i < |pods| && i != k :: after[i] == pods[i]
    requires after[k].name == pods[k].name
    requires PodMilli(after[k].containers) >= PodMilli(pods[k].containers)
    ensures Highest(after, MilliMap(after)) == Some(k)
  {
    forall i | 0 <= i < |pods|
      ensures pods[i].name in MilliMap(pods) && MilliMap(pods)[pods[i].name] == PodMilli(pods[i].containers)
      ensures after[i].name in MilliMap(after) && MilliMap(after)[after[i].name] == PodMilli(after[i].containers)
    {
      MilliMapLookup(pods, i);
      MilliMapLookup(after, i);
    }
    HighestIsFirstMaximum(after, MilliMap(after));
    assert after[k] in after && IsListed(after[k], MilliMap(after));
    var j := Highest(after, MilliMap(after)).value;
    assert IsHighest(after, MilliMap(after), j);
    assert IsListed(after[j], MilliMap(after));
    if j != k {
      assert IsListed(pods[j], MilliMap(pods));
    }
  }

  // ---------- Where repetition leads ----------

  lemma {:induction false} RepeatKeepsTier(pods: seq<Pod>, n: nat)
    requires TierOK(pods)
    ensures TierOK(Repeat(pods, n))
  {
    if n > 0 {
      RepeatKeepsTier(pods, n - 1);
      StepKeepsTier(Repeat(pods, n - 1));
    }
  }

  lemma {:induction false} NothingLeftStays(pods: seq<Pod>)
    requires TierOK(pods) && !AnyActionable(pods)
    ensures !AnyActionable(DegradeHeaviest(pods))
  {
    var after := DegradeHeaviest(pods);
    forall p | p in after
      ensures !IsActionable(p)
    {
      var i :| 0 <= i < |after| && after[i] == p;
      assert pods[i] in pods && !IsActionable(pods[i]);
      assert forall c | c in pods[i].containers && c.request.Some? :: 0 <= c.request.value <= MIN_MILLI;
      IdleDegradation(pods[i].containers);
    }
  }

  /** One step: the two final phases stay, and in the third the step counts. */
  lemma StepSummary(before: seq<Pod>, after: seq<Pod>)
    requires TierOK(before) && after == DegradeHeaviest(before)
    ensures TierOK(after)
    ensures PhaseOf(before) != Progressing ==> PhaseOf(after) == PhaseOf(before)
    ensures PhaseOf(before) == Progressing ==> TierExcess(after) < TierExcess(before)
  {
    StepKeepsTier(before);
    PhaseMeaning(before);
    PhaseMeaning(after);
    if !AnyActionable(before) {
      NothingLeftStays(before);
    } else if Stuck(before) {
      StuckIsForever(before);
    } else {
      StepProgress(before);
    }
  }

  /** After n degradations the tier is exhausted or stuck, or each of them has counted. */
  lemma RepeatEndsOrSticks(pods: seq<Pod>, n: nat)
    requires TierOK(pods)
    ensures PhaseAfter(pods, n) == Progressing ==> TierExcess(Repeat(pods, n)) + n <= TierExcess(pods)
  {
    var phase, excess := (k: nat) => PhaseAfter(pods, k), (k: nat) => TierExcess(Repeat(pods, k));
    forall k: nat
      ensures phase(k) != Progressing ==> phase(k + 1) == phase(k)
      ensures phase(k) == Progressing ==> excess(k + 1) < excess(k)
    {
      NextPhase(pods, k);
    }
    EveryStepCounts(phase, excess, n);
    assert Repeat(pods, 0) == pods;
  }

  lemma {:induction false} EveryStepCounts(phase: nat -> Phase, excess: nat -> nat, n: nat)
    requires forall k: nat :: phase(k) != Progressing ==> phase(k + 1) == phase(k)
    requires forall k: nat :: phase(k) == Progressing ==> excess(k + 1) < excess(k)
    ensures phase(n) == Progressing ==> excess(n) + n <= excess(0)
  {
    if n > 0 {
      EveryStepCounts(phase, excess, n - 1);
      assert phase(n - 1) != Progressing ==> phase(n - 1 + 1) == phase(n - 1);
      assert phase(n - 1) == Progressing ==> excess(n - 1 + 1) < excess(n - 1);
    }
  }

  lemma NextPhase(pods: seq<Pod>, n: nat)
    requires TierOK(pods)
    ensures PhaseAfter(pods, n) != Progressing ==> PhaseAfter(pods, n + 1) == PhaseAfter(pods, n)
    ensures PhaseAfter(pods, n) == Progressing ==> TierExcess(Repeat(pods, n + 1)) < TierExcess(Repeat(pods, n))
  {
    RepeatKeepsTier(pods, n);
    StepSummary(Repeat(pods, n), Repeat(pods, n + 1));
  }

  lemma {:induction false} FinalStays(phase: nat -> Phase, n: nat, m: nat)
    requires forall k: nat :: phase(k) != Progressing ==> phase(k + 1) == phase(k)
    requires n <= m && phase(n) != Progressing
    ensures phase(m) == phase(n)
    decreases m
  {
    if n < m {
      FinalStays(phase, n, m - 1);
      assert phase(m - 1 + 1) == phase(m - 1);
    }
  }

  /** Being stuck and being exhausted are both final. */
  lemma FinalPhasesStay(pods: seq<Pod>, n: nat, m: nat)
    requires TierOK(pods) && n <= m && PhaseAfter(pods, n) != Progressing
    ensures PhaseAfter(pods, m) == PhaseAfter(pods, n)
  {
    var phase := (k: nat) => PhaseAfter(pods, k);
    forall k: nat
      ensures phase(k) != Progressing ==> phase(k + 1) == phase(k)
    {
      NextPhase(pods, k);
    }
    FinalStays(phase, n, m);
  }

  lemma {:induction false} TierExcessIffActionable(pods: seq<Pod>)
    ensures TierExcess(pods) > 0 <==> AnyActionable(pods)
    decreases |pods|
  {
    if pods != [] {
      var n := |pods| - 1;
      TierExcessIffActionable(pods[..n]);
      ExcessIffActionable(pods[n].containers);
      ActionableNext(pods[..n], pods[n]);
      assert pods == pods[..n] + [pods[n]];
    }
  }

  lemma ActionableNext(pods: seq<Pod>, p: Pod)
    ensures AnyActionable(pods + [p]) <==> AnyActionable(pods) || IsActionable(p)
  {
    assert forall x :: x in pods + [p] <==> x in pods || x == p;
  }

  /** Every tier ends within as many steps as there are millicores above the minimum, one way or the other. */
  lemma RepeatEnds(pods: seq<Pod>)
    requires TierOK(pods)
    ensures PhaseAfter(pods, TierExcess(pods)) != Progressing
  {
    var n := TierExcess(pods);
    RepeatEndsOrSticks(pods, n);
    TierExcessIffActionable(Repeat(pods, n));
  }

  // ---------- Which tiers converge ----------

  /** A pod is idle when none of its containers is above the minimum. */
  predicate Idle(p: Pod) {
    PodExcess(p.containers) == 0
  }

  function Weight(p: Pod): int {
    PodMilli(p.containers)
  }

  lemma DegradedIdles(p: Pod)
    ensures PodExcess(Degraded(p).containers) <= PodExcess(p.containers)
    ensures !Idle(p) ==> PodExcess(Degraded(p).containers) < PodExcess(p.containers)
  {
    DegradedExcess(p.containers);
    ExcessIffActionable(p.containers);
  }

  /** The least total that a pod shows while it can still be degraded, over its own degradations. */
  function LightestActive(p: Pod): int
    requires !Idle(p)
    decreases PodExcess(p.containers)
  {
    DegradedIdles(p);
    if Idle(Degraded(p)) then Weight(p) else Min(Weight(p), LightestActive(Degraded(p)))
  }

  /** The least total that a pod shows until it is idle, the first idle total included. */
  function Lightest(p: Pod): int
    decreases PodExcess(p.containers)
  {
    DegradedIdles(p);
    if Idle(p) then Weight(p) else Min(Weight(p), Lightest(Degraded(p)))
  }

  function Min(a: int, b: int): int {
    if a <= b then a else b
  }

  /** A total at position j that a total at position k keeps from being picked. */
  predicate Outweighed(milli: int, j: int, milli': int, k: int) {
    milli < milli' || (milli == milli' && k < j)
  }

  /** At its lightest, pod j can still be degraded but pod k, as light as it ever gets, outweighs it. */
  predicate Blocks(pods: seq<Pod>, k: int, j: int) {
    && 0 <= j < |pods| && 0 <= k < |pods| && j != k
    && !Idle(pods[j]) && Outweighed(LightestActive(pods[j]), j, Lightest(pods[k]), k)
  }

  predicate Blocked(pods: seq<Pod>) {
    exists k, j | 0 <= k < |pods| && 0 <= j < |pods| :: Blocks(pods, k, j)
  }

  /** The pick by position, with the totals of the containers: it outweighs all others. */
  lemma PickOutweighs(pods: seq<Pod>, k: nat)
    requires TierOK(pods) && k < |pods| && IsHighest(pods, MilliMap(pods), k)
    ensures forall j | 0 <= j < |pods| && j != k :: Outweighed(Weight(pods[j]), j, Weight(pods[k]), k)
  {
    forall j | 0 <= j < |pods| && j != k
      ensures Outweighed(Weight(pods[j]), j, Weight(pods[k]), k)
    {
      MilliMapLookup(pods, j);
      MilliMapLookup(pods, k);
      assert pods[j] in pods;
      MilliCoversContainers(pods[j].containers);
      assert IsListed(pods[j], MilliMap(pods));
    }
  }

  /** Degrading the pick, if it can be degraded, neither makes nor removes a block. */
  lemma BlocksStays(pods: seq<Pod>, pick: nat, k: int, j: int)
    requires pick < |pods| && !Idle(pods[pick])
    requires forall i | 0 <= i < |pods| && i != pick :: Outweighed(Weight(pods[i]), i, Weight(pods[pick]), pick)
    ensures Blocks(pods[pick := Degraded(pods[pick])], k, j) <==> Blocks(pods, k, j)
  {
  }

  lemma BlockedStays(pods: seq<Pod>)
    requires TierOK(pods) && PhaseOf(pods) == Progressing
    ensures Blocked(DegradeHeaviest(pods)) <==> Blocked(pods)
  {
    TierExcessIffActionable(pods);
    HeaviestIsFound(pods);
    var pick := Highest(pods, MilliMap(pods)).value;
    PickOutweighs(pods, pick);
    forall k, j
      ensures Blocks(DegradeHeaviest(pods), k, j) <==> Blocks(pods, k, j)
    {
      BlocksStays(pods, pick, k, j);
    }
  }

  /** A jammed tier is blocked, by the idle pod that is picked; an exhausted one is not. */
  lemma FinalPhaseShowsBlock(pods: seq<Pod>)
    requires TierOK(pods) && PhaseOf(pods) != Progressing
    ensures PhaseOf(pods) == Jammed <==> Blocked(pods)
  {
    PhaseMeaning(pods);
    if AnyActionable(pods) {
      var p :| p in pods && IsActionable(p);
      var j :| 0 <= j < |pods| && pods[j] == p;
      ExcessIffActionable(p.containers);
      HeaviestIsFound(pods);
      var pick := Highest(pods, MilliMap(pods)).value;
      PickOutweighs(pods, pick);
      assert LightestActive(pods[j]) <= Weight(pods[j]);
      assert Blocks(pods, pick, j);
    } else {
      forall i | 0 <= i < |pods|
        ensures Idle(pods[i])
      {
        assert pods[i] in pods;
        ExcessIffActionable(pods[i].containers);
      }
    }
  }

  lemma BlockedStep(before: seq<Pod>, after: seq<Pod>)
    requires TierOK(before) && after == DegradeHeaviest(before)
    ensures Blocked(after) <==> Blocked(before)
  {
    if PhaseOf(before) == Progressing {
      BlockedStays(before);
    } else {
      StepSummary(before, after);
      FinalPhaseShowsBlock(before);
      FinalPhaseShowsBlock(after);
    }
  }

  lemma {:induction false} NeverChanges(f: nat -> bool, n: nat)
    requires forall k: nat :: f(k + 1) <==> f(k)
    ensures f(n) <==> f(0)
  {
    if n > 0 {
      NeverChanges(f, n - 1);
      assert f(n - 1 + 1) <==> f(n - 1);
    }
  }

  /** Whatever is degraded, being blocked does not change. */
  lemma BlockedForGood(pods: seq<Pod>, n: nat)
    requires TierOK(pods)
    ensures Blocked(Repeat(pods, n)) <==> Blocked(pods)
  {
    var blocked := (k: nat) => Blocked(Repeat(pods, k));
    forall k: nat
      ensures blocked(k + 1) <==> blocked(k)
    {
      BlockedNext(pods, k);
    }
    NeverChanges(blocked, n);
    assert Repeat(pods, 0) == pods;
  }

  lemma BlockedNext(pods: seq<Pod>, n: nat)
    requires TierOK(pods)
    ensures Blocked(Repeat(pods, n + 1)) <==> Blocked(Repeat(pods, n))
  {
    RepeatKeepsTier(pods, n);
    BlockedStep(Repeat(pods, n), Repeat(pods, n + 1));
  }

  /** Which tiers converge, from each pod's own degradations: repeated degradation exhausts the tier, within
      as many steps as there are millicores above the minimum, if and only if no pod, at the least total it
      shows while it can still be degraded, is outweighed by the least total of another. */
  lemma DegradationConvergesIff(pods: seq<Pod>)
    requires TierOK(pods)
    ensures (exists n: nat :: PhaseAfter(pods, n) == Exhausted) <==> !Blocked(pods)
    ensures PhaseAfter(pods, TierExcess(pods)) == if Blocked(pods) then Jammed else Exhausted
  {
    forall n: nat | PhaseAfter(pods, n) != Progressing
      ensures PhaseAfter(pods, n) == if Blocked(pods) then Jammed else Exhausted
    {
      RepeatKeepsTier(pods, n);
      FinalPhaseShowsBlock(Repeat(pods, n));
      BlockedForGood(pods, n);
    }
    RepeatEnds(pods);
  }

  // ---------- Two kinds of tiers that converge ----------

  function Requesting(cs: seq<Container>): nat {
    if cs == [] then 0 else (if Requests(cs[0]) then 1 else 0) + Requesting(cs[1..])
  }

  lemma {:induction false} DegradedRequesting(cs: seq<Container>)
    ensures Requesting(DegradedContainers(cs)) == Requesting(cs)
  {
    if cs != [] {
      assert DegradedContainers(cs)[1..] == DegradedContainers(cs[1..]);
      DegradedRequesting(cs[1..]);
    }
  }

  /** An idle pod totals at most the minimum for each requesting container. */
  lemma {:induction false} IdleTotal(cs: seq<Container>)
    requires PodExcess(cs) == 0
    ensures PodMilli(cs) <= MIN_MILLI * Requesting(cs)
  {
    if cs != [] {
      IdleTotal(cs[1..]);
    }
  }

  lemma {:induction false} LightestIsLow(p: Pod)
    ensures Lightest(p) <= MIN_MILLI * Requesting(p.containers)
    decreases PodExcess(p.containers)
  {
    DegradedIdles(p);
    if Idle(p) {
      IdleTotal(p.containers);
    } else {
      LightestIsLow(Degraded(p));
      DegradedRequesting(p.containers);
    }
  }

  /** Every requesting container is at the minimum or above. */
  predicate AtLeastMinimum(p: Pod) {
    forall c | c in p.containers && Requests(c) :: c.request.value >= MIN_MILLI
  }

  lemma {:induction false} FullTotal(cs: seq<Container>)
    requires forall c | c in cs && Requests(c) :: c.request.value >= MIN_MILLI
    ensures PodMilli(cs) == MIN_MILLI * Requesting(cs) + PodExcess(cs)
  {
    if cs != [] {
      assert cs[0] in cs;
      FullTotal(cs[1..]);
    }
  }

  lemma {:induction false} FullPodStaysHeavy(p: Pod)
    requires AtLeastMinimum(p) && !Idle(p)
    ensures LightestActive(p) > MIN_MILLI * Requesting(p.containers)
    decreases PodExcess(p.containers)
  {
    DegradedIdles(p);
    FullTotal(p.containers);
    var d := Degraded(p);
    if !Idle(d) {
      forall c | c in d.containers && Requests(c)
        ensures c.request.value >= MIN_MILLI
      {
        var i :| 0 <= i < |p.containers| && c == DegradedContainer(p.containers[i]);
      }
      FullPodStaysHeavy(d);
      DegradedRequesting(p.containers);
    }
  }

  lemma {:induction false} AnyPodStaysAboveMinimum(p: Pod)
    requires NonNegativeRequests(p) && !Idle(p)
    ensures LightestActive(p) > MIN_MILLI
    decreases PodExcess(p.containers)
  {
    DegradedIdles(p);
    MilliCoversContainers(p.containers);
    ExcessIffActionable(p.containers);
    if !Idle(Degraded(p)) {
      DegradedStaysNonNegative(p);
      AnyPodStaysAboveMinimum(Degraded(p));
    }
  }

  ghost predicate SingleRequests(pods: seq<Pod>) {
    forall p | p in pods :: Requesting(p.containers) <= 1
  }

  /** Equally many requesting containers in every pod, all of them at the minimum or above. */
  ghost predicate EqualRequests(pods: seq<Pod>, n: nat) {
    forall p | p in pods :: Requesting(p.containers) == n && AtLeastMinimum(p)
  }

  /** With at most one requesting container per pod, degradation exhausts the tier. */
  lemma SingleRequestsConverge(pods: seq<Pod>)
    requires TierOK(pods) && SingleRequests(pods)
    ensures PhaseAfter(pods, TierExcess(pods)) == Exhausted
  {
    forall k, j
      ensures !Blocks(pods, k, j)
    {
      if Blocks(pods, k, j) {
        assert pods[k] in pods && pods[j] in pods;
        LightestIsLow(pods[k]);
        AnyPodStaysAboveMinimum(pods[j]);
      }
    }
    DegradationConvergesIff(pods);
  }

  /** So it does with equally many requesting containers in every pod, none of them below the minimum. */
  lemma EqualRequestsConverge(pods: seq<Pod>, n: nat)
    requires TierOK(pods) && EqualRequests(pods, n)
    ensures PhaseAfter(pods, TierExcess(pods)) == Exhausted
  {
    forall k, j
      ensures !Blocks(pods, k, j)
    {
      if Blocks(pods, k, j) {
        assert pods[k] in pods && pods[j] in pods;
        LightestIsLow(pods[k]);
        FullPodStaysHeavy(pods[j]);
      }
    }
    DegradationConvergesIff(pods);
  }

  lemma SumOfOne(milli: int)
    ensures PodMilli([Container(Some(milli))]) == milli
  {
    var one := [Container(Some(milli))];
    assert one[1..] == [];
  }

  lemma JammedStays(pods: seq<Pod>)
    requires TierOK(pods) && PhaseOf(pods) == Jammed
    ensures forall n: nat :: PhaseAfter(pods, n) == Jammed
  {
    assert Repeat(pods, 0) == pods;
    forall n: nat
      ensures PhaseAfter(pods, n) == Jammed
    {
      FinalPhasesStay(pods, 0, n);
    }
  }

  /** With several containers it can get stuck at once: ten and ten outweigh fifteen for ever. */
  lemma SeveralContainersMayStick(a: Pod, b: Pod)
    requires a.name != b.name
    requires a.containers == [Container(Some(10)), Container(Some(10))] && b.containers == [Container(Some(15))]
    ensures forall n: nat :: PhaseAfter([a, b], n) == Jammed
  {
    var pods := [a, b];
    SumOfOne(10);
    SumOfOne(15);
    assert a.containers[1..] == [Container(Some(10))];
    assert PodMilli(a.containers) == 20 && PodMilli(b.containers) == 15;
    MilliMapLookup(pods, 0);
    MilliMapLookup(pods, 1);
    HighestIsFirstMaximum(pods, MilliMap(pods));
    assert pods[0] in pods && IsListed(pods[0], MilliMap(pods));
    assert Highest(pods, MilliMap(pods)) == Some(0);
    assert b in pods && b.containers[0] in b.containers;
    PhaseMeaning(pods);
    JammedStays(pods);
  }
}
