/** The two admission webhooks: the mutator's core selection, which writes its choice into the custom
    resource, and the validator, which decides on the resource as the API server stores it. */
module Webhooks {
  import opened GoTypes
  import opened Criticality
  import opened Accounting
  import opened CpuPool
  import opened Scheduling
  import opened SchedulingTheorems
  import opened Settings
  import opened CoreSet

  /** The parts of a custom resource that the decisions read. */
  datatype Resource = Resource(node: string, criticality: string, settings: RTSettings, allocatedCore: string)

  /** One copy of a custom resource that has real-time settings. */
  class McKube {
    var node: string
    var criticality: string
    var settings: RTSettings
    var allocatedCore: string

    constructor (value: Resource)
      ensures Value() == value
    {
      node, criticality, settings, allocatedCore :=
        value.node, value.criticality, value.settings, value.allocatedCore;
    }

    function Value(): Resource
      reads this
    {
      Resource(node, criticality, settings, allocatedCore)
    }
  }

  /** What the mutator fills in on the pod under admission. */
  class PodSpec {
    var nodeName: string
    var coreAnnotation: Option<string>

    constructor (nodeName: string)
      ensures this.nodeName == nodeName && coreAnnotation == None
    {
      this.nodeName := nodeName;
      coreAnnotation := None;
    }
  }

  // ---------- The mutator ----------

  /** A resource with a core written in and its node filled in if it was empty. */
  function WithCore(mc: Resource, core: string, nodeName: string): Resource {
    mc.(settings := mc.settings.(core := Some(core)), node := if mc.node == "" then nodeName else mc.node)
  }

  /** Changes the local copy in place, then asks the API server to store the difference. */
  method PatchMcKubeCore(mc: McKube, stored: McKube, core: string, nodeName: string, accepted: bool)
    requires mc != stored && mc.Value() == stored.Value()
    modifies mc, stored
    ensures mc.Value() == WithCore(old(mc.Value()), core, nodeName)
    ensures stored.Value() == if accepted then mc.Value() else old(stored.Value())
  {
    var fillsNode := mc.node == "";
    mc.settings := mc.settings.(core := Some(core));
    if fillsNode {
      mc.node := nodeName;
    }
    if accepted {
      stored.settings := stored.settings.(core := Some(core));
      if fillsNode {
        stored.node := nodeName;
      }
    }
  }

  /** The core-selection block of the mutator. `nodes` is absent when listing them failed; `accepted` says
      whether the API server takes the patch. The search result, when there was a search, is returned for
      the specification. */
  method SelectCore(registry: Registry, mc: McKube, stored: McKube, pod: PodSpec, nodes: Option<seq<Node>>,
                    dryRun: bool, accepted: bool)
    returns (searched: Option<FeasibilityResult>)
    requires registry.Valid()
    requires mc != stored && mc.Value() == stored.Value()
    modifies mc, stored, pod
    ensures searched.Some? <==> old(mc.settings.core).None? && nodes.Some?
    ensures searched.Some? ==>
      SearchOutcome(old(registry.View()), nodes.value, Required(old(mc.settings)), old(mc.criticality), [], searched.value)
    ensures
      if searched.Some? && searched.value.feasible then
        && pod.nodeName == searched.value.nodeName
        && searched.value.coreID >= 0
        && mc.Value() == (if dryRun then old(mc.Value())
                          else WithCore(old(mc.Value()), Written(searched.value.coreID), searched.value.nodeName))
        && stored.Value() == (if !dryRun && accepted then mc.Value() else old(stored.Value()))
      else
        pod.nodeName == old(pod.nodeName) && mc.Value() == old(mc.Value()) && stored.Value() == old(stored.Value())
    ensures pod.coreAnnotation == if mc.settings.core.Some? then mc.settings.core else old(pod.coreAnnotation)
  {
    searched := None;
    if mc.settings.core.None? && nodes.Some? {
      ghost var cluster := registry.View();
      var r := SelectBestNodeAndCore(registry, nodes.value, Required(mc.settings), mc.criticality, []);
      searched := Some(r);
      if r.feasible {
        WinnerIsCoreNumber(registry, cluster, nodes.value, Required(mc.settings), mc.criticality, r);
        var selectedCore := Written(r.coreID);
        pod.nodeName := r.nodeName;
        if !dryRun {
          PatchMcKubeCore(mc, stored, selectedCore, r.nodeName, accepted);
        }
      }
    }
    if mc.settings.core.Some? {
      pod.coreAnnotation := mc.settings.core;
    }
  }

  ghost predicate NumberedCores(cluster: Cluster) {
    forall n, i | HasCore(cluster, n, i) :: 0 <= i <= MAX_INT64
  }

  lemma ConsideredCoreIsNumber(cluster: Cluster, nodes: seq<Node>, n: string, c: int)
    requires NumberedCores(cluster) && Considered(cluster, nodes, [], n, c)
    ensures 0 <= c <= MAX_INT64
  {
    if n in cluster {
      assert HasCore(cluster, n, c);
    }
  }

  lemma WinnerIsCoreNumber(registry: Registry, cluster: Cluster, nodes: seq<Node>, required: real,
                           criticality: string, r: FeasibilityResult)
    requires registry.Valid() && cluster == registry.View()
    requires SearchOutcome(cluster, nodes, required, criticality, [], r) && r.feasible
    ensures 0 <= r.coreID <= MAX_INT64
  {
    ConsideredCoreIsNumber(cluster, nodes, r.nodeName, r.coreID);
  }

  // ---------- The validator ----------

  /** Looking for the pod's custom resource: the listing may fail, or no resource with real-time settings
      names the pod. */
  datatype Lookup = Failed | Absent | Found(mc: Resource)

  datatype Verdict = Allowed | Denied

  /** The core string the validator goes by: the recorded allocation before the requested core. */
  function SelectedCore(mc: Resource): string {
    if mc.allocatedCore != "" then mc.allocatedCore
    else if mc.settings.core.Some? then mc.settings.core.value
    else ""
  }

  /** Node and core are both fixed, so that only this pair is checked. */
  predicate IsFixed(mc: Resource) {
    SelectedCore(mc) != "" && mc.node != ""
  }

  ghost predicate ValidatorOutcome(cluster: Cluster, lookup: Lookup, nodes: Option<seq<Node>>,
                                   verdict: Verdict, victims: seq<string>)
  {
    if !lookup.Found? then verdict.Allowed?
    else if Validate(lookup.mc.settings).Some? then verdict.Denied?
    else if nodes.None? then verdict.Allowed?
    else if IsFixed(lookup.mc) then
      var ids := CoreIDs(SelectedCore(lookup.mc));
      if ids == [] then verdict.Denied?
      else CheckOutcome(cluster, lookup.mc.node, ids[0], Required(lookup.mc.settings), lookup.mc.criticality,
                        verdict.Allowed?, victims)
    else
      exists r :: && SearchOutcome(cluster, nodes.value, Required(lookup.mc.settings), lookup.mc.criticality, [], r)
                  && (verdict.Allowed? <==> r.feasible) && victims == r.victims
  }

  method ValidatorHandle(registry: Registry, lookup: Lookup, nodes: Option<seq<Node>>)
    returns (verdict: Verdict, victims: seq<string>)
    requires registry.Valid()
    ensures ValidatorOutcome(old(registry.View()), lookup, nodes, verdict, victims)
  {
    verdict, victims := Allowed, [];
    if !lookup.Found? {
      return;
    }
    var mc := lookup.mc;
    if Validate(mc.settings).Some? {
      return Denied, [];
    }
    if nodes.None? {
      return;
    }
    var required := Required(mc.settings);
    if SelectedCore(mc) != "" && mc.node != "" {
      var ids := ParseCoreSet(SelectedCore(mc));
      if |ids| == 0 {
        return Denied, [];
      }
      var feasible;
      feasible, victims := CheckNodeCoreFeasibility(registry, mc.node, ids[0], required, mc.criticality);
      verdict := if feasible then Allowed else Denied;
    } else {
      var r := SelectBestNodeAndCore(registry, nodes.value, required, mc.criticality, []);
      verdict, victims := if r.feasible then Allowed else Denied, r.victims;
    }
  }

  /** Room for a pod on a core: the free budget of 950, alone or with what pods of lower rank hold there,
      covers the high budget of its settings. */
  ghost predicate RoomFor(core: Core, s: RTSettings, criticality: string) {
    var lower := PodSum(map name | name in core.pods && Rank(core.pods[name].criticality) < Rank(criticality)
                          :: core.pods[name]);
    Covers(950 - core.usage, s) || Covers(950 - core.usage + lower, s)
  }

  lemma AdmitsIff(core: Core, s: RTSettings, criticality: string)
    requires s.period != 0
    ensures Admits(core, Required(s), criticality) <==> RoomFor(core, s, criticality)
  {
    var lower := map name | name in core.pods && Rank(core.pods[name].criticality) < Rank(criticality)
                   :: core.pods[name];
    assert lower == LowerPods(core.pods, criticality);
    RequiredIff(s, 950 - core.usage);
    RequiredIff(s, 950 - core.usage + PodSum(lower));
  }

  /** The mutator's search succeeds exactly when some considered core has room for the high budget. */
  lemma MutatorFindsIff(cluster: Cluster, nodes: seq<Node>, s: RTSettings, criticality: string, r: FeasibilityResult)
    requires s.period != 0
    requires SearchOutcome(cluster, nodes, Required(s), criticality, [], r)
    ensures r.feasible <==> exists n, c :: Considered(cluster, nodes, [], n, c)
                                           && RoomFor(CoreAt(cluster, n, c), s, criticality)
  {
    forall n, c
      ensures Admits(CoreAt(cluster, n, c), Required(s), criticality) <==>
              RoomFor(CoreAt(cluster, n, c), s, criticality)
    {
      AdmitsIff(CoreAt(cluster, n, c), s, criticality);
    }
  }

  /** The validator's whole verdict on a resource it has found, by the settings and the pools alone. */
  ghost predicate ShouldAllow(cluster: Cluster, mc: Resource, nodes: Option<seq<Node>>) {
    var s := mc.settings;
    var core := if mc.allocatedCore != "" then Some(mc.allocatedCore) else s.core;
    && s.period > 0 && 0 < s.runtimeLow <= s.runtimeHi && 20 * s.runtimeHi <= 19 * s.period && s.core != Some("")
    && (nodes.None?
        || if core.Some? && mc.node != "" then
             && CoreIDs(core.value) != []
             && (mc.node in cluster ==> RoomFor(CoreAt(cluster, mc.node, CoreIDs(core.value)[0]), s, mc.criticality))
           else
             exists n, c :: Considered(cluster, nodes.value, [], n, c) && RoomFor(CoreAt(cluster, n, c), s, mc.criticality))
  }

  /** The validator denies exactly the found resources that should not be allowed; a failed lookup, no
      resource and a failed listing of nodes never deny. */
  lemma ValidatorAllowsIff(cluster: Cluster, lookup: Lookup, nodes: Option<seq<Node>>, verdict: Verdict,
                           victims: seq<string>)
    requires ValidatorOutcome(cluster, lookup, nodes, verdict, victims)
    ensures verdict.Allowed? <==> (lookup.Found? ==> ShouldAllow(cluster, lookup.mc, nodes))
  {
    if lookup.Found? {
      var mc := lookup.mc;
      ValidIff(mc.settings);
      if Validate(mc.settings).None? && nodes.Some? {
        if IsFixed(mc) {
          var ids := CoreIDs(SelectedCore(mc));
          if ids != [] {
            AdmitsIff(CoreAt(cluster, mc.node, ids[0]), mc.settings, mc.criticality);
          }
        } else {
          var r :| SearchOutcome(cluster, nodes.value, Required(mc.settings), mc.criticality, [], r)
                   && (verdict.Allowed? <==> r.feasible);
          MutatorFindsIff(cluster, nodes.value, mc.settings, mc.criticality, r);
        }
      }
    }
  }

  // ---------- The two together ----------

  /** Which pair the validator will check on a resource, if it checks a pair. */
  function CheckedPair(mc: Resource): Option<(string, int)> {
    if IsFixed(mc) && CoreIDs(SelectedCore(mc)) != [] then Some((mc.node, CoreIDs(SelectedCore(mc))[0])) else None
  }

  /** After a stored patch the validator checks exactly the pair the mutator picked if and only if the
      resource named no other node and recorded no allocation that starts with another core. */
  lemma ValidatorChecksPickIff(mc: Resource, nodeName: string, coreID: int)
    requires 0 <= coreID <= MAX_INT64 && nodeName != ""
    ensures CheckedPair(WithCore(mc, Written(coreID), nodeName)) == Some((nodeName, coreID))
       <==> && (mc.node == "" || mc.node == nodeName)
            && (mc.allocatedCore == ""
                || (CoreIDs(mc.allocatedCore) != [] && CoreIDs(mc.allocatedCore)[0] == coreID))
  {
    SingleCoreRoundTrip(coreID);
  }

  lemma PatchedResource(mc: Resource, core: string, nodeName: string)
    requires mc.node == ""
    ensures
      var after := WithCore(mc, core, nodeName);
      && after.node == nodeName && after.criticality == mc.criticality && after.allocatedCore == mc.allocatedCore
      && after.settings.core == Some(core) && Required(after.settings) == Required(mc.settings)
  {
  }

  /** A fixed pair of valid settings is decided by the check of that pair. */
  lemma FixedPairIsChecked(cluster: Cluster, mc: Resource, nodes: seq<Node>, coreID: int,
                           verdict: Verdict, victims: seq<string>)
    requires Validate(mc.settings).None? && IsFixed(mc) && CoreIDs(SelectedCore(mc)) == [coreID]
    requires ValidatorOutcome(cluster, Found(mc), Some(nodes), verdict, victims)
    ensures CheckOutcome(cluster, mc.node, coreID, Required(mc.settings), mc.criticality, verdict.Allowed?, victims)
  {
  }

  /** Mutator and validator agree: on a resource with no node and no allocation, if the search picks a
      pair and the patch is stored, then over the same pools the validator parses back exactly that core,
      admits the pod, and names as many victims, freeing as much. */
  lemma ValidatorConfirmsMutator(cluster: Cluster, mc: Resource, nodes: seq<Node>, r: FeasibilityResult,
                                 verdict: Verdict, victims: seq<string>)
    requires AllWellKeyed(cluster) && NumberedCores(cluster)
    requires mc.node == "" && mc.allocatedCore == "" && mc.settings.core.None? && Validate(mc.settings).None?
    requires SearchOutcome(cluster, nodes, Required(mc.settings), mc.criticality, [], r)
    requires r.feasible && r.nodeName != "" && r.coreID >= 0
    requires ValidatorOutcome(cluster, Found(WithCore(mc, Written(r.coreID), r.nodeName)), Some(nodes), verdict, victims)
    ensures CheckedPair(WithCore(mc, Written(r.coreID), r.nodeName)) == Some((r.nodeName, r.coreID))
    ensures verdict.Allowed? && |victims| == |r.victims|
    ensures
      var core := CoreAt(cluster, r.nodeName, r.coreID);
      FreedBy(core, victims) == FreedBy(core, r.victims)
  {
    var after := WithCore(mc, Written(r.coreID), r.nodeName);
    PatchedResource(mc, Written(r.coreID), r.nodeName);
    ConsideredCoreIsNumber(cluster, nodes, r.nodeName, r.coreID);
    SingleCoreRoundTrip(r.coreID);
    ValidIff(mc.settings);
    ValidIff(after.settings);
    FixedPairIsChecked(cluster, after, nodes, r.coreID, verdict, victims);
    var required := Required(mc.settings);
    assert CheckOutcome(cluster, r.nodeName, r.coreID, required, mc.criticality, verdict.Allowed?, victims);
    CheckConfirmsSearch(cluster, nodes, required, mc.criticality, [], r, verdict.Allowed?, victims);
  }

  /** Conversely, if the validator admits a fixed pair, the mutator's search over any node list with that
      node succeeds, unless the node's pool lacks the core. */
  lemma MutatorConfirmsValidator(cluster: Cluster, mc: Resource, nodes: seq<Node>, node: Node, r: FeasibilityResult,
                                 victims: seq<string>)
    requires CheckedPair(mc).Some? && node in nodes && node.name == mc.node
    requires ValidatorOutcome(cluster, Found(mc), Some(nodes), Allowed, victims)
    requires SearchOutcome(cluster, nodes, Required(mc.settings), mc.criticality, [], r)
    ensures !r.feasible ==> mc.node in cluster && CheckedPair(mc).value.1 !in cluster[mc.node]
  {
    ValidNeedsAtMostOneCore(mc.settings);
    SearchConfirmsCheck(cluster, nodes, Required(mc.settings), mc.criticality, node, CheckedPair(mc).value.1, victims, r);
  }

  /** A pair with a core that the node's pool lacks is always admitted, if the settings are valid, and
      without victims. */
  lemma MissingCoreIsAdmittedIff(cluster: Cluster, mc: Resource, nodes: seq<Node>, verdict: Verdict,
                                 victims: seq<string>)
    requires CheckedPair(mc).Some? && mc.node in cluster && CheckedPair(mc).value.1 !in cluster[mc.node]
    requires ValidatorOutcome(cluster, Found(mc), Some(nodes), verdict, victims)
    ensures verdict.Allowed? <==> Validate(mc.settings).None?
    ensures verdict.Allowed? ==> victims == []
  {
    if Validate(mc.settings).None? {
      ValidNeedsAtMostOneCore(mc.settings);
    }
  }
}
