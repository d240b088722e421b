/** Criticality levels, and the record the CPU pool keeps for one real-time pod. */
module Criticality {

  /** The rank of a criticality string. A name missing from the source's table has rank 0, as a Go
      map lookup yields the zero value. */
  function Rank(criticality: string): nat {
    if criticality == "HIGH" then 2 else if criticality == "MIDDLE" then 1 else 0
  }

  /** The names present in the source's table: the "comma ok" form of the lookup. */
  predicate IsRanked(criticality: string) {
    criticality == "LOW" || criticality == "MIDDLE" || criticality == "HIGH"
  }

  /** Who gives way to whom: HIGH outranks everything else, MIDDLE everything but HIGH and itself, and no
      other name, known or not, outranks anything. */
  lemma OutranksIff(a: string, b: string)
    ensures Rank(a) < Rank(b) <==> (b == "HIGH" && a != "HIGH") || (b == "MIDDLE" && a != "MIDDLE" && a != "HIGH")
  {
  }

  datatype PodInfo = PodInfo(
    name: string,
    podNamespace: string,
    criticality: string,
    cpuMillis: int,
    coreSet: seq<int>)
  {
    function PodRank(): nat {
      Rank(criticality)
    }
  }
}
