/** `surveyAvgPrejudice`: the mean prejudice of the city's residents. */
module Statistics {

  import opened Options
  import opened Agents
  import opened Survey
  import opened Relocation

  /** The prejudice a tract contributes: its resident's, or nothing. */
  function PrejudiceOf(t: Tract): real
  {
    if t.resident.Some? then t.resident.value.prejudice else 0.0
  }

  /** `aggregatePrejudice`: the residents' prejudices added up. */
  function SumPrejudice(tracts: seq<Tract>): real
  {
    if |tracts| == 0 then 0.0
    else SumPrejudice(tracts[..|tracts| - 1]) + PrejudiceOf(tracts[|tracts| - 1])
  }

  /** `aggregatePrejudice / sum(availability)`: `None` when no tract is
      flagged filled, where the source divides by zero. */
  function AvgPrejudice(tracts: seq<Tract>): (r: Option<real>)
    ensures r.None? <==> CountTrue(SurveyAvailability(tracts)) == 0
    ensures r.Some? ==> r.value * CountTrue(SurveyAvailability(tracts)) as real == SumPrejudice(tracts)
  {
    var population := CountTrue(SurveyAvailability(tracts));
    if population == 0 then None else Some(Ratio(SumPrejudice(tracts), population))
  }

  lemma SumPrejudiceBounds(tracts: seq<Tract>)
    requires ValidResidents(tracts)
    ensures 0.0 <= SumPrejudice(tracts) <= MaxPrejudice * Population(tracts) as real
  {
    SumPrejudicePrefixBounds(tracts, |tracts|);
    assert tracts[..|tracts|] == tracts;
  }

  /** The prejudices of the first `k` tracts' residents add up to at most
      the largest prejudice once per resident. */
  lemma {:induction false} SumPrejudicePrefixBounds(tracts: seq<Tract>, k: nat)
    requires ValidResidents(tracts) && k <= |tracts|
    ensures 0.0 <= SumPrejudice(tracts[..k]) <= MaxPrejudice * |ResidentsOfFirst(tracts, k)| as real
    decreases k
  {
    if k > 0 {
      SumPrejudicePrefixBounds(tracts, k - 1);
      assert tracts[..k][..k - 1] == tracts[..k - 1];
    }
  }

  /** With consistent flags and at least one agent, the mean prejudice is
      defined and lies in the range prejudices are drawn from. */
  lemma AvgPrejudiceBounds(tracts: seq<Tract>)
    requires AllConsistent(tracts) && ValidResidents(tracts)
    requires Population(tracts) > 0
    ensures AvgPrejudice(tracts).Some?
    ensures 0.0 <= AvgPrejudice(tracts).value <= MaxPrejudice
  {
    AvailabilityCountsPopulation(tracts);
    SumPrejudiceBounds(tracts);
    MeanBounds(SumPrejudice(tracts), Population(tracts) as real, AvgPrejudice(tracts).value, MaxPrejudice);
  }

  /** Replacing one tract changes the prejudice total by exactly that
      tract's contribution. */
  lemma {:induction false} SumPrejudiceUpdate(tracts: seq<Tract>, i: nat, t: Tract)
    requires i < |tracts|
    ensures SumPrejudice(tracts[i := t]) + PrejudiceOf(tracts[i]) == SumPrejudice(tracts) + PrejudiceOf(t)
    decreases |tracts|
  {
    var last := |tracts| - 1;
    var u := tracts[i := t];
    if i == last {
      assert u[..last] == tracts[..last];
    } else {
      assert u[..last] == tracts[..last][i := t];
      SumPrejudiceUpdate(tracts[..last], i, t);
    }
  }

  /** Moving an agent changes neither the prejudice total nor the mean
      prejudice. */
  lemma RelocateKeepsAvgPrejudice(tracts: seq<Tract>, origin: nat, destination: nat)
    requires AllConsistent(tracts)
    requires origin < |tracts| && destination < |tracts|
    requires tracts[origin].resident.Some? && tracts[destination].resident.None?
    ensures origin != destination
    ensures SumPrejudice(Relocate(tracts, origin, destination)) == SumPrejudice(tracts)
    ensures AvgPrejudice(Relocate(tracts, origin, destination)) == AvgPrejudice(tracts)
  {
    var mover := Tract(true, tracts[origin].resident);
    var middle := tracts[destination := mover];
    var after := middle[origin := Tract(false, None)];
    assert after == Relocate(tracts, origin, destination);
    SumPrejudiceUpdate(tracts, destination, mover);
    assert middle[origin] == tracts[origin];
    SumPrejudiceUpdate(middle, origin, Tract(false, None));
    RelocateConservesResidents(tracts, origin, destination);
    RelocateKeepsInvariants(tracts, origin, destination);
    AvailabilityCountsPopulation(tracts);
    AvailabilityCountsPopulation(after);
  }
}
