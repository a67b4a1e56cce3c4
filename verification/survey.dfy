/** The per-tract surveys the relocation loop reads: `surveyAvailability`
    and `surveyHappiness`, and the list filters and sums built on them. */
module Survey {

  import opened Options
  import opened Agents
  import opened Homogeneities

  /** Python's `sum` over a list of 0/1 flags. */
  function CountTrue(flags: seq<bool>): (c: nat)
    ensures c <= |flags|
  {
    if |flags| == 0 then 0
    else CountTrue(flags[..|flags| - 1]) + (if flags[|flags| - 1] then 1 else 0)
  }

  /** Python's `sum` over a list of reals. */
  function Sum(xs: seq<real>): real
  {
    if |xs| == 0 then 0.0 else Sum(xs[..|xs| - 1]) + xs[|xs| - 1]
  }

  /** The sum of the flags reaches the length exactly when every flag is set. */
  lemma {:induction false} CountTrueFullIff(flags: seq<bool>)
    ensures CountTrue(flags) == |flags| <==> forall k :: 0 <= k < |flags| ==> flags[k]
    decreases |flags|
  {
    if |flags| > 0 {
      var last := |flags| - 1;
      CountTrueFullIff(flags[..last]);
      assert forall k :: 0 <= k < last ==> flags[..last][k] == flags[k];
    }
  }

  /** The sum of the flags is zero exactly when no flag is set. */
  lemma {:induction false} CountTrueZeroIff(flags: seq<bool>)
    ensures CountTrue(flags) == 0 <==> forall k :: 0 <= k < |flags| ==> !flags[k]
    decreases |flags|
  {
    if |flags| > 0 {
      var last := |flags| - 1;
      CountTrueZeroIff(flags[..last]);
      assert forall k :: 0 <= k < last ==> flags[..last][k] == flags[k];
    }
  }

  /** If every unset flag of `a` is set in `b`, then `a` has no more unset
      flags than `b` has set ones. */
  lemma {:induction false} UnsetAtMostSet(a: seq<bool>, b: seq<bool>)
    requires |a| == |b|
    requires forall k :: 0 <= k < |a| && !a[k] ==> b[k]
    ensures |a| - CountTrue(a) <= CountTrue(b)
    decreases |a|
  {
    if |a| > 0 {
      var last := |a| - 1;
      assert forall k :: 0 <= k < last ==> a[..last][k] == a[k] && b[..last][k] == b[k];
      UnsetAtMostSet(a[..last], b[..last]);
    }
  }

  /** A sum of values in [0, 1] that vanish wherever `flags` is unset lies
      between 0 and the number of set flags. */
  lemma {:induction false} SumBoundedByCount(xs: seq<real>, flags: seq<bool>)
    requires |xs| == |flags|
    requires forall k :: 0 <= k < |xs| ==> 0.0 <= xs[k] <= 1.0
    requires forall k :: 0 <= k < |xs| && !flags[k] ==> xs[k] == 0.0
    ensures 0.0 <= Sum(xs) <= CountTrue(flags) as real
    decreases |xs|
  {
    if |xs| > 0 {
      var last := |xs| - 1;
      assert forall k :: 0 <= k < last ==> xs[..last][k] == xs[k] && flags[..last][k] == flags[k];
      SumBoundedByCount(xs[..last], flags[..last]);
    }
  }

  /** `surveyAvailability`: each tract's `filled` flag, in order. */
  function SurveyAvailability(tracts: seq<Tract>): (a: seq<bool>)
    ensures |a| == |tracts|
    ensures forall i :: 0 <= i < |tracts| ==> a[i] == tracts[i].filled
  {
    seq(|tracts|, i requires 0 <= i < |tracts| => tracts[i].filled)
  }

  /** While flags and residents agree, the sum of the availability list is
      the number of agents in the city. */
  lemma AvailabilityCountsPopulation(tracts: seq<Tract>)
    requires AllConsistent(tracts)
    ensures CountTrue(SurveyAvailability(tracts)) == Population(tracts)
  {
    AvailabilityCountsPrefix(tracts, |tracts|);
    assert SurveyAvailability(tracts)[..|tracts|] == SurveyAvailability(tracts);
  }

  /** The filled flags among the first `k` tracts count the residents
      living there. */
  lemma {:induction false} AvailabilityCountsPrefix(tracts: seq<Tract>, k: nat)
    requires AllConsistent(tracts) && k <= |tracts|
    ensures CountTrue(SurveyAvailability(tracts)[..k]) == |ResidentsOfFirst(tracts, k)|
    decreases k
  {
    if k > 0 {
      AvailabilityCountsPrefix(tracts, k - 1);
      assert SurveyAvailability(tracts)[..k][..k - 1] == SurveyAvailability(tracts)[..k - 1];
    }
  }

  /** The homogeneity `surveyHappiness` records for tract `i`: the
      resident's own homogeneity, and the initial 0 for an empty tract. */
  function ResidentHomogeneity(tracts: seq<Tract>, d: nat, i: nat): real
    requires i < |tracts|
  {
    match CurrentHomogeneity(tracts, d, i)
    case None => 0.0
    case Some(h) => h
  }

  /** The happiness `surveyHappiness` records for tract `i`: an empty
      tract keeps the initial 1; a resident is unhappy exactly when its
      homogeneity is below its prejudice. */
  predicate Happy(tracts: seq<Tract>, d: nat, i: nat)
    requires i < |tracts|
  {
    tracts[i].resident.None? || ResidentHomogeneity(tracts, d, i) >= tracts[i].resident.value.prejudice
  }

  /** The two lists `surveyHappiness` fills in. */
  datatype HappinessSurvey = HappinessSurvey(homogeneityToResident: seq<real>, happiness: seq<bool>)

  /** `surveyHappiness`: one homogeneity and one happiness entry per tract. */
  function SurveyHappiness(tracts: seq<Tract>, d: nat): (s: HappinessSurvey)
    ensures |s.homogeneityToResident| == |tracts| && |s.happiness| == |tracts|
    ensures forall i :: 0 <= i < |tracts| ==> s.homogeneityToResident[i] == ResidentHomogeneity(tracts, d, i)
    ensures forall i :: 0 <= i < |tracts| ==> s.happiness[i] == Happy(tracts, d, i)
  {
    HappinessSurvey(
      seq(|tracts|, i requires 0 <= i < |tracts| => ResidentHomogeneity(tracts, d, i)),
      seq(|tracts|, i requires 0 <= i < |tracts| => Happy(tracts, d, i)))
  }

  /** What the survey says about tract `i`: an empty tract has homogeneity
      0 and is happy; an occupied tract carries its resident's homogeneity,
      in [0, 1], and is happy exactly when that meets the resident's
      prejudice. */
  lemma SurveyHappinessMeaning(tracts: seq<Tract>, d: nat, i: nat)
    requires i < |tracts|
    ensures var s := SurveyHappiness(tracts, d);
            && 0.0 <= s.homogeneityToResident[i] <= 1.0
            && (tracts[i].resident.None? ==> s.homogeneityToResident[i] == 0.0 && s.happiness[i])
            && (tracts[i].resident.Some? ==>
                  && s.homogeneityToResident[i] == Homogeneity(tracts, d, i, tracts[i].resident.value.identity)
                  && (s.happiness[i] <==> s.homogeneityToResident[i] >= tracts[i].resident.value.prejudice))
  {
  }

  /** Every tract is happy: the loop's exit condition. */
  predicate Settled(tracts: seq<Tract>, d: nat)
  {
    forall i :: 0 <= i < |tracts| ==> Happy(tracts, d, i)
  }

  /** Agents with no prejudice are happy anywhere, so a city of them is
      settled from the start. */
  lemma NoPrejudiceSettled(tracts: seq<Tract>, d: nat)
    requires forall i :: 0 <= i < |tracts| && tracts[i].resident.Some? ==>
               tracts[i].resident.value.prejudice <= 0.0
    ensures Settled(tracts, d)
  {
    forall i | 0 <= i < |tracts|
      ensures Happy(tracts, d, i)
    {
      SurveyHappinessMeaning(tracts, d, i);
    }
  }

  /** `sum(happiness) == cityLength` is exactly the settled state, so the
      loop test at the head of `executeMoves` detects it. */
  lemma SettledIffFullSum(tracts: seq<Tract>, d: nat)
    ensures Settled(tracts, d) <==> CountTrue(SurveyHappiness(tracts, d).happiness) == |tracts|
  {
    CountTrueFullIff(SurveyHappiness(tracts, d).happiness);
  }

  /** `[i for i, value in enumerate(flags) if value == 0]`: the positions
      of unset flags, in increasing order. */
  function ZeroIndices(flags: seq<bool>): (r: seq<nat>)
    ensures forall k :: 0 <= k < |r| ==> r[k] < |flags| && !flags[r[k]]
    ensures forall i :: 0 <= i < |flags| && !flags[i] ==> i in r
    ensures forall a, b :: 0 <= a < b < |r| ==> r[a] < r[b]
    ensures |r| + CountTrue(flags) == |flags|
    decreases |flags|
  {
    if |flags| == 0 then []
    else
      var last := |flags| - 1;
      var prefix := ZeroIndices(flags[..last]);
      ZeroIndicesExtend(flags, prefix);
      prefix + (if flags[last] then [] else [last])
  }

  /** Appending the last position, when its flag is unset, to the
      positions of the unset flags before it gives those of the whole. */
  lemma ZeroIndicesExtend(flags: seq<bool>, prefix: seq<nat>)
    requires |flags| > 0
    requires forall k :: 0 <= k < |prefix| ==> prefix[k] < |flags| - 1 && !flags[..|flags| - 1][prefix[k]]
    requires forall i :: 0 <= i < |flags| - 1 && !flags[..|flags| - 1][i] ==> i in prefix
    requires forall a, b :: 0 <= a < b < |prefix| ==> prefix[a] < prefix[b]
    requires |prefix| + CountTrue(flags[..|flags| - 1]) == |flags| - 1
    ensures var r := prefix + (if flags[|flags| - 1] then [] else [|flags| - 1]);
            && (forall k :: 0 <= k < |r| ==> r[k] < |flags| && !flags[r[k]])
            && (forall i :: 0 <= i < |flags| && !flags[i] ==> i in r)
            && (forall a, b :: 0 <= a < b < |r| ==> r[a] < r[b])
            && |r| + CountTrue(flags) == |flags|
  {
    var last := |flags| - 1;
    var r := prefix + (if flags[last] then [] else [last]);
    assert forall i :: 0 <= i < last ==> flags[..last][i] == flags[i];
    assert forall k :: 0 <= k < |prefix| ==> r[k] == prefix[k];
  }

  /** `cityLength - sum(happiness)`: the number of unhappy agents, which
      is zero exactly in the settled state. */
  function UnhappyCount(tracts: seq<Tract>, d: nat): (c: nat)
    ensures c == |ZeroIndices(SurveyHappiness(tracts, d).happiness)|
    ensures c == 0 <==> Settled(tracts, d)
  {
    SettledIffFullSum(tracts, d);
    |tracts| - CountTrue(SurveyHappiness(tracts, d).happiness)
  }

  /** Only residents can be unhappy, so the unhappy count never exceeds
      the population. */
  lemma UnhappyAtMostPopulation(tracts: seq<Tract>, d: nat)
    requires AllConsistent(tracts)
    ensures UnhappyCount(tracts, d) <= Population(tracts)
  {
    var s := SurveyHappiness(tracts, d).happiness;
    var a := SurveyAvailability(tracts);
    assert forall i :: 0 <= i < |tracts| && !s[i] ==> a[i];
    UnsetAtMostSet(s, a);
    AvailabilityCountsPopulation(tracts);
  }

  /** `sum(homogeneityToResident) / sum(availability)`: the mean of the
      homogeneity list over the tracts the availability list counts as
      filled, defined only when there is one. */
  function MeanHomogeneity(homogeneity: seq<real>, availability: seq<bool>): (m: real)
    requires CountTrue(availability) > 0
    ensures m * CountTrue(availability) as real == Sum(homogeneity)
  {
    Ratio(Sum(homogeneity), CountTrue(availability))
  }

  /** The mean homogeneity a survey of the city reports. */
  function SurveyMeanHomogeneity(tracts: seq<Tract>, d: nat): real
    requires CountTrue(SurveyAvailability(tracts)) > 0
  {
    MeanHomogeneity(SurveyHappiness(tracts, d).homogeneityToResident, SurveyAvailability(tracts))
  }

  /** With consistent flags the surveyed mean homogeneity lies in [0, 1]. */
  lemma MeanHomogeneityBounds(tracts: seq<Tract>, d: nat)
    requires AllConsistent(tracts)
    requires CountTrue(SurveyAvailability(tracts)) > 0
    ensures 0.0 <= SurveyMeanHomogeneity(tracts, d) <= 1.0
  {
    var s := SurveyHappiness(tracts, d).homogeneityToResident;
    var a := SurveyAvailability(tracts);
    forall i | 0 <= i < |tracts|
      ensures 0.0 <= s[i] <= 1.0 && (!a[i] ==> s[i] == 0.0)
    {
      SurveyHappinessMeaning(tracts, d, i);
    }
    SumBoundedByCount(s, a);
    MeanOfFractions(s, a);
  }

  /** Values in [0, 1] summing to at most the count have a mean in [0, 1]. */
  lemma MeanOfFractions(homogeneity: seq<real>, availability: seq<bool>)
    requires CountTrue(availability) > 0
    requires 0.0 <= Sum(homogeneity) <= CountTrue(availability) as real
    ensures 0.0 <= MeanHomogeneity(homogeneity, availability) <= 1.0
  {
    MeanBounds(Sum(homogeneity), CountTrue(availability) as real, MeanHomogeneity(homogeneity, availability), 1.0);
  }

  /** `total / count` as a real division with a positive divisor. */
  function Ratio(total: real, count: nat): (q: real)
    requires count > 0
    ensures q * count as real == total
  {
    DivisionUndone(total, count as real);
    total / count as real
  }

  lemma DivisionUndone(s: real, c: real)
    requires c > 0.0
    ensures (s / c) * c == s
  {
  }

  lemma SignOfFactor(x: real, c: real)
    requires c > 0.0 && x * c >= 0.0
    ensures x >= 0.0
  {
  }

  /** A mean of values in `[0, bound]` lies in `[0, bound]`: a positive
      count times the mean gives a total between 0 and `bound` per item. */
  lemma MeanBounds(total: real, count: real, mean: real, bound: real)
    requires count > 0.0 && mean * count == total
    requires 0.0 <= total <= bound * count
    ensures 0.0 <= mean <= bound
  {
    assert (bound - mean) * count == bound * count - total;
    SignOfFactor(bound - mean, count);
    SignOfFactor(mean, count);
  }
}
