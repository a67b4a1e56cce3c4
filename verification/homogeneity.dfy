/** Neighbourhood homogeneity: `genHomogeneity`. */
module Homogeneities {

  import opened Options
  import opened Agents
  import opened Neighbors

  /** Every index in `idx` names a tract of the city. */
  predicate IndicesIn(idx: seq<nat>, n: nat)
  {
    forall k :: 0 <= k < |idx| ==> idx[k] < n
  }

  /** `neighborCount`: how many of the listed tracts have a resident. */
  function Occupied(tracts: seq<Tract>, idx: seq<nat>): nat
    requires IndicesIn(idx, |tracts|)
    decreases |idx|
  {
    if |idx| == 0 then 0
    else (if tracts[idx[0]].resident.Some? then 1 else 0) + Occupied(tracts, idx[1..])
  }

  /** `similarCount`: how many of the listed tracts have a resident of
      identity `who`. */
  function Similar(tracts: seq<Tract>, idx: seq<nat>, who: Identity): nat
    requires IndicesIn(idx, |tracts|)
    decreases |idx|
  {
    if |idx| == 0 then 0
    else
      (if tracts[idx[0]].resident.Some? && tracts[idx[0]].resident.value.identity == who then 1 else 0)
      + Similar(tracts, idx[1..], who)
  }

  lemma {:induction false} SimilarAtMostOccupied(tracts: seq<Tract>, idx: seq<nat>, who: Identity)
    requires IndicesIn(idx, |tracts|)
    ensures Similar(tracts, idx, who) <= Occupied(tracts, idx)
    decreases |idx|
  {
    if |idx| > 0 {
      SimilarAtMostOccupied(tracts, idx[1..], who);
    }
  }

  /** No occupied tract among the listed ones, and nothing else, makes the
      occupied count zero. */
  lemma {:induction false} OccupiedZeroIff(tracts: seq<Tract>, idx: seq<nat>)
    requires IndicesIn(idx, |tracts|)
    ensures Occupied(tracts, idx) == 0 <==> forall k :: 0 <= k < |idx| ==> tracts[idx[k]].resident.None?
    decreases |idx|
  {
    if |idx| > 0 {
      OccupiedZeroIff(tracts, idx[1..]);
      assert forall k :: 1 <= k < |idx| ==> idx[1..][k - 1] == idx[k];
    }
  }

  /** No listed tract holds a resident of identity `who` exactly when the
      same-identity count is zero. */
  lemma {:induction false} SimilarZeroIff(tracts: seq<Tract>, idx: seq<nat>, who: Identity)
    requires IndicesIn(idx, |tracts|)
    ensures Similar(tracts, idx, who) == 0 <==>
            forall k :: 0 <= k < |idx| && tracts[idx[k]].resident.Some? ==>
              tracts[idx[k]].resident.value.identity != who
    decreases |idx|
  {
    if |idx| > 0 {
      SimilarZeroIff(tracts, idx[1..], who);
      assert forall k :: 1 <= k < |idx| ==> idx[1..][k - 1] == idx[k];
    }
  }

  /** Every occupied listed tract shares identity `who` exactly when the
      two counts agree. */
  lemma {:induction false} SimilarEqualsOccupiedIff(tracts: seq<Tract>, idx: seq<nat>, who: Identity)
    requires IndicesIn(idx, |tracts|)
    ensures Similar(tracts, idx, who) == Occupied(tracts, idx) <==>
            forall k :: 0 <= k < |idx| && tracts[idx[k]].resident.Some? ==>
              tracts[idx[k]].resident.value.identity == who
    decreases |idx|
  {
    if |idx| > 0 {
      SimilarEqualsOccupiedIff(tracts, idx[1..], who);
      SimilarAtMostOccupied(tracts, idx[1..], who);
      assert forall k :: 1 <= k < |idx| ==> idx[1..][k - 1] == idx[k];
    }
  }

  /** Two cities that agree on the residents of the listed tracts give the
      same counts over them. */
  lemma {:induction false} CountsAgree(t1: seq<Tract>, t2: seq<Tract>, idx: seq<nat>, who: Identity)
    requires IndicesIn(idx, |t1|) && IndicesIn(idx, |t2|)
    requires forall k :: 0 <= k < |idx| ==> t1[idx[k]].resident == t2[idx[k]].resident
    ensures Occupied(t1, idx) == Occupied(t2, idx)
    ensures Similar(t1, idx, who) == Similar(t2, idx, who)
    decreases |idx|
  {
    if |idx| > 0 {
      assert forall k :: 1 <= k < |idx| ==> idx[1..][k - 1] == idx[k];
      CountsAgree(t1, t2, idx[1..], who);
    }
  }

  /** The neighbours of tract `i` in a city of the given size. */
  function NeighborsOf(tracts: seq<Tract>, d: nat, i: nat): (r: seq<nat>)
    requires i < |tracts|
    ensures IndicesIn(r, |tracts|)
  {
    NeighborsIndex(i, d, |tracts|)
  }

  /** `genHomogeneity(tract, identity)`: the share of occupied neighbours
      with identity `who`, and 0 when no neighbour is occupied. The result
      is the exact ratio of the two counts. */
  function Homogeneity(tracts: seq<Tract>, d: nat, i: nat, who: Identity): (h: real)
    requires i < |tracts|
    ensures 0.0 <= h <= 1.0
    ensures Occupied(tracts, NeighborsOf(tracts, d, i)) == 0 ==> h == 0.0
    ensures h * Occupied(tracts, NeighborsOf(tracts, d, i)) as real
            == Similar(tracts, NeighborsOf(tracts, d, i), who) as real
  {
    var nb := NeighborsOf(tracts, d, i);
    var occupied := Occupied(tracts, nb);
    var similar := Similar(tracts, nb, who);
    SimilarAtMostOccupied(tracts, nb, who);
    if occupied != 0 then similar as real / occupied as real else 0.0
  }

  /** `genHomogeneity(tract, "current")`: no value for an empty tract,
      otherwise the homogeneity seen by the tract's own resident. */
  function CurrentHomogeneity(tracts: seq<Tract>, d: nat, i: nat): (r: Option<real>)
    requires i < |tracts|
    ensures r.None? <==> tracts[i].resident.None?
    ensures r.Some? ==> r.value == Homogeneity(tracts, d, i, tracts[i].resident.value.identity)
  {
    match tracts[i].resident
    case None => None
    case Some(a) => Some(Homogeneity(tracts, d, i, a.identity))
  }

  /** Homogeneity is zero exactly when no occupied neighbour shares
      identity `who`. */
  lemma HomogeneityZeroIff(tracts: seq<Tract>, d: nat, i: nat, who: Identity)
    requires i < |tracts|
    ensures Homogeneity(tracts, d, i, who) == 0.0 <==>
            Similar(tracts, NeighborsOf(tracts, d, i), who) == 0
    ensures var nb := NeighborsOf(tracts, d, i);
            Homogeneity(tracts, d, i, who) == 0.0 <==>
            forall k :: 0 <= k < |nb| && tracts[nb[k]].resident.Some? ==>
              tracts[nb[k]].resident.value.identity != who
  {
    var nb := NeighborsOf(tracts, d, i);
    SimilarAtMostOccupied(tracts, nb, who);
    SimilarZeroIff(tracts, nb, who);
  }

  /** With at least one occupied neighbour, homogeneity is 1 exactly when
      every occupied neighbour shares identity `who`. */
  lemma HomogeneityOneIff(tracts: seq<Tract>, d: nat, i: nat, who: Identity)
    requires i < |tracts|
    requires Occupied(tracts, NeighborsOf(tracts, d, i)) > 0
    ensures var nb := NeighborsOf(tracts, d, i);
            Homogeneity(tracts, d, i, who) == 1.0 <==>
            forall k :: 0 <= k < |nb| && tracts[nb[k]].resident.Some? ==>
              tracts[nb[k]].resident.value.identity == who
  {
    var nb := NeighborsOf(tracts, d, i);
    var h, o, s := Homogeneity(tracts, d, i, who), Occupied(tracts, nb), Similar(tracts, nb, who);
    RatioOne(h, o as real, s as real);
    SimilarEqualsOccupiedIff(tracts, nb, who);
  }

  /** A ratio `h = s / o` with `o > 0` is 1 exactly when `s == o`. */
  lemma RatioOne(h: real, o: real, s: real)
    requires o > 0.0 && h * o == s
    ensures h == 1.0 <==> s == o
  {
    assert (h - 1.0) * o == s - o;
    if s == o {
      assert h == (h - 1.0) * o / o + 1.0;
    }
  }

  /** Homogeneity depends only on who lives in the neighbouring tracts. */
  lemma HomogeneityLocal(t1: seq<Tract>, t2: seq<Tract>, d: nat, i: nat, who: Identity)
    requires |t1| == |t2| && i < |t1|
    requires var nb := NeighborsOf(t1, d, i);
             forall k :: 0 <= k < |nb| ==> t1[nb[k]].resident == t2[nb[k]].resident
    ensures Homogeneity(t1, d, i, who) == Homogeneity(t2, d, i, who)
  {
    CountsAgree(t1, t2, NeighborsOf(t1, d, i), who);
  }
}
