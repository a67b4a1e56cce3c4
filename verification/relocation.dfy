/** One iteration of the relocation loop of `executeMoves`: choosing an
    unhappy mover, filtering the empty tracts by the mover's prospective
    homogeneity, and moving the agent. */
module Relocation {

  import opened Options
  import opened Agents
  import opened Neighbors
  import opened Homogeneities
  import opened Survey

  /** `random.choice(xs)`, with the random draw made an input: any `pick`
      selects an element, and every element is selected by some pick. */
  function Choose(xs: seq<nat>, pick: nat): (x: nat)
    requires |xs| > 0
    ensures x in xs
  {
    xs[pick % |xs|]
  }

  lemma ChooseIndex(xs: seq<nat>, k: nat)
    requires k < |xs|
    ensures Choose(xs, k) == xs[k]
  {
    assert k % |xs| == k;
  }

  /** The query `homogeneityToMover >= @agentPrejudice` over the candidate
      tracts, keeping their order. */
  function Qualifying(tracts: seq<Tract>, d: nat, candidates: seq<nat>, who: Identity, prejudice: real): (r: seq<nat>)
    requires IndicesIn(candidates, |tracts|)
    ensures IndicesIn(r, |tracts|)
    ensures forall k :: 0 <= k < |r| ==> r[k] in candidates && Homogeneity(tracts, d, r[k], who) >= prejudice
    ensures forall k :: 0 <= k < |candidates| && Homogeneity(tracts, d, candidates[k], who) >= prejudice ==>
              candidates[k] in r
    decreases |candidates|
  {
    if |candidates| == 0 then []
    else
      var last := |candidates| - 1;
      var prefix := Qualifying(tracts, d, candidates[..last], who, prejudice);
      assert forall k :: 0 <= k < last ==> candidates[..last][k] == candidates[k];
      prefix + (if Homogeneity(tracts, d, candidates[last], who) >= prejudice then [candidates[last]] else [])
  }

  /** The positions of the tracts the availability survey reports empty. */
  function EmptyTracts(tracts: seq<Tract>): (r: seq<nat>)
    ensures IndicesIn(r, |tracts|)
    ensures forall j :: 0 <= j < |tracts| ==> (j in r <==> !tracts[j].filled)
  {
    ZeroIndices(SurveyAvailability(tracts))
  }

  /** The positions of the tracts the happiness survey reports unhappy. */
  function UnhappyTracts(tracts: seq<Tract>, d: nat): (r: seq<nat>)
    ensures IndicesIn(r, |tracts|)
    ensures forall j :: 0 <= j < |tracts| ==> (j in r <==> !Happy(tracts, d, j))
    ensures |r| == UnhappyCount(tracts, d)
  {
    ZeroIndices(SurveyHappiness(tracts, d).happiness)
  }

  /** Moving the resident of `origin` to `destination`, updating both
      tracts' availability flags. */
  function Relocate(tracts: seq<Tract>, origin: nat, destination: nat): (r: seq<Tract>)
    requires origin < |tracts| && destination < |tracts| && origin != destination
    ensures |r| == |tracts|
    ensures r[destination] == Tract(true, tracts[origin].resident)
    ensures r[origin] == Tract(false, None)
    ensures forall k :: 0 <= k < |tracts| && k != origin && k != destination ==> r[k] == tracts[k]
  {
    tracts[destination := Tract(true, tracts[origin].resident)][origin := Tract(false, None)]
  }

  /** A move the loop body may make: the origin holds an unhappy agent,
      the destination is flagged empty, and the destination's homogeneity
      to the mover, measured before the move, meets the mover's prejudice. */
  predicate LegalMove(tracts: seq<Tract>, d: nat, origin: nat, destination: nat)
  {
    && origin < |tracts| && destination < |tracts|
    && tracts[origin].resident.Some?
    && !Happy(tracts, d, origin)
    && !tracts[destination].filled
    && Homogeneity(tracts, d, destination, tracts[origin].resident.value.identity)
         >= tracts[origin].resident.value.prejudice
  }

  /** A move keeps flags and residents consistent and keeps every
      resident's prejudice in range. */
  lemma RelocateKeepsInvariants(tracts: seq<Tract>, origin: nat, destination: nat)
    requires origin < |tracts| && destination < |tracts| && origin != destination
    requires tracts[origin].resident.Some?
    ensures AllConsistent(tracts) ==> AllConsistent(Relocate(tracts, origin, destination))
    ensures ValidResidents(tracts) ==> ValidResidents(Relocate(tracts, origin, destination))
  {
  }

  /** A move keeps exactly the same agents in the city: none is created,
      lost or duplicated. */
  lemma RelocateConservesResidents(tracts: seq<Tract>, origin: nat, destination: nat)
    requires origin < |tracts| && destination < |tracts|
    requires tracts[origin].resident.Some? && tracts[destination].resident.None?
    ensures origin != destination
    ensures Residents(Relocate(tracts, origin, destination)) == Residents(tracts)
    ensures Population(Relocate(tracts, origin, destination)) == Population(tracts)
  {
    var agent := multiset{tracts[origin].resident.value};
    var mover := Tract(true, tracts[origin].resident);
    var middle := tracts[destination := mover];
    var after := middle[origin := Tract(false, None)];
    assert after == Relocate(tracts, origin, destination);
    ResidentsUpdate(tracts, destination, mover);
    assert ResidentOf(tracts[destination]) == multiset{} && ResidentOf(mover) == agent;
    assert Residents(middle) == Residents(tracts) + agent;
    ResidentsUpdate(middle, origin, Tract(false, None));
    assert ResidentOf(middle[origin]) == agent && ResidentOf(Tract(false, None)) == multiset{};
    assert Residents(after) + agent == Residents(middle);
    CancelCommon(Residents(after), Residents(tracts), agent);
  }

  lemma CancelCommon<T>(x: multiset<T>, y: multiset<T>, z: multiset<T>)
    requires x + z == y + z
    ensures x == y
  {
    assert forall e :: x[e] == (x + z)[e] - z[e] == (y + z)[e] - z[e] == y[e];
  }

  /** A move the mover can make from `origin`, and where it lands. */
  datatype Step = Moved(origin: nat, destination: nat) | Skipped(origin: nat)

  /** Some agent is unhappy: the loop test of `executeMoves`. */
  predicate Unsettled(tracts: seq<Tract>, d: nat)
  {
    CountTrue(SurveyHappiness(tracts, d).happiness) < |tracts|
  }

  /** The empty tracts that satisfy the agent living at `origin`. */
  function Destinations(tracts: seq<Tract>, d: nat, origin: nat): (r: seq<nat>)
    requires origin < |tracts| && tracts[origin].resident.Some?
    ensures IndicesIn(r, |tracts|)
    ensures forall j :: 0 <= j < |tracts| ==>
              (j in r <==> !tracts[j].filled
                           && Homogeneity(tracts, d, j, tracts[origin].resident.value.identity)
                              >= tracts[origin].resident.value.prejudice)
  {
    var mover := tracts[origin].resident.value;
    Qualifying(tracts, d, EmptyTracts(tracts), mover.identity, mover.prejudice)
  }

  /** One pass of the loop body of `executeMoves`: the first pick chooses the
      mover among the unhappy tracts, the second chooses the destination
      among the qualifying empty tracts. With no qualifying tract the mover
      is skipped. */
  function MoveStep(tracts: seq<Tract>, d: nat, moverPick: nat, destinationPick: nat): (s: Step)
    requires Unsettled(tracts, d)
    ensures s.origin < |tracts| && tracts[s.origin].resident.Some?
    ensures !Happy(tracts, d, s.origin)
    ensures s.Moved? ==> LegalMove(tracts, d, s.origin, s.destination) && s.origin != s.destination
    ensures s.Skipped? <==>
              forall j :: 0 <= j < |tracts| && !tracts[j].filled ==>
                Homogeneity(tracts, d, j, tracts[s.origin].resident.value.identity)
                  < tracts[s.origin].resident.value.prejudice
  {
    var unhappy := UnhappyTracts(tracts, d);
    var origin := Choose(unhappy, moverPick);
    var valid := Destinations(tracts, d, origin);
    if |valid| == 0 then Skipped(origin)
    else Moved(origin, Choose(valid, destinationPick))
  }

  /** Every legal move is the step some pair of picks selects, so the
      picks range over all the choices `random.choice` can make. */
  lemma LegalMoveReachable(tracts: seq<Tract>, d: nat, origin: nat, destination: nat)
    requires LegalMove(tracts, d, origin, destination)
    ensures Unsettled(tracts, d)
    ensures exists moverPick: nat, destinationPick: nat ::
              MoveStep(tracts, d, moverPick, destinationPick) == Moved(origin, destination)
  {
    var unhappy := UnhappyTracts(tracts, d);
    var k :| 0 <= k < |unhappy| && unhappy[k] == origin;
    SettledIffFullSum(tracts, d);
    var valid := Destinations(tracts, d, origin);
    var m :| 0 <= m < |valid| && valid[m] == destination;
    ChooseIndex(unhappy, k);
    ChooseIndex(valid, m);
    assert MoveStep(tracts, d, k, m) == Moved(origin, destination);
  }

  /** In a consistent city the destination of a legal move has no
      resident. */
  lemma LegalMoveTargetsEmptyTract(tracts: seq<Tract>, d: nat, origin: nat, destination: nat)
    requires AllConsistent(tracts)
    requires LegalMove(tracts, d, origin, destination)
    ensures tracts[destination].resident.None? && origin != destination
  {
  }

  /** Whatever the picks, a settled city is never entered and an unsettled
      one always yields a mover: the list of unhappy tracts the loop body draws
      the mover from is non-empty. */
  lemma UnhappyListNonEmpty(tracts: seq<Tract>, d: nat)
    ensures Unsettled(tracts, d) <==> |UnhappyTracts(tracts, d)| > 0
    ensures Unsettled(tracts, d) <==> !Settled(tracts, d)
  {
    SettledIffFullSum(tracts, d);
  }

  /** If the mover's old tract is not next to its new one, the mover sees
      after the move exactly the homogeneity it was promised, so it is
      happy where it lands. */
  lemma MoverHappyAfterMove(tracts: seq<Tract>, d: nat, origin: nat, destination: nat)
    requires AllConsistent(tracts)
    requires LegalMove(tracts, d, origin, destination)
    requires 2 * d < |tracts|
    requires origin !in NeighborsIndex(destination, d, |tracts|)
    ensures origin != destination
    ensures Happy(Relocate(tracts, origin, destination), d, destination)
  {
    LegalMoveTargetsEmptyTract(tracts, d, origin, destination);
    var after := Relocate(tracts, origin, destination);
    var nb := NeighborsOf(tracts, d, destination);
    NeighborsDistinct(destination, d, |tracts|);
    assert forall k :: 0 <= k < |nb| ==> nb[k] != destination && nb[k] != origin;
    HomogeneityLocal(tracts, after, d, destination, tracts[origin].resident.value.identity);
  }

  /** Five tracts: an A agent who wants half of its neighbours alike
      lives between a B agent and the empty tract 2. */
  function StayUnhappyExample(): (t: seq<Tract>)
    ensures |t| == 5
  {
    [Tract(true, Some(Agent(B, 0.0, 0))), Tract(true, Some(Agent(A, 0.5, 1))),
     Tract(false, None), Tract(true, Some(Agent(B, 0.0, 3))), Tract(false, None)]
  }

  lemma StayUnhappyExampleMove()
    ensures LegalMove(StayUnhappyExample(), 1, 1, 2)
  {
    var t := StayUnhappyExample();
    assert NeighborsOf(t, 1, 1) == [0, 2];
    assert NeighborsOf(t, 1, 2) == [1, 3];
    assert Similar(t, [2], A) == 0;
    assert Similar(t, [0, 2], A) == 0;
    HomogeneityZeroIff(t, 1, 1, A);
    assert Occupied(t, [1, 3]) == 2 && Similar(t, [1, 3], A) == 1;
    assert Homogeneity(t, 1, 2, A) == 0.5;
  }

  lemma StayUnhappyExampleAfter()
    ensures !Happy(Relocate(StayUnhappyExample(), 1, 2), 1, 2)
  {
    var after := Relocate(StayUnhappyExample(), 1, 2);
    assert NeighborsOf(after, 1, 2) == [1, 3];
    assert Similar(after, [3], A) == 0;
    assert Similar(after, [1, 3], A) == 0;
    HomogeneityZeroIff(after, 1, 2, A);
  }

  /** Without that hypothesis the promise fails: the A agent counts itself
      among the empty tract's neighbours, finds it half alike, moves, and
      is left with only a B neighbour. */
  lemma MoverMayStayUnhappy()
    ensures var t := StayUnhappyExample();
            && AllConsistent(t)
            && LegalMove(t, 1, 1, 2)
            && !Happy(Relocate(t, 1, 2), 1, 2)
  {
    StayUnhappyExampleMove();
    StayUnhappyExampleAfter();
  }
}
