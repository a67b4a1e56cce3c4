/** The relocation as the source executes it. Inside class `City`, the
    assignments `...__filled = 1` and `...__filled = 0` of the move are
    name-mangled to the attribute `_City__filled`, while `getResidence`
    reads `_Tract__filled`. The availability flags therefore keep their
    construction values for the whole run, and a later mover can be sent
    to a tract an earlier mover already occupies. */
module FrozenFlags {

  import opened Options
  import opened Agents
  import opened Neighbors
  import opened Homogeneities
  import opened Survey
  import opened Relocation

  /** The move as executed: the resident is moved, the flags are not. */
  function RelocateAsWritten(tracts: seq<Tract>, origin: nat, destination: nat): (r: seq<Tract>)
    requires origin < |tracts| && destination < |tracts| && origin != destination
    ensures |r| == |tracts|
    ensures SurveyAvailability(r) == SurveyAvailability(tracts)
    ensures r[destination].resident == tracts[origin].resident
    ensures r[origin].resident.None?
    ensures forall k :: 0 <= k < |tracts| && k != origin && k != destination ==> r[k] == tracts[k]
  {
    tracts[destination := tracts[destination].(resident := tracts[origin].resident)]
          [origin := tracts[origin].(resident := None)]
  }

  /** The move as executed loses exactly the agent, if any, who lived at
      the destination: the city keeps everyone else. */
  lemma RelocateAsWrittenLosesOccupant(tracts: seq<Tract>, origin: nat, destination: nat)
    requires origin < |tracts| && destination < |tracts| && origin != destination
    ensures Residents(RelocateAsWritten(tracts, origin, destination)) + ResidentOf(tracts[destination])
            == Residents(tracts)
  {
    var arrived := tracts[destination].(resident := tracts[origin].resident);
    var left := tracts[origin].(resident := None);
    var middle := tracts[destination := arrived];
    var r := middle[origin := left];
    assert r == RelocateAsWritten(tracts, origin, destination);
    ResidentsUpdate(tracts, destination, arrived);
    assert middle[origin] == tracts[origin];
    ResidentsUpdate(middle, origin, left);
    assert ResidentOf(arrived) == ResidentOf(tracts[origin]) && ResidentOf(left) == multiset{};
    Regroup(Residents(r), ResidentOf(tracts[origin]), ResidentOf(tracts[destination]),
            Residents(middle), Residents(tracts));
    CancelCommon(Residents(r) + ResidentOf(tracts[destination]), Residents(tracts), ResidentOf(tracts[origin]));
  }

  lemma Regroup<T>(r: multiset<T>, o: multiset<T>, e: multiset<T>, m: multiset<T>, t: multiset<T>)
    requires r + o + multiset{} == m && m + e == t + o
    ensures r + e + o == t + o
  {
    assert r + o == m;
    forall x ensures (r + e + o)[x] == (t + o)[x] {
      assert (r + o)[x] == m[x] && (m + e)[x] == (t + o)[x];
    }
  }

  /** Whether tract `i` has a resident, and whether of identity `who`, as
      the two neighbour counts weigh it. */
  function OccupiedAt(t: seq<Tract>, i: nat): nat
    requires i < |t|
  {
    if t[i].resident.Some? then 1 else 0
  }

  function SimilarAt(t: seq<Tract>, i: nat, who: Identity): nat
    requires i < |t|
  {
    if t[i].resident.Some? && t[i].resident.value.identity == who then 1 else 0
  }

  /** The two counts over a list of six neighbours, term by term. The
      source fixes the radius at `CityRadius` = 3, so every tract has
      2 * 3 = 6 neighbours, and the example below unrolls exactly that
      many. */
  lemma CountsOfSix(t: seq<Tract>, nb: seq<nat>, who: Identity)
    requires |nb| == 6 && IndicesIn(nb, |t|)
    ensures Occupied(t, nb) == OccupiedAt(t, nb[0]) + OccupiedAt(t, nb[1]) + OccupiedAt(t, nb[2])
                               + OccupiedAt(t, nb[3]) + OccupiedAt(t, nb[4]) + OccupiedAt(t, nb[5])
    ensures Similar(t, nb, who) == SimilarAt(t, nb[0], who) + SimilarAt(t, nb[1], who) + SimilarAt(t, nb[2], who)
                                   + SimilarAt(t, nb[3], who) + SimilarAt(t, nb[4], who) + SimilarAt(t, nb[5], who)
  {
    CountsStep(t, nb, 0, who);
    CountsStep(t, nb, 1, who);
    CountsStep(t, nb, 2, who);
    CountsStep(t, nb, 3, who);
    CountsStep(t, nb, 4, who);
    CountsStep(t, nb, 5, who);
    assert nb[0..] == nb && nb[6..] == [];
  }

  /** Peeling the `k`-th neighbour off the counts over the rest of the list. */
  lemma CountsStep(t: seq<Tract>, nb: seq<nat>, k: nat, who: Identity)
    requires k < |nb| && IndicesIn(nb, |t|)
    ensures IndicesIn(nb[k..], |t|) && IndicesIn(nb[k + 1..], |t|)
    ensures Occupied(t, nb[k..]) == OccupiedAt(t, nb[k]) + Occupied(t, nb[k + 1..])
    ensures Similar(t, nb[k..], who) == SimilarAt(t, nb[k], who) + Similar(t, nb[k + 1..], who)
  {
    assert nb[k..][0] == nb[k] && nb[k..][1..] == nb[k + 1..];
  }

  /** A flagged tract holding a fresh agent, for the example city. */
  function OccupiedBy(identity: Identity, prejudice: real, id: nat): Tract
  {
    Tract(true, Some(Agent(identity, prejudice, id)))
  }

  /** A share `h = similar / occupied` below one half. */
  lemma ShareBelowHalf(h: real, occupied: nat, similar: nat)
    requires occupied > 0 && h * occupied as real == similar as real && 2 * similar < occupied
    ensures h < 0.5
  {
    assert (0.5 - h) * occupied as real == 0.5 * occupied as real - similar as real;
    SignOfFactor(0.5 - h, occupied as real);
  }

  /** Fourteen tracts at the radius `generateTracts` fixes. Tract 0 is
      empty and all six of its neighbours are A agents. The A agents at 6
      and 8 want half of their neighbours alike and live among B agents;
      everyone else accepts any neighbourhood. */
  function LossExample(): (t: seq<Tract>)
    ensures |t| == 14
  {
    [Tract(false, None), OccupiedBy(A, 0.0, 1), OccupiedBy(A, 0.0, 2), OccupiedBy(A, 0.0, 3),
     OccupiedBy(B, 0.0, 4), OccupiedBy(B, 0.0, 5), OccupiedBy(A, 0.5, 6), OccupiedBy(B, 0.0, 7),
     OccupiedBy(A, 0.5, 8), OccupiedBy(B, 0.0, 9), OccupiedBy(B, 0.0, 10), OccupiedBy(A, 0.0, 11),
     OccupiedBy(A, 0.0, 12), OccupiedBy(A, 0.0, 13)]
  }

  /** The example after the first move as executed: agent 6 sits on
      tract 0, whose flag still reads empty. */
  function LossExampleAfterFirst(): (t: seq<Tract>)
    ensures |t| == 14
  {
    [Tract(false, Some(Agent(A, 0.5, 6))), OccupiedBy(A, 0.0, 1), OccupiedBy(A, 0.0, 2), OccupiedBy(A, 0.0, 3),
     OccupiedBy(B, 0.0, 4), OccupiedBy(B, 0.0, 5), Tract(true, None), OccupiedBy(B, 0.0, 7),
     OccupiedBy(A, 0.5, 8), OccupiedBy(B, 0.0, 9), OccupiedBy(B, 0.0, 10), OccupiedBy(A, 0.0, 11),
     OccupiedBy(A, 0.0, 12), OccupiedBy(A, 0.0, 13)]
  }

  /** Tract `i` holds an A agent. */
  predicate HoldsA(t: seq<Tract>, i: nat)
    requires i < |t|
  {
    t[i].resident.Some? && t[i].resident.value.identity == A
  }

  /** In a fourteen-tract city whose tracts 1-3 and 11-13 hold A agents,
      tract 0 looks entirely A to an A agent. */
  lemma TargetAllA(t: seq<Tract>)
    requires |t| == 14
    requires HoldsA(t, 1) && HoldsA(t, 2) && HoldsA(t, 3)
    requires HoldsA(t, 11) && HoldsA(t, 12) && HoldsA(t, 13)
    ensures Homogeneity(t, CityRadius, 0, A) == 1.0
  {
    var nb := NeighborsOf(t, CityRadius, 0);
    assert |nb| == 6 && nb[0] == 11 && nb[1] == 12 && nb[2] == 13 && nb[3] == 1 && nb[4] == 2 && nb[5] == 3;
    CountsOfSix(t, nb, A);
    RatioOne(Homogeneity(t, CityRadius, 0, A), 6.0, 6.0);
  }

  /** Tract 0 looks entirely A to an A agent, in both cities. */
  lemma LossExampleTarget(t: seq<Tract>)
    requires t == LossExample() || t == LossExampleAfterFirst()
    ensures Homogeneity(t, CityRadius, 0, A) == 1.0
  {
    TargetAllA(t);
  }

  /** Agent 6 sees two A agents among six neighbours and wants to move. */
  lemma LossExampleFirstMover()
    ensures !Happy(LossExample(), CityRadius, 6)
  {
    var t := LossExample();
    var nb := NeighborsOf(t, CityRadius, 6);
    assert |nb| == 6 && nb[0] == 3 && nb[1] == 4 && nb[2] == 5 && nb[3] == 7 && nb[4] == 8 && nb[5] == 9;
    CountsOfSix(t, nb, A);
    assert Occupied(t, nb) == 6;
    assert Similar(t, nb, A) == 2;
    ShareBelowHalf(Homogeneity(t, CityRadius, 6, A), 6, 2);
  }

  /** After the first move agent 8 sees one A agent among five neighbours
      and wants to move. */
  lemma LossExampleSecondMover()
    ensures !Happy(LossExampleAfterFirst(), CityRadius, 8)
  {
    var t := LossExampleAfterFirst();
    var nb := NeighborsOf(t, CityRadius, 8);
    assert |nb| == 6 && nb[0] == 5 && nb[1] == 6 && nb[2] == 7 && nb[3] == 9 && nb[4] == 10 && nb[5] == 11;
    CountsOfSix(t, nb, A);
    assert Occupied(t, nb) == 5;
    assert Similar(t, nb, A) == 1;
    ShareBelowHalf(Homogeneity(t, CityRadius, 8, A), 5, 1);
  }

  lemma LossExampleConsistent()
    ensures AllConsistent(LossExample())
  {
  }

  /** The first move as executed leads to `LossExampleAfterFirst`. */
  lemma LossExampleFirstStep()
    ensures RelocateAsWritten(LossExample(), 6, 0) == LossExampleAfterFirst()
  {
    var t0, t1 := LossExample(), LossExampleAfterFirst();
    var r := RelocateAsWritten(t0, 6, 0);
    assert r[0] == t1[0] && r[6] == t1[6];
    assert forall k :: 0 <= k < 14 && k != 0 && k != 6 ==> r[k] == t0[k] == t1[k];
  }

  lemma LossExampleFirstMove()
    ensures LegalMove(LossExample(), CityRadius, 6, 0)
  {
    LossExampleFirstMover();
    LossExampleTarget(LossExample());
  }

  lemma LossExampleSecondMove()
    ensures LegalMove(LossExampleAfterFirst(), CityRadius, 8, 0)
  {
    LossExampleSecondMover();
    LossExampleTarget(LossExampleAfterFirst());
  }

  /** As executed, a second legal move onto the tract a first move just
      filled overwrites the first mover: the city loses exactly that agent.
      With the flags maintained, the second move is not legal. */
  lemma SecondMoveOverwrites(t0: seq<Tract>, d: nat, first: nat, second: nat, destination: nat)
    requires AllConsistent(t0)
    requires LegalMove(t0, d, first, destination)
    requires first != destination && second != destination
    requires LegalMove(RelocateAsWritten(t0, first, destination), d, second, destination)
    ensures var t2 := RelocateAsWritten(RelocateAsWritten(t0, first, destination), second, destination);
            && Residents(t2) + multiset{t0[first].resident.value} == Residents(t0)
            && Population(t2) < Population(t0)
    ensures !LegalMove(Relocate(t0, first, destination), d, second, destination)
  {
    var t1 := RelocateAsWritten(t0, first, destination);
    var t2 := RelocateAsWritten(t1, second, destination);
    LegalMoveTargetsEmptyTract(t0, d, first, destination);
    RelocateAsWrittenLosesOccupant(t0, first, destination);
    assert ResidentOf(t0[destination]) == multiset{};
    assert Residents(t1) == Residents(t0);
    RelocateAsWrittenLosesOccupant(t1, second, destination);
    assert ResidentOf(t1[destination]) == multiset{t0[first].resident.value};
  }

  /** At the source's radius, two legal moves in a row send agents 6 and
      8 of `LossExample` to tract 0, whose flag still reads empty after the
      first. */
  lemma AgentLostAsWritten()
    ensures AllConsistent(LossExample())
    ensures LegalMove(LossExample(), CityRadius, 6, 0)
    ensures LegalMove(RelocateAsWritten(LossExample(), 6, 0), CityRadius, 8, 0)
    ensures var t2 := RelocateAsWritten(RelocateAsWritten(LossExample(), 6, 0), 8, 0);
            Residents(t2) + multiset{Agent(A, 0.5, 6)} == Residents(LossExample())
  {
    LossExampleConsistent();
    LossExampleFirstMove();
    LossExampleFirstStep();
    LossExampleSecondMove();
    SecondMoveOverwrites(LossExample(), CityRadius, 6, 8, 0);
  }
}
