/** Agents and tracts: the two leaf entities of the simulation.
    The random draws of the source (`random.choice`, `random.uniform`,
    `uuid.uuid4`) are explicit inputs here. */
module Agents {

  import opened Options

  /** The two identity groups an agent may belong to. */
  datatype Identity = A | B

  /** An agent: its identity group, its prejudice (the least share of
      same-identity neighbours it accepts) and a unique id. */
  datatype Agent = Agent(identity: Identity, prejudice: real, id: nat)

  /** A tract holds zero or one agent. `filled` is the availability flag
      the city reads when it looks for empty tracts. */
  datatype Tract = Tract(filled: bool, resident: Option<Agent>)

  /** Every tract draws its agent's prejudice from [0, 0.7). */
  const MaxPrejudice: real := 0.7

  /** A tract stays empty when its running variable reaches this value. */
  const VacancyCutoff: real := 0.9

  /** The availability flag agrees with the presence of a resident. */
  predicate Consistent(t: Tract)
  {
    t.filled <==> t.resident.Some?
  }

  predicate AllConsistent(tracts: seq<Tract>)
  {
    forall i :: 0 <= i < |tracts| ==> Consistent(tracts[i])
  }

  /** Every resident's prejudice lies in the range agents are drawn from. */
  predicate ValidResidents(tracts: seq<Tract>)
  {
    forall i :: 0 <= i < |tracts| && tracts[i].resident.Some? ==>
      0.0 <= tracts[i].resident.value.prejudice <= MaxPrejudice
  }

  /** `Agent(max_prejudice)`: `identity` is the group draw, `u` the draw of
      `random.random()` behind `random.uniform(0, maxPrejudice)`, `id` the
      fresh identifier. */
  function NewAgent(maxPrejudice: real, identity: Identity, u: real, id: nat): (a: Agent)
    requires 0.0 <= maxPrejudice
    requires 0.0 <= u < 1.0
    ensures a.identity == identity && a.id == id
    ensures a.prejudice == maxPrejudice * u
    ensures 0.0 <= a.prejudice <= maxPrejudice
    ensures maxPrejudice > 0.0 ==> a.prejudice < maxPrejudice
  {
    var p := maxPrejudice * u;
    assert maxPrejudice - p == maxPrejudice * (1.0 - u);
    assert maxPrejudice > 0.0 ==> maxPrejudice * (1.0 - u) > 0.0;
    Agent(identity, p, id)
  }

  /** The random inputs one tract consumes at construction. */
  datatype Draw = Draw(running: real, identity: Identity, u: real, id: nat)

  predicate ValidDraw(w: Draw)
  {
    0.0 <= w.running <= 1.0 && 0.0 <= w.u < 1.0
  }

  /** `Tract()`: empty when the running variable is at least 0.9,
      otherwise holding a fresh agent whose prejudice is below 0.7. */
  function NewTract(w: Draw): (t: Tract)
    requires ValidDraw(w)
    ensures Consistent(t)
    ensures t.filled <==> w.running < VacancyCutoff
    ensures t.resident.Some? ==>
              t.resident.value.identity == w.identity && t.resident.value.id == w.id
              && t.resident.value.prejudice == MaxPrejudice * w.u
              && 0.0 <= t.resident.value.prejudice < MaxPrejudice
  {
    if w.running >= VacancyCutoff then Tract(false, None)
    else Tract(true, Some(NewAgent(MaxPrejudice, w.identity, w.u, w.id)))
  }

  /** `generateTracts(length)`: one tract per draw, in order. */
  function GenerateTracts(draws: seq<Draw>): (tracts: seq<Tract>)
    requires forall k :: 0 <= k < |draws| ==> ValidDraw(draws[k])
    ensures |tracts| == |draws|
    ensures AllConsistent(tracts)
    ensures ValidResidents(tracts)
    ensures forall k :: 0 <= k < |draws| ==> (tracts[k].filled <==> draws[k].running < VacancyCutoff)
    ensures forall k :: 0 <= k < |draws| && tracts[k].resident.Some? ==>
              var a := tracts[k].resident.value;
              a.identity == draws[k].identity && a.id == draws[k].id
              && a.prejudice == MaxPrejudice * draws[k].u
  {
    seq(|draws|, k requires 0 <= k < |draws| => NewTract(draws[k]))
  }

  /** The agents a single tract contributes to the city. */
  function ResidentOf(t: Tract): multiset<Agent>
  {
    if t.resident.Some? then multiset{t.resident.value} else multiset{}
  }

  /** The agents living in the first `k` tracts, with multiplicity. */
  function ResidentsOfFirst(tracts: seq<Tract>, k: nat): multiset<Agent>
    requires k <= |tracts|
  {
    if k == 0 then multiset{} else ResidentsOfFirst(tracts, k - 1) + ResidentOf(tracts[k - 1])
  }

  /** All agents living in the city, with multiplicity. */
  function Residents(tracts: seq<Tract>): multiset<Agent>
  {
    ResidentsOfFirst(tracts, |tracts|)
  }

  /** The number of occupied tracts. */
  function Population(tracts: seq<Tract>): nat
  {
    |Residents(tracts)|
  }

  /** Replacing tract `i` leaves the residents of the first `k <= i`
      tracts alone. */
  lemma {:induction false} ResidentsOfFirstFrame(tracts: seq<Tract>, i: nat, t: Tract, k: nat)
    requires k <= i < |tracts|
    ensures ResidentsOfFirst(tracts[i := t], k) == ResidentsOfFirst(tracts, k)
    decreases k
  {
    if k > 0 {
      ResidentsOfFirstFrame(tracts, i, t, k - 1);
      assert tracts[i := t][k - 1] == tracts[k - 1];
    }
  }

  /** Replacing tract `i` changes the residents of any longer prefix by
      exactly that tract's contribution. */
  lemma {:induction false} ResidentsOfFirstUpdate(tracts: seq<Tract>, i: nat, t: Tract, k: nat)
    requires i < k <= |tracts|
    ensures ResidentsOfFirst(tracts[i := t], k) + ResidentOf(tracts[i])
            == ResidentsOfFirst(tracts, k) + ResidentOf(t)
    decreases k
  {
    var u := tracts[i := t];
    var before, after := ResidentsOfFirst(tracts, k - 1), ResidentsOfFirst(u, k - 1);
    if k - 1 == i {
      ResidentsOfFirstFrame(tracts, i, t, k - 1);
      assert u[k - 1] == t;
      UpdateAt(before, after, ResidentOf(t), ResidentOf(tracts[i]));
    } else {
      ResidentsOfFirstUpdate(tracts, i, t, k - 1);
      assert u[k - 1] == tracts[k - 1];
      UpdateAfter(before, after, ResidentOf(t), ResidentOf(tracts[i]), ResidentOf(tracts[k - 1]));
    }
  }

  lemma UpdateAt<T>(before: multiset<T>, after: multiset<T>, added: multiset<T>, removed: multiset<T>)
    requires after == before
    ensures after + added + removed == before + removed + added
  {
  }

  lemma UpdateAfter<T>(before: multiset<T>, after: multiset<T>, added: multiset<T>, removed: multiset<T>, next: multiset<T>)
    requires after + removed == before + added
    ensures after + next + removed == before + next + added
  {
    forall e ensures (after + next + removed)[e] == (before + next + added)[e] {
      assert (after + removed)[e] == (before + added)[e];
    }
  }

  /** Replacing one tract changes the residents by exactly that tract's
      contribution. */
  lemma ResidentsUpdate(tracts: seq<Tract>, i: nat, t: Tract)
    requires i < |tracts|
    ensures Residents(tracts[i := t]) + ResidentOf(tracts[i]) == Residents(tracts) + ResidentOf(t)
  {
    ResidentsOfFirstUpdate(tracts, i, t, |tracts|);
  }

  /** The number of draws whose running variable falls below the vacancy
      cut-off, counted independently of the tracts built from them. */
  function FilledDraws(draws: seq<Draw>): nat
  {
    if |draws| == 0 then 0
    else FilledDraws(draws[..|draws| - 1]) + (if draws[|draws| - 1].running < VacancyCutoff then 1 else 0)
  }

  /** The first `k` generated tracts hold one agent per filled draw among
      the first `k` draws. */
  lemma {:induction false} GeneratedPrefixPopulation(draws: seq<Draw>, k: nat)
    requires forall j :: 0 <= j < |draws| ==> ValidDraw(draws[j])
    requires k <= |draws|
    ensures |ResidentsOfFirst(GenerateTracts(draws), k)| == FilledDraws(draws[..k])
  {
    if k > 0 {
      GeneratedPrefixPopulation(draws, k - 1);
      assert draws[..k][..k - 1] == draws[..k - 1];
    }
  }

  /** A freshly generated city has exactly as many agents as there are
      draws below the vacancy cut-off. */
  lemma GeneratedPopulation(draws: seq<Draw>)
    requires forall j :: 0 <= j < |draws| ==> ValidDraw(draws[j])
    ensures Population(GenerateTracts(draws)) == FilledDraws(draws)
  {
    GeneratedPrefixPopulation(draws, |draws|);
    assert draws[..|draws|] == draws;
  }
}
