/** `executeMoves`: the relocation loop and its move log. */
module MoveLoop {

  import opened Agents
  import opened Survey
  import opened Relocation

  /** `moveData`: six parallel columns, one row per move. */
  datatype MoveData = MoveData(
    moveIndex: seq<nat>,
    movingAgentID: seq<nat>,
    originTractIndex: seq<nat>,
    destinationTractIndex: seq<nat>,
    unhappyCount: seq<nat>,
    avgHomogeneity: seq<real>)

  /** The log `executeMoves` starts from. */
  const EmptyLog := MoveData([], [], [], [], [], [])

  /** All six columns hold exactly `k` rows. */
  predicate HasRows(log: MoveData, k: nat)
  {
    && |log.moveIndex| == k && |log.movingAgentID| == k
    && |log.originTractIndex| == k && |log.destinationTractIndex| == k
    && |log.unhappyCount| == k && |log.avgHomogeneity| == k
  }

  /** The random draws of one iteration: `random.choice(unhappyAgents)`
      and `random.choice(validTracts)`. */
  datatype Pick = Pick(mover: nat, destination: nat)

  /** The city before move `j` of a run that started from `initial` and
      passed through the states in `history`. */
  function Before(initial: seq<Tract>, history: seq<seq<Tract>>, j: nat): seq<Tract>
    requires j <= |history|
  {
    if j == 0 then initial else history[j - 1]
  }

  /** Row `j` of the log describes a legal move from the city before it to
      `history[j]`, and the statistics surveyed right after it. */
  predicate RowDescribes(initial: seq<Tract>, history: seq<seq<Tract>>, d: nat, log: MoveData, j: nat)
    requires j < |history| && HasRows(log, |history|)
  {
    var before := Before(initial, history, j);
    var origin := log.originTractIndex[j];
    var destination := log.destinationTractIndex[j];
    && LegalMove(before, d, origin, destination)
    && origin != destination
    && log.movingAgentID[j] == before[origin].resident.value.id
    && history[j] == Relocate(before, origin, destination)
    && log.moveIndex[j] == j + 1
    && log.unhappyCount[j] == UnhappyCount(history[j], d)
    && CountTrue(SurveyAvailability(history[j])) > 0
    && log.avgHomogeneity[j] == SurveyMeanHomogeneity(history[j], d)
    && 0.0 <= log.avgHomogeneity[j] <= 1.0
  }

  /** The row `executeMoves` appends after moving the agent from `origin`
      to `destination` of `before`: the move number, the agent's id, both
      tracts, and the statistics of a fresh survey of `after`. */
  function Row(log: MoveData, before: seq<Tract>, d: nat, origin: nat, destination: nat, after: seq<Tract>): MoveData
    requires origin < |before| && before[origin].resident.Some?
    requires CountTrue(SurveyAvailability(after)) > 0
  {
    MoveData(
      log.moveIndex + [|log.moveIndex| + 1],
      log.movingAgentID + [before[origin].resident.value.id],
      log.originTractIndex + [origin],
      log.destinationTractIndex + [destination],
      log.unhappyCount + [UnhappyCount(after, d)],
      log.avgHomogeneity + [SurveyMeanHomogeneity(after, d)])
  }

  /** Appending the row of a legal move keeps the log describing the run. */
  lemma ExtendRun(initial: seq<Tract>, history: seq<seq<Tract>>, d: nat, log: MoveData, origin: nat, destination: nat)
    requires HasRows(log, |history|)
    requires forall j :: 0 <= j < |history| ==> RowDescribes(initial, history, d, log, j)
    requires AllConsistent(Before(initial, history, |history|))
    requires LegalMove(Before(initial, history, |history|), d, origin, destination)
    ensures var before := Before(initial, history, |history|);
            var after := Relocate(before, origin, destination);
            && CountTrue(SurveyAvailability(after)) > 0
            && var log' := Row(log, before, d, origin, destination, after);
            && var history' := history + [after];
            && HasRows(log', |history'|)
            && Before(initial, history', |history'|) == after
            && forall j :: 0 <= j < |history'| ==> RowDescribes(initial, history', d, log', j)
  {
    var before := Before(initial, history, |history|);
    LegalMoveTargetsEmptyTract(before, d, origin, destination);
    var after := Relocate(before, origin, destination);
    RelocateKeepsInvariants(before, origin, destination);
    assert after[destination].filled;
    CountTrueZeroIff(SurveyAvailability(after));
    MeanHomogeneityBounds(after, d);
    var log' := Row(log, before, d, origin, destination, after);
    var history' := history + [after];
    assert RowDescribes(initial, history', d, log', |history|);
    KeepRows(initial, history, d, log, log', after);
  }

  /** Appending a row that describes the new move, and the state it
      leads to, leaves the earlier rows describing the same moves. */
  lemma KeepRows(initial: seq<Tract>, history: seq<seq<Tract>>, d: nat, log: MoveData, log': MoveData, after: seq<Tract>)
    requires HasRows(log, |history|) && HasRows(log', |history| + 1)
    requires forall j :: 0 <= j < |history| ==> RowDescribes(initial, history, d, log, j)
    requires log'.moveIndex[..|history|] == log.moveIndex
    requires log'.movingAgentID[..|history|] == log.movingAgentID
    requires log'.originTractIndex[..|history|] == log.originTractIndex
    requires log'.destinationTractIndex[..|history|] == log.destinationTractIndex
    requires log'.unhappyCount[..|history|] == log.unhappyCount
    requires log'.avgHomogeneity[..|history|] == log.avgHomogeneity
    requires RowDescribes(initial, history + [after], d, log', |history|)
    ensures forall j :: 0 <= j < |history| + 1 ==> RowDescribes(initial, history + [after], d, log', j)
  {
    var history' := history + [after];
    forall j | 0 <= j < |history|
      ensures RowDescribes(initial, history', d, log', j)
    {
      assert Before(initial, history', j) == Before(initial, history, j);
      assert history'[j] == history[j];
      assert RowDescribes(initial, history, d, log, j);
      assert log'.moveIndex[j] == log.moveIndex[j];
      assert log'.movingAgentID[j] == log.movingAgentID[j];
      assert log'.originTractIndex[j] == log.originTractIndex[j];
      assert log'.destinationTractIndex[j] == log.destinationTractIndex[j];
      assert log'.unhappyCount[j] == log.unhappyCount[j];
      assert log'.avgHomogeneity[j] == log.avgHomogeneity[j];
    }
  }

  /** The cities a run passes through, one per move: each pick drives one
      pass of the loop body, a skipped mover leaves the city as it is, and
      the run stops as soon as every agent is happy or the picks run out. */
  function RunHistory(tracts: seq<Tract>, d: nat, picks: seq<Pick>): (h: seq<seq<Tract>>)
    ensures |h| <= |picks|
    ensures !Unsettled(tracts, d) ==> h == []
    decreases |picks|
  {
    if |picks| == 0 || !Unsettled(tracts, d) then []
    else
      match MoveStep(tracts, d, picks[0].mover, picks[0].destination)
      case Skipped(_) => RunHistory(tracts, d, picks[1..])
      case Moved(origin, destination) =>
        var after := Relocate(tracts, origin, destination);
        [after] + RunHistory(after, d, picks[1..])
  }

  /** The pick draws a mover with nowhere to go. */
  predicate Skips(tracts: seq<Tract>, d: nat, pick: Pick)
  {
    Unsettled(tracts, d) && MoveStep(tracts, d, pick.mover, pick.destination).Skipped?
  }

  /** Every pick draws a mover with nowhere to go. */
  predicate EveryPickSkips(tracts: seq<Tract>, d: nat, picks: seq<Pick>)
  {
    forall k :: 0 <= k < |picks| ==> Skips(tracts, d, picks[k])
  }

  /** A run makes no move exactly when the city is settled or every pick
      draws a mover with nowhere to go: the run never stops early while a
      pick could still move someone. */
  lemma {:induction false} NoMoveIff(tracts: seq<Tract>, d: nat, picks: seq<Pick>)
    ensures RunHistory(tracts, d, picks) == [] <==> !Unsettled(tracts, d) || EveryPickSkips(tracts, d, picks)
    decreases |picks|
  {
    if |picks| > 0 && Unsettled(tracts, d) {
      var rest := picks[1..];
      NoMoveIff(tracts, d, rest);
      assert picks[0..] == picks && picks[1..] == rest;
      RunAdvance(tracts, d, picks, 0);
      if Skips(tracts, d, picks[0]) {
        SkipsSplit(tracts, d, picks);
      }
    }
  }

  /** When the first pick skips, every pick skips exactly when every later
      one does. */
  lemma SkipsSplit(tracts: seq<Tract>, d: nat, picks: seq<Pick>)
    requires |picks| > 0 && Skips(tracts, d, picks[0])
    ensures EveryPickSkips(tracts, d, picks) <==> EveryPickSkips(tracts, d, picks[1..])
  {
    HoldsAfterFirst(pick => Skips(tracts, d, pick), picks);
  }

  /** A property of a non-empty sequence's head holds everywhere exactly
      when it holds on the tail. */
  lemma HoldsAfterFirst<T>(p: T -> bool, xs: seq<T>)
    requires |xs| > 0 && p(xs[0])
    ensures (forall k :: 0 <= k < |xs| ==> p(xs[k])) <==> (forall k :: 0 <= k < |xs[1..]| ==> p(xs[1..][k]))
  {
    if forall k :: 0 <= k < |xs[1..]| ==> p(xs[1..][k]) {
      forall k | 0 < k < |xs|
        ensures p(xs[k])
      {
        assert xs[k] == xs[1..][k - 1];
      }
    }
  }

  /** One pass of the loop from pick `i` on: a skip consumes the pick and
      leaves the city, a move consumes it and leads the rest of the run. */
  lemma RunAdvance(tracts: seq<Tract>, d: nat, picks: seq<Pick>, i: nat)
    requires i < |picks| && Unsettled(tracts, d)
    ensures var s := MoveStep(tracts, d, picks[i].mover, picks[i].destination);
            && (s.Skipped? ==> RunHistory(tracts, d, picks[i..]) == RunHistory(tracts, d, picks[i + 1..]))
            && (s.Moved? ==>
                  RunHistory(tracts, d, picks[i..])
                  == [Relocate(tracts, s.origin, s.destination)]
                     + RunHistory(Relocate(tracts, s.origin, s.destination), d, picks[i + 1..]))
  {
    assert picks[i..][0] == picks[i] && picks[i..][1..] == picks[i + 1..];
  }

  lemma AppendRegroup<T>(xs: seq<T>, x: T, ys: seq<T>)
    ensures xs + [x] + ys == xs + ([x] + ys)
  {
  }

  /** What `executeMoves` knows after consuming the first `i` picks: the
      city is a consistent rearrangement of the initial one, the log
      describes the moves so far, and those moves begin the run the picks
      determine. */
  predicate RunSoFar(initial: seq<Tract>, d: nat, picks: seq<Pick>, i: nat,
                     tracts: seq<Tract>, log: MoveData, history: seq<seq<Tract>>)
  {
    && i <= |picks|
    && |tracts| == |initial| && AllConsistent(tracts)
    && Residents(tracts) == Residents(initial)
    && (ValidResidents(initial) ==> ValidResidents(tracts))
    && HasRows(log, |history|)
    && (forall j :: 0 <= j < |history| ==> RowDescribes(initial, history, d, log, j))
    && tracts == Before(initial, history, |history|)
    && history + RunHistory(tracts, d, picks[i..]) == RunHistory(initial, d, picks)
  }

  /** A pass of the loop body that moves an agent keeps the run described. */
  lemma MoveKeepsRun(initial: seq<Tract>, d: nat, picks: seq<Pick>, i: nat,
                     tracts: seq<Tract>, log: MoveData, history: seq<seq<Tract>>)
    requires RunSoFar(initial, d, picks, i, tracts, log, history)
    requires i < |picks| && Unsettled(tracts, d)
    requires MoveStep(tracts, d, picks[i].mover, picks[i].destination).Moved?
    ensures var s := MoveStep(tracts, d, picks[i].mover, picks[i].destination);
            var after := Relocate(tracts, s.origin, s.destination);
            && CountTrue(SurveyAvailability(after)) > 0
            && RunSoFar(initial, d, picks, i + 1, after,
                        Row(log, tracts, d, s.origin, s.destination, after), history + [after])
  {
    var s := MoveStep(tracts, d, picks[i].mover, picks[i].destination);
    var origin, destination := s.origin, s.destination;
    RunAdvance(tracts, d, picks, i);
    LegalMoveTargetsEmptyTract(tracts, d, origin, destination);
    RelocateConservesResidents(tracts, origin, destination);
    RelocateKeepsInvariants(tracts, origin, destination);
    ExtendRun(initial, history, d, log, origin, destination);
    var after := Relocate(tracts, origin, destination);
    AppendRegroup(history, after, RunHistory(after, d, picks[i + 1..]));
  }

  /** A pass of the loop body that skips the mover keeps the run described. */
  lemma SkipKeepsRun(initial: seq<Tract>, d: nat, picks: seq<Pick>, i: nat,
                     tracts: seq<Tract>, log: MoveData, history: seq<seq<Tract>>)
    requires RunSoFar(initial, d, picks, i, tracts, log, history)
    requires i < |picks| && Unsettled(tracts, d)
    requires MoveStep(tracts, d, picks[i].mover, picks[i].destination).Skipped?
    ensures RunSoFar(initial, d, picks, i + 1, tracts, log, history)
  {
    RunAdvance(tracts, d, picks, i);
  }

  /** One pass of the loop body of `executeMoves` on pick `i`. */
  method RunOnePick(initial: seq<Tract>, d: nat, picks: seq<Pick>, i: nat,
                    tracts: seq<Tract>, log: MoveData, history: seq<seq<Tract>>)
    returns (tracts': seq<Tract>, log': MoveData, history': seq<seq<Tract>>)
    requires RunSoFar(initial, d, picks, i, tracts, log, history)
    requires i < |picks| && Unsettled(tracts, d)
    ensures RunSoFar(initial, d, picks, i + 1, tracts', log', history')
    ensures var s := MoveStep(tracts, d, picks[i].mover, picks[i].destination);
            && (s.Skipped? ==> tracts' == tracts && log' == log && history' == history)
            && (s.Moved? ==>
                  && tracts' == Relocate(tracts, s.origin, s.destination)
                  && CountTrue(SurveyAvailability(tracts')) > 0
                  && history' == history + [tracts']
                  && log' == Row(log, tracts, d, s.origin, s.destination, tracts'))
  {
    var step := MoveStep(tracts, d, picks[i].mover, picks[i].destination);
    if step.Moved? {
      MoveKeepsRun(initial, d, picks, i, tracts, log, history);
      LegalMoveTargetsEmptyTract(tracts, d, step.origin, step.destination);
      var after := Relocate(tracts, step.origin, step.destination);
      tracts', log', history' := after, Row(log, tracts, d, step.origin, step.destination, after), history + [after];
    } else {
      SkipKeepsRun(initial, d, picks, i, tracts, log, history);
      tracts', log', history' := tracts, log, history;
    }
  }

  /** Once the picks run out or every agent is happy, the moves made so
      far are the whole run, and what the loop kept true describes it. */
  lemma RunEnds(initial: seq<Tract>, d: nat, picks: seq<Pick>, i: nat,
                tracts: seq<Tract>, log: MoveData, history: seq<seq<Tract>>)
    requires AllConsistent(initial)
    requires RunSoFar(initial, d, picks, i, tracts, log, history)
    requires i == |picks| || !Unsettled(tracts, d)
    ensures |tracts| == |initial| && AllConsistent(tracts)
    ensures Residents(tracts) == Residents(initial)
    ensures Population(tracts) == Population(initial)
    ensures ValidResidents(initial) ==> ValidResidents(tracts)
    ensures !Unsettled(tracts, d) <==> Settled(tracts, d)
    ensures HasRows(log, |history|)
    ensures forall j :: 0 <= j < |history| ==> RowDescribes(initial, history, d, log, j)
    ensures tracts == Before(initial, history, |history|)
    ensures history == RunHistory(initial, d, picks)
    ensures Settled(initial, d) ==> |history| == 0
    ensures Population(initial) == |initial| ==> |history| == 0
  {
    assert RunHistory(tracts, d, picks[i..]) == [];
    SettledIffFullSum(initial, d);
    SettledIffFullSum(tracts, d);
    if Population(initial) == |initial| {
      FullCityStays(initial, d, picks);
    }
  }

  /** In a city with no empty tract nobody can move. */
  lemma FullCityStays(tracts: seq<Tract>, d: nat, picks: seq<Pick>)
    requires AllConsistent(tracts) && Population(tracts) == |tracts|
    ensures RunHistory(tracts, d, picks) == []
  {
    AvailabilityCountsPopulation(tracts);
    CountTrueFullIff(SurveyAvailability(tracts));
    NoMoveIff(tracts, d, picks);
  }

  /** Before the first pick nothing has moved and the whole run lies
      ahead. */
  lemma RunStarts(initial: seq<Tract>, d: nat, picks: seq<Pick>)
    requires AllConsistent(initial)
    ensures RunSoFar(initial, d, picks, 0, initial, EmptyLog, [])
  {
    assert picks[0..] == picks;
  }

  /** The loop of `executeMoves`: passes of the loop body, one per pick,
      until the picks run out or every agent is happy. */
  method RunLoop(initial: seq<Tract>, d: nat, picks: seq<Pick>)
    returns (i: nat, tracts: seq<Tract>, log: MoveData, history: seq<seq<Tract>>)
    requires AllConsistent(initial)
    ensures RunSoFar(initial, d, picks, i, tracts, log, history)
    ensures i == |picks| || !Unsettled(tracts, d)
  {
    tracts, log, history := initial, EmptyLog, [];
    i := 0;
    RunStarts(initial, d, picks);
    while i < |picks| && Unsettled(tracts, d)
      invariant RunSoFar(initial, d, picks, i, tracts, log, history)
      decreases |picks| - i
    {
      tracts, log, history := RunOnePick(initial, d, picks, i, tracts, log, history);
      i := i + 1;
    }
  }

  /** `executeMoves`, driven by one `Pick` per iteration. The source loops
      until every agent is happy; here the loop also ends when the picks
      run out, and `settled` tells the two outcomes apart. Alongside the
      final city and the move log, `history` lists the city after each
      move. */
  method ExecuteMoves(initial: seq<Tract>, d: nat, picks: seq<Pick>)
    returns (tracts: seq<Tract>, log: MoveData, history: seq<seq<Tract>>, settled: bool)
    requires AllConsistent(initial)
    ensures |tracts| == |initial| && AllConsistent(tracts)
    ensures Residents(tracts) == Residents(initial)
    ensures Population(tracts) == Population(initial)
    ensures ValidResidents(initial) ==> ValidResidents(tracts)
    ensures settled <==> Settled(tracts, d)
    ensures settled ==> forall i :: 0 <= i < |tracts| ==> SurveyHappiness(tracts, d).happiness[i]
    ensures HasRows(log, |history|)
    ensures forall j :: 0 <= j < |history| ==> RowDescribes(initial, history, d, log, j)
    ensures tracts == Before(initial, history, |history|)
    ensures history == RunHistory(initial, d, picks)
    ensures Settled(initial, d) ==> |history| == 0
    ensures Population(initial) == |initial| ==> |history| == 0
  {
    var i;
    i, tracts, log, history := RunLoop(initial, d, picks);
    RunEnds(initial, d, picks, i, tracts, log, history);
    settled := !Unsettled(tracts, d);
  }
}
