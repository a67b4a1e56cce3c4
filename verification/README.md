# Schelling segregation on a circular city — Dafny model

This project models the simulation engine of a one-dimensional Schelling
segregation model. A city is a circular row of `n` tracts. Each tract holds
zero or one agent. An agent has an identity (`A` or `B`), a prejudice (the
least share of same-identity neighbours it accepts) and a unique id. The
engine has five parts, and the model covers all of them:

- the circular neighbourhood of a tract (`genNeighborsIndex`);
- neighbourhood homogeneity (`genHomogeneity`);
- the availability and happiness surveys (`surveyAvailability`, `surveyHappiness`);
- the relocation loop with its move log (`executeMoves`);
- the mean prejudice (`surveyAvgPrejudice`).

The city's state is a `seq<Tract>`, with `Tract(filled, resident)`. All
operations are pure functions over that sequence. The exception is the
relocation loop, written as three methods. `MoveLoop.RunOnePick` is one pass
of the loop body. `MoveLoop.RunLoop` holds the `while` loop; its invariant
`MoveLoop.RunSoFar` carries the log shape, the conservation of agents, the
description of every logged move and the agreement with the run the picks
determine. `MoveLoop.ExecuteMoves` calls `RunLoop` and states the outcome.

Modules, one per component: `Options`, `Agents` (agents, tracts, construction,
the multiset of residents), `Neighbors`, `Homogeneities`, `Survey`,
`Relocation` (one iteration of the loop), `MoveLoop` (the loop and
`moveData`), `Statistics` (mean prejudice), and `FrozenFlags` (the move as the
source actually executes it; see Findings).

Modelling choices:

- The random draws are inputs. Agent and tract construction take their
  uniform draws and the id as a `Draw`. Each loop iteration takes a
  `Pick(mover, destination)`, and a pick selects `xs[pick % |xs|]`.
  `Relocation.LegalMoveReachable` shows that every legal move is selected by
  some pair of picks.
- Homogeneity and prejudice are `real`. Homogeneity is the exact ratio of two
  neighbour counts.
- The neighbourhood radius `d` is a parameter. The source fixes it to 3 in
  `generateTracts` (`Neighbors.CityRadius`). Python's `%` with a positive divisor agrees with Dafny's `%`.
- The main model maintains the availability flag on every move, as the
  comments of the move code intend. The code as executed does not; see
  Findings.
- The code gives empty tracts happiness 1 and homogeneity 0, and the model
  does the same. The comment before the resident check says an empty tract
  gets happiness 0, but the code never sets it.

## Model

| member | source | states |
|---|---|---|
| Agents.NewAgent | SchellingModule.py:10-21 | the agent has the drawn identity and id, and its prejudice is max times the uniform draw, so it lies in [0, max], strictly below max when max is positive |
| Agents.NewTract | SchellingModule.py:35-56 | a tract is filled exactly when its running variable is below 0.9; its flag agrees with its resident; a resident carries the drawn identity and id and the prejudice 0.7 times the uniform draw, in [0, 0.7) |
| Agents.GenerateTracts | SchellingModule.py:84-98 | one tract per draw, in order: tract k is filled exactly when draw k's running variable is below 0.9, and its resident carries draw k's identity, id and prejudice 0.7 times draw k's uniform draw; all flags are consistent and all prejudices in range |
| Agents.GeneratedPopulation | SchellingModule.py:84-98 | a freshly generated city holds exactly as many agents as there are draws below the 0.9 cut-off, one per filled tract |
| Neighbors.NeighborsIndex | SchellingModule.py:244-247 | exactly 2d indices, all in [0, n): first (i-d .. i-1) mod n, then (i+1 .. i+d) mod n |
| Neighbors.NeighborsDistinct | SchellingModule.py:230-247 | when 2d < n the 2d neighbours are pairwise distinct and none is the tract itself |
| Neighbors.NeighborsWithinRadius | SchellingModule.py:230-247 | when 2d < n, j is a neighbour of i exactly when j differs from i and their circular distance is at most d |
| Homogeneities.Homogeneity | SchellingModule.py:268-294 | the result lies in [0, 1], is 0 when no neighbour is occupied, and times the occupied-neighbour count equals the same-identity count |
| Homogeneities.CurrentHomogeneity | SchellingModule.py:259-266 | "current" mode gives no value for an empty tract and otherwise the homogeneity seen by the tract's own resident |
| Homogeneities.SimilarAtMostOccupied | SchellingModule.py:269-287 | the same-identity count never exceeds the occupied count |
| Homogeneities.OccupiedZeroIff | SchellingModule.py:273-292 | the occupied count is zero exactly when every listed tract is empty |
| Homogeneities.SimilarZeroIff | SchellingModule.py:273-287 | the same-identity count over a list of tracts is 0 exactly when no occupied listed tract holds that identity |
| Homogeneities.HomogeneityZeroIff | SchellingModule.py:268-294 | homogeneity is 0 exactly when the same-identity neighbour count is 0, and exactly when no occupied neighbour shares the identity |
| Homogeneities.HomogeneityOneIff | SchellingModule.py:268-294 | with an occupied neighbour, homogeneity is 1 exactly when every occupied neighbour shares the identity |
| Homogeneities.HomogeneityLocal | SchellingModule.py:273-287 | two cities whose neighbouring tracts hold the same residents give the same homogeneity |
| Survey.SurveyAvailability | SchellingModule.py:296-305 | one entry per tract, equal to that tract's filled flag |
| Survey.AvailabilityCountsPopulation | SchellingModule.py:371-374 | with consistent flags, the sum of the availability list is the number of agents |
| Survey.SurveyHappiness | SchellingModule.py:307-320 | one homogeneity entry and one happiness entry per tract |
| Survey.SurveyHappinessMeaning | SchellingModule.py:311-356 | an empty tract has homogeneity 0 and happiness 1; an occupied tract carries its resident's homogeneity, in [0, 1], and is unhappy exactly when that is below the resident's prejudice |
| Survey.NoPrejudiceSettled | SchellingModule.py:344-350 | agents with zero prejudice are all happy, so such a city is settled from the start |
| Survey.CountTrueFullIff | SchellingModule.py:134 | the sum of a 0/1 list equals its length exactly when every entry is 1 |
| Survey.SettledIffFullSum | SchellingModule.py:134 | the loop test sum(happiness) == n holds exactly when every tract is happy |
| Survey.ZeroIndices | SchellingModule.py:136 | the positions whose flag is 0, in increasing order, all of them and nothing else; their number is the length minus the sum |
| Survey.UnhappyCount | SchellingModule.py:203-205 | n - sum(happiness) is the number of unhappy tracts, and is zero exactly when the city is settled |
| Survey.UnhappyAtMostPopulation | SchellingModule.py:203-205 | the unhappy count never exceeds the number of agents |
| Survey.MeanHomogeneity | SchellingModule.py:207-208 | the mean times the availability sum equals the sum of the homogeneity list |
| Survey.MeanHomogeneityBounds | SchellingModule.py:207-209 | with consistent flags, the logged mean homogeneity lies in [0, 1] |
| Relocation.Choose | SchellingModule.py:139 | a random choice always returns a member of the list |
| Relocation.ChooseIndex | SchellingModule.py:182 | the pick k selects element k, so every element can be chosen |
| Relocation.Qualifying | SchellingModule.py:165-167 | a candidate is kept exactly when its homogeneity to the mover is at least the mover's prejudice |
| Relocation.EmptyTracts | SchellingModule.py:147-148 | a tract is listed exactly when its availability flag is 0 |
| Relocation.UnhappyTracts | SchellingModule.py:135-136 | a tract is listed exactly when it is unhappy, and the list is as long as the unhappy count |
| Relocation.Destinations | SchellingModule.py:147-167 | a tract is a destination exactly when it is flagged empty and its homogeneity to the mover meets the mover's prejudice |
| Relocation.Relocate | SchellingModule.py:186-195 | the destination holds the mover and is filled, the origin is empty and unfilled, every other tract is unchanged |
| Relocation.RelocateKeepsInvariants | SchellingModule.py:186-195 | a move keeps every flag consistent with its resident and every prejudice in range |
| Relocation.RelocateConservesResidents | SchellingModule.py:186-195 | a move from an occupied tract to an empty one keeps exactly the same agents, so the number of occupied tracts is conserved |
| Relocation.MoveStep | SchellingModule.py:134-195 | in an unsettled city the mover's tract is occupied and unhappy; a move is legal and goes to another tract; the mover is skipped exactly when no empty tract qualifies |
| Relocation.LegalMoveReachable | SchellingModule.py:139-182 | every legal move is the step made by some pair of random picks |
| Relocation.LegalMoveTargetsEmptyTract | SchellingModule.py:147-148 | with consistent flags, a legal destination has no resident and differs from the origin |
| Relocation.UnhappyListNonEmpty | SchellingModule.py:134-139 | inside the loop the unhappy list is non-empty, so the choice of a mover is defined |
| Relocation.MoverHappyAfterMove | SchellingModule.py:157-200 | if the origin is not a neighbour of the destination and 2d < n, the mover is happy after the move |
| Relocation.MoverMayStayUnhappy | SchellingModule.py:157-200 | without that hypothesis a legal move can leave the mover unhappy |
| MoveLoop.ExtendRun | SchellingModule.py:172-209 | appending the row of a legal move keeps all six columns the same length and every row describing its move |
| MoveLoop.RunHistory | SchellingModule.py:134-195 | each move of a run consumes one pick, so a run makes at most as many moves as there are picks; a settled city makes none |
| MoveLoop.NoMoveIff | SchellingModule.py:134-170 | a run makes no move exactly when the city is settled or every pick draws a mover with no qualifying tract, so the loop never stops while a pick could still move someone |
| MoveLoop.RunOnePick | SchellingModule.py:136-211 | one pass of the loop body on an unsettled city: when no empty tract qualifies, the city, log and history are unchanged; otherwise the mover goes to the picked destination, the city has an empty tract left, one row describing that move is logged and the new city is appended to the history; either way the state describes the first i + 1 picks of the run, with agents conserved and flags consistent |
| MoveLoop.RunLoop | SchellingModule.py:133-211 | the loop stops only when the picks run out or every agent is happy, and the moves it made so far begin the run the picks determine, with agents conserved and every row describing its move |
| MoveLoop.ExecuteMoves | SchellingModule.py:100-211 | the moves made are exactly the run the picks determine, which ends only when every agent is happy or the picks run out; agents, population and consistency are conserved; all six columns have one row per move; moveIndex is 1..k; each row is a legal move of the logged agent with the unhappy count and mean homogeneity surveyed after it; on return from the settled state every tract is happy; a settled or full city makes no move |
| Statistics.AvgPrejudice | SchellingModule.py:361-378 | undefined exactly when the availability sum is zero; otherwise the mean times that sum equals the total prejudice of the residents |
| Statistics.SumPrejudiceBounds | SchellingModule.py:362-369 | the total prejudice lies between 0 and 0.7 times the number of agents |
| Statistics.AvgPrejudiceBounds | SchellingModule.py:361-378 | with at least one agent and consistent flags, the mean prejudice is defined and lies in [0, 0.7] |
| Statistics.RelocateKeepsAvgPrejudice | SchellingModule.py:186-195 | a move changes neither the total nor the mean prejudice |
| FrozenFlags.RelocateAsWritten | SchellingModule.py:186-195 | the executed move relocates the resident but leaves every availability flag as it was |
| FrozenFlags.RelocateAsWrittenLosesOccupant | SchellingModule.py:186-191 | the executed move loses exactly the agent, if any, who lived at the destination |
| FrozenFlags.SecondMoveOverwrites | SchellingModule.py:147-195 | as executed, a second legal move onto the tract a first legal move filled removes the first mover from the city; with maintained flags that second move is not legal |
| FrozenFlags.AgentLostAsWritten | SchellingModule.py:93-195 | at the source's radius 3, a fourteen-tract city admits two such legal moves in a row, and the city loses agent 6 |

## Left out

- Randomness: `random.choice`, `random.uniform` and `uuid.uuid4` are inputs (`Draw`, `Pick`); ids are `nat`, and their uniqueness is not enforced.
- pandas: the DataFrame and its `query` are a plain filter over the list of empty tracts (`Relocation.Qualifying`).
- Console output: the `print` calls after the first move and after every 50th move, and the commented-out debug prints, are I/O.
- Floating point: homogeneity, prejudice and the means are exact `real` values, with no rounding.
- Object identity: `list.index(tract)` finds a tract's own position; the model passes the position directly.
- MoveLoop.ExecuteMoves: does not model running until settled. The source can loop forever, for example when no tract is empty. The model consumes one `Pick` per iteration, skipped iterations included, stops when the picks run out, and reports `settled == false` if the city is still unsettled then.
- Configuration: the source never checks `n` or `d`; the neighbourhood lemmas that need distinct neighbours assume `2 * d < n`.
- Agents.GenerateTracts: the probability of occupancy is not modelled; the draws are given, and the 0.9 cut-off decides occupancy.

## Findings

| source | as written | input that shows it | evidently intended | confidence | as-written member | corrected member |
|---|---|---|---|---|---|---|
| SchellingModule.py:191-195 | the move assigns `__filled` from inside class `City`, which Python mangles to `_City__filled`; `getResidence` reads `_Tract__filled`, so the availability flags never change after construction | fourteen tracts at the fixed radius 3; tract 0 is empty; tracts 1-3 and 11-13 hold A agents; A agents with prejudice 0.5 sit at tracts 6 and 8 among B agents; everyone else has prejudice 0. Agent 6 moves to tract 0. Agent 8 then moves to tract 0 too, which is still flagged empty, and agent 6 is overwritten | the move updates the destination's and the origin's own availability flags, so every agent keeps a tract | high; not executed | FrozenFlags.AgentLostAsWritten | Relocation.RelocateConservesResidents |
