# Adversarial search agents for Pacman, modelled in Dafny

This project models the search core of `multiAgents.py`. That file holds the
three adversarial agents that choose Pacman's move: `MinimaxAgent`,
`AlphaBetaAgent` and `ExpectimaxAgent`. It also holds the two evaluation
functions those agents score their leaves with: `scoreEvaluationFunction`
and `betterEvaluationFunction`.

Pacman is agent 0 and maximises. Ghosts 1..n-1 move after Pacman in index
order. Under minimax and alpha-beta each ghost minimises. Under expectimax
each ghost picks one of its legal moves uniformly at random. The depth counter
goes up by one only when control wraps from the last ghost back to Pacman. A
node is a leaf when the state is won or lost, or when the depth reaches the
agent's depth limit.

Every search is written twice:
- As a recursive function, the specification: `MinimaxSearch.Minimax`,
  `AlphaBetaSearch.AlphaBeta` and `ExpectimaxSearch.Expectimax`.
- As the methods the agents run: the recursion and the `for` loops of
  `max_value`, `min_value` and `exp_value`. Each method is proved to compute
  its function.

The properties of the searches are proved about the functions. These include:
- the max and min rules with first-action tie-break;
- the alpha-beta window lemma;
- alpha-beta choosing the same root decision as minimax;
- the exact mean at chance nodes;
- the absence of +inf in expectimax.

Modules:
- `Values` (`values.dfy`):
  - the extended values -inf, finite reals and +inf that model the float
    sentinels;
  - Python's `max`/`min`;
  - the max and min loops and the chance-node accumulation;
  - their independent characterisations.
- `Games` (`games.dfy`):
  - the game-state queries the searches use;
  - the agent configuration, which is its depth and evaluation function;
  - `scoreEvaluationFunction`;
  - the turn order.
- `MinimaxSearch`, `AlphaBetaSearch`, `ExpectimaxSearch`: the three agents.
- `Evaluation` (`evaluation.dfy`): `betterEvaluationFunction`.
- `Scenarios` (`scenarios.dfy`): a two-ply game worked through by minimax and
  alpha-beta, including one alpha cut that skips a leaf whatever its score.

## Model

| member | source | states |
|---|---|---|
| Games.NextTurnProgress | multiAgents.py:107-110 | after agent i comes agent (i+1) mod n at depth d + (i+1) div n, that is agent i+1 at the same depth except that after the last ghost comes Pacman one depth deeper; the next agent is in range and (depth, agent) strictly increases |
| Games.PacmanHandsToFirstGhost | multiAgents.py:95-96 | the hand-over the max loops make directly, Pacman to agent 1 at the same depth, is the general turn rule's, so the round counting applies to the searches |
| Games.DepthCountsRounds | multiAgents.py:102-110 | starting from Pacman at depth d, q full rounds plus r more moves reach agent r at depth d+q, so depth counts rounds and not single moves |
| Values.Max | multiAgents.py:149 | `max(alpha, v)` is an upper bound of both arguments and equal to one of them |
| Values.Min | multiAgents.py:166 | `min(beta, v)` is a lower bound of both arguments and equal to one of them |
| Values.PickMaxIsFirstMax | multiAgents.py:91-100 | the max loop from -inf with strict `>` returns a value that bounds every successor value and is attained; its action is the first action attaining it; with no legal action, or all values -inf, it returns (-inf, None) |
| Values.PickMinIsFirstMin | multiAgents.py:102-114 | the min loop from +inf with strict `<` returns the least successor value with the first action attaining it; with no legal action, or all values +inf, it returns (+inf, None) |
| Values.FirstMaxUnique | multiAgents.py:91-100 | the first-maximum description fixes value and action completely, so any loop meeting it agrees with max_value |
| Values.FirstMinUnique | multiAgents.py:102-114 | the first-minimum description fixes value and action completely |
| Values.AccumulateFinite | multiAgents.py:210-217 | over finite values, repeating `v += p * value` adds exactly p times the sum of the values |
| Values.AccumulateNegInf | multiAgents.py:217 | a -inf value anywhere among the values makes the accumulated total -inf |
| Values.AccumulateNoPosInf | multiAgents.py:217 | with no +inf among the values, the total is never +inf |
| MinimaxSearch.CutoffRule | multiAgents.py:82-84 | at a won or lost state, or at the depth limit, minimax returns the evaluation function's value and no action, whatever the agent index |
| MinimaxSearch.ScoreEvaluationLeaf | multiAgents.py:21-29 | with scoreEvaluationFunction, a leaf is worth its game score |
| MinimaxSearch.CutoffRootHasNoAction | multiAgents.py:80-84 | getAction returns None for a won or lost root and for depth limit 0 |
| MinimaxSearch.MaxRule | multiAgents.py:86-100 | at Pacman's turn the value is the maximum of the successors' minimax values, with the first action attaining it |
| MinimaxSearch.MinRule | multiAgents.py:88-114 | at a ghost's turn the value is the minimum of the successors' minimax values, with the first action attaining it |
| MinimaxSearch.MinimaxNode | multiAgents.py:82-89 | the recursion computes the minimax function at every (state, depth, agent) |
| MinimaxSearch.MaxValue | multiAgents.py:91-100 | the max_value loop computes the first-maximum fold over the successor values |
| MinimaxSearch.MinValue | multiAgents.py:102-114 | the min_value loop computes the first-minimum fold; the last ghost hands over to Pacman one depth deeper, the others to the next ghost |
| AlphaBetaSearch.CutoffRule | multiAgents.py:129-131 | at a won or lost state, or at the depth limit, alpha_beta returns the evaluation function's value and no action, whatever the agent index and the window |
| AlphaBetaSearch.AlphaBetaWindow | multiAgents.py:129-167 | for alpha <= beta, the pruned value equals the minimax value when that lies in [alpha, beta]; when minimax is below alpha, the pruned value is below alpha but not below minimax; when minimax is above beta, it is above beta but not above minimax |
| AlphaBetaSearch.MaxScanWindow | multiAgents.py:138-150 | through the max loop with its beta exit and alpha update, the running value tracks the plain loop's running maximum as the window lemma requires |
| AlphaBetaSearch.MinScanWindow | multiAgents.py:152-167 | the same for the min loop with its alpha exit and beta update |
| AlphaBetaSearch.FullWindowValue | multiAgents.py:127-136 | searched with (-inf, +inf), every node's alpha-beta value is its minimax value |
| AlphaBetaSearch.RootScanAgrees | multiAgents.py:138-150 | at the root, with beta = +inf and alpha following the running maximum, the pruned max loop makes the same updates as the plain one |
| AlphaBetaSearch.AgreesWithMinimax | multiAgents.py:122-127 | AlphaBetaAgent's root decision (value and action) equals MinimaxAgent's, so getAction returns the same action |
| AlphaBetaSearch.AlphaBetaNode | multiAgents.py:129-136 | the recursion computes the alpha-beta function |
| AlphaBetaSearch.MaxValue | multiAgents.py:138-150 | the loop with early return when v > beta and `alpha = max(alpha, v)` computes the pruned max scan |
| AlphaBetaSearch.MinValue | multiAgents.py:152-167 | the loop with early return when v < alpha and `beta = min(beta, v)` computes the pruned min scan |
| ExpectimaxSearch.CutoffRule | multiAgents.py:186-188 | a leaf is scored by the evaluation function, with no action and no error |
| ExpectimaxSearch.MaxNode | multiAgents.py:190-204 | Pacman's node fails exactly when a successor fails; otherwise it is the first maximum of the successor values |
| ExpectimaxSearch.ChanceNode | multiAgents.py:192-218 | a ghost's node fails exactly when it has no legal action or a successor fails; otherwise it has no action, and with finite successor values its value is their exact arithmetic mean; a successor worth -inf makes it -inf |
| ExpectimaxSearch.RootChoice | multiAgents.py:184-204 | getAction at a non-leaf root aborts exactly when some successor search does, and otherwise returns the first action of maximal successor value |
| ExpectimaxSearch.ChanceExample | multiAgents.py:206-218 | a ghost whose three successors are worth 2, 4 and 6 is worth 4, the mean, and not 2, the minimum |
| ExpectimaxSearch.NeverPosInf | multiAgents.py:186-218 | no expectimax value is +inf, so the chance sum never meets -inf plus +inf |
| ExpectimaxSearch.ChildNeverPosInf | multiAgents.py:211-216 | no successor searched from a chance or max node is worth +inf |
| ExpectimaxSearch.ExpectimaxNode | multiAgents.py:186-193 | the recursion computes the expectimax function, failures included |
| ExpectimaxSearch.MaxValue | multiAgents.py:195-204 | the max loop computes the max rule, propagating a successor's failure |
| ExpectimaxSearch.ExpValue | multiAgents.py:206-218 | `p = 1.0 / len(actions)` fails on an empty action list; the loop `v += p * value` computes the chance rule |
| Evaluation.Manhattan | multiAgents.py:239 | the Manhattan distance is non-negative and zero exactly between equal positions |
| Evaluation.NearestFood | multiAgents.py:239 | the closest-food distance is no larger than the distance to any pellet and is the distance to some pellet |
| Evaluation.FoodTermNearest | multiAgents.py:238-240 | with food left, the food term is positive, equals 1/distance for some pellet, and is at least 1/distance for every pellet |
| Evaluation.GhostTermSign | multiAgents.py:244-249 | a scared ghost adds a positive amount; an active ghost adds a non-positive amount, nothing when it shares Pacman's square |
| Evaluation.GhostTotalAppend | multiAgents.py:243-249 | the ghost terms add up over any split of the ghost list |
| Evaluation.BetterEvaluationFunction | multiAgents.py:221-257 | fails with a division by zero exactly when Pacman stands on food or on a scared ghost; otherwise returns score + 1/nearest-food + ghost terms - 2 per food pellet - 20 per capsule |
| Scenarios.LeafValue | multiAgents.py:82-84 | each leaf of the worked game is worth its score |
| Scenarios.GhostNodeOne | multiAgents.py:102-114 | the ghost answers Pacman's first move with its least leaf, 3 |
| Scenarios.GhostNodeTwo | multiAgents.py:102-114 | the ghost answers Pacman's second move with its least leaf, 2 |
| Scenarios.MinimaxChoosesFirstMove | multiAgents.py:56-100 | minimax plays the first move for a value of 3, and alpha-beta returns the same action |
| Scenarios.GhostNodeTwoIsCut | multiAgents.py:161-165 | with alpha = 3, the min loop at the second ghost node returns (2, first action) whatever the second leaf is worth; when that leaf is worth less than 2, plain minimax returns it instead, so the pruned loop never reads it |
| Scenarios.RootSearchReachesCut | multiAgents.py:127-150 | getAction's root search, after ghost node 1 is worth 3, continues its max loop at ghost node 2 with alpha = 3 and beta = +inf, the call that is cut, and returns (3, a0) whatever the last leaf is worth |

## Left out

- The GameState implementation is not part of this model. The searches take
  its queries as a record of functions (`Games.Game`): legal actions,
  successor, won, lost and score. The source asks each state for its number
  of agents; here that number is fixed for a game and is at least 2. Pacman's
  move always hands over to agent 1, so the search needs at least one ghost.
- The searches take a total evaluation function (`Games.Agent.evaluate`
  returns a real). An evaluation that raises is therefore not propagated
  through minimax, alpha-beta or expectimax. With betterEvaluationFunction
  chosen (lines 48 and 261), a leaf where Pacman stands on food or on a scared
  ghost raises ZeroDivisionError (lines 240 and 246) through the whole search
  in the source; the model does not capture that failure.
- `MultiAgentSearchAgent.__init__` (lines 46-49) turns a function name and a
  numeric string into the evaluation function and depth through `util.lookup`
  and `int`. Here the agent (`Games.Agent`) is given them directly. `self.index`
  is always 0, which is Pacman's index in every search.
- Floats: values are exact reals plus -inf and +inf, with no rounding.
  `Values.AddScaled` sends -inf + +inf to -inf, where Python gives nan.
  `ExpectimaxSearch.NeverPosInf` shows that this case never arises.
- Exceptions: only ZeroDivisionError is modelled. The chance rule's
  `1.0 / len(actions)` returns `DivisionByZero`, and that failure propagates
  through the expectimax search to the root. betterEvaluationFunction's two
  divisions also return a failure (`Evaluation.Evaluated`), but only when it
  is called on its own. These failures are kept as in the source, not
  excluded by preconditions.
- `util.manhattanDistance`, `food.asList` and the game's ghost-state objects
  are not part of this model. Positions are pairs of reals and the distance is
  defined here. Ghost positions can be fractional while a ghost moves between
  squares.
- The Agent base class, the other agents of the Pacman framework, the
  graphics, and the unused imports (`Directions`, `random`) are not modelled.
  No performance counters (nodes expanded, leaves visited) are kept.
