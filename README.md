# Connect383 search agents in Dafny

This project models the game-tree search of the Connect383 agents in
`agents.py`. It covers:

- the exact minimax agent (`MinimaxAgent`) and its copy
  (`OtherMinimaxHeuristicAgent`);
- the depth-limited agent with its streak heuristic (`MinimaxHeuristicAgent`);
- the alpha-beta agent (`MinimaxPruneAgent`);
- the move selection `get_move` that all of them share.

A position is known to the agents only through `is_full()`, `utility()`,
`next_player()`, the board lines `get_cols()`, `get_rows()` and `get_diags()`,
and the ordered `successors()`. A position is therefore a finite tree node
`GameTree.State` carrying those answers. Each successor is an `Edge(move, child)`.
The Python sentinels `-math.inf` and `math.inf` become `NegInf` and `PosInf` of
`GameTree.Ext`; all other values are integers.

The searches are written as recursive methods with the source's `for` loops.
Each method is proved equal to a recursive specification function:

- `ExactSearch.MinimaxValue`: the exact minimax value;
- `Heuristic.DepthValue`: the depth-limited value;
- `Pruning.AlphaBetaValue`: alpha-beta with its cut-offs;
- `Evaluator.Score`: the evaluation heuristic;
- `Agents.Choose`: the move `get_move` returns.

The lemmas then say what those functions mean:

- minimax is optimal;
- with enough plies the depth-limited value is the exact value;
- alpha-beta is fail-soft, and with the full window it is exact;
- `get_move` keeps the first successor with the best value;
- the agents agree with each other.

`Evaluator.Evaluation` keeps the source's six counters. Its inner loop over the
cells of one line is the method `Evaluator.ScanCells`, which `Evaluation` calls
once per line with those counters. The heuristic is modelled as written, with
these behaviours:

- The two running streaks are never reset at the end of a line. Only the two
  per-line mark counts are reset. A streak therefore runs on into the next
  line.
- A streak still open after the last cell is never scored.
  `Evaluator.EvaluationSplits` states both points: the score equals the streak
  scan of all cells run together as one line, plus the per-line majority
  bonuses.
- The last `else` branch of the cell loop is commented "empty space or
  blocked". Empty cells (0) are already handled by the branch before it, so the
  last branch fires only for other values, such as the blocked cell -2. It
  closes and scores both streaks.
- An empty cell extends whichever streak is open. When neither is open, it
  starts the streak of the player to move.

A terminal position is one where `is_full()` holds. Its value is `utility()`
at any depth.

## Model

| member | source | states |
|---|---|---|
| GameTree.Max | agents.py:70 | `max(v, util)` is at least both arguments and is one of them |
| GameTree.Min | agents.py:76 | `min(v, util)` is at most both arguments and is one of them |
| GameTree.MaxOfIsMax | agents.py:67-71 | the loop `v = -inf; v = max(v, util)` ends with the largest value, which is one of the values, or -inf when there are none |
| GameTree.MinOfIsMin | agents.py:73-77 | the loop `v = inf; v = min(v, util)` ends with the smallest value, which is one of the values, or +inf when there are none |
| GameTree.MaxOfSnoc | agents.py:68-70 | one more iteration of the max loop folds the new value into the running max |
| GameTree.MinOfSnoc | agents.py:74-76 | one more iteration of the min loop folds the new value into the running min |
| ExactSearch.ChildValuesAt | agents.py:68-69 | entry i of the successor values is the minimax value of successor i |
| ExactSearch.MaxOfChildValuesSnoc | agents.py:68-70 | taking successor i into the max over the first i successors gives the max over the first i + 1 |
| ExactSearch.MinOfChildValuesSnoc | agents.py:74-76 | the same for the min |
| ExactSearch.MinimaxIsOptimal | agents.py:53-77 | a non-full position's minimax value is at least (player +1) or at most (player -1) every successor's value; it is one of those values; it is -inf / +inf when there are no successors |
| ExactSearch.Minimax | agents.py:53-77 | `MinimaxAgent.minimax` returns the exact minimax value: `utility()` on a full board, otherwise the max / min over the successors |
| ExactSearch.OtherMinimax | agents.py:296-320 | `OtherMinimaxHeuristicAgent.minimax`, which recurses into itself, returns the same exact minimax value |
| Evaluator.ScanLineSnoc | agents.py:164-199 | one more cell of the inner loop applies that cell's update to the counters |
| Evaluator.ScanLinesSnoc | agents.py:163-209 | one more line of the outer loop scans its cells, then adds the majority bonus and resets the counts |
| Evaluator.ScanCells | agents.py:164-199 | the cell loop over one line leaves the six counters as the cell-by-cell scan of that line defines them |
| Evaluator.Evaluation | agents.py:135-213 | `evaluation` returns player +1's total minus player -1's total after the scan of cols + rows + diags |
| Evaluator.EmptyExtendsOneStreak | agents.py:179-188 | on sound counters, an empty cell lengthens exactly one streak by 1: the open one, else the mover's; nothing else changes |
| Evaluator.StepScoresClosedStreaks | agents.py:165-199 | an opponent's mark or a blocked cell resets a player's streak to 0, and an empty cell or the player's own mark never shortens it; a total rises only when such a reset closes a streak of length 3 or more, and then by the streak's square |
| Evaluator.ScanLineKeeps | agents.py:164-199 | the cell loop keeps the counters non-negative with at most one streak open, never lowers a total, and adds each player's marks on the line to that player's count |
| Evaluator.ScanLinesKeeps | agents.py:163-209 | the whole scan keeps the counters sound and the totals monotone, and the mark counts are 0 after every line |
| Evaluator.ScoreIsDifferenceOfTotals | agents.py:213 | the evaluation is the difference of two non-negative totals |
| Evaluator.ScanLineShift | agents.py:164-199 | streak scoring ignores the mark counts and the totals already reached: counters that differ only there stay so |
| Evaluator.ScanLineAppend | agents.py:163-199 | scanning two cell lists one after the other equals scanning their concatenation, because streaks carry over |
| Evaluator.ScanLineCounts | agents.py:170-177 | the cell loop counts each player's marks on the line |
| Evaluator.ScanLinesSplits | agents.py:163-209 | from zero counts, the line-by-line scan equals the scan of all cells as one line plus each line's majority bonus; the counts end at 0 |
| Evaluator.EvaluationSplits | agents.py:135-213 | the evaluation is player +1's streak points over all cells run together plus +1's majority bonuses, minus the same for -1; line ends close no streak, and a final open streak scores nothing |
| Heuristic.DepthChildValuesAt | agents.py:118-119 | entry i of the successor values is successor i's depth-(d-1) value |
| Heuristic.MaxOfDepthChildValuesSnoc | agents.py:118-120 | one more max iteration of `minimax_depth` folds in successor i's value |
| Heuristic.MinOfDepthChildValuesSnoc | agents.py:124-126 | one more min iteration of `minimax_depth` folds in successor i's value |
| Heuristic.MinimaxDepth | agents.py:110-133 | `minimax_depth(s, d)` returns the depth-limited value: each recursive call has one ply fewer, and the search stops at a full board or when no plies are left |
| Heuristic.DepthCutOff | agents.py:110-133 | a full position's depth-limited value is `utility()` whatever the depth; with depth <= 0 a non-full position's value is `evaluation(s)` and does not depend on its successors |
| Heuristic.MaxHeight | agents.py:116-127 | auxiliary, not computed by the source: the tree height that the ply counter is compared against; the greatest height among the first k successors bounds each of their heights |
| Heuristic.DepthBeyondHeight | agents.py:89-98 | with a depth at least the height of the tree below s, the depth-limited value is the exact minimax value |
| Heuristic.MinimaxAsWritten | agents.py:105-108 | as written, a depth limit of None raises TypeError; any other limit gives `minimax_depth(s, limit)` |
| Heuristic.Minimax | agents.py:88-108 | as documented, a depth limit of None searches the whole tree and gives the exact value; a limit of 0 only evaluates a non-full position |
| Heuristic.NoLimitMeansFullDepth | agents.py:88-98 | the documented no-limit value is the exact value, and so is the value for every limit at least the height of the tree |
| Pruning.Minimax | agents.py:221-244 | `MinimaxPruneAgent.minimax` is `alphabeta(s, -inf, inf)` and equals the exact minimax value |
| Pruning.AlphaBeta | agents.py:246-271 | `alphabeta` returns the specified alpha-beta value: successors in order; the max branch stops at the first v >= beta; the min branch stops at the first v <= alpha, and its successors are searched by the agent's own minimax |
| Pruning.FullWindowBound | agents.py:224-225 | a fail-soft answer for the window (-inf, +inf) is the exact value |
| Pruning.FailSoft | agents.py:246-271 | for alpha < beta, alphabeta is fail-soft: the exact value when that lies strictly inside (alpha, beta); between the exact value and alpha when it is <= alpha; between beta and the exact value when it is >= beta |
| Pruning.MaxStep | agents.py:257-261 | one max-branch iteration either cuts off at a value between beta and the child's exact value, or keeps v below beta, at least the exact max so far, and with max(alpha0, v) equal to max(alpha0, exact max) |
| Pruning.MaxCut | agents.py:259-260 | a max-branch cut-off at v >= beta, with v at most the exact value, is a fail-soft answer |
| Pruning.MaxEnd | agents.py:262 | a max branch that ran through all successors returns a fail-soft answer |
| Pruning.MinCut | agents.py:268-269 | a min-branch cut-off at v <= alpha, with the exact value at most v, is a fail-soft answer |
| Pruning.MinEnd | agents.py:271 | a min branch that ran through all successors returns the exact value, which is a fail-soft answer |
| Pruning.MaxOfNext | agents.py:255-258 | successor i extends the exact max over the first i successors and is at most the node's value |
| Pruning.MinOfNext | agents.py:264-267 | successor i extends the exact min over the first i successors, which is at least the node's value |
| Pruning.AbMaxSound | agents.py:254-262 | the max loop, from any iteration whose state meets the loop conditions, answers fail-soft for the original window |
| Pruning.AbMaxSoundStep | agents.py:256-261 | the same, for an iteration that searches one more successor |
| Pruning.AbMinSound | agents.py:263-271 | the min loop, from any iteration where v is the exact min so far and above alpha, answers fail-soft |
| Pruning.AbMinSoundStep | agents.py:265-270 | the same, for an iteration that searches one more successor |
| Pruning.FullWindowIsExact | agents.py:224-225 | `alphabeta(s, -inf, inf)` equals `MinimaxAgent.minimax(s)` |
| Agents.AgentMinimax | agents.py:46 | `self.minimax(s)` dispatches to the agent's own search and returns that agent's value; a heuristic agent without a depth limit gets the documented whole-tree search (`Heuristic.Minimax`), not the as-written TypeError |
| Agents.AgentValuesAt | agents.py:45-46 | entry i of the values `get_move` compares is the agent's value of successor i |
| Agents.Pick | agents.py:40-50 | the kept position, if any, is a position of the list |
| Agents.PickSnoc | agents.py:45-50 | one more iteration replaces the best so far exactly when the new value is strictly better |
| Agents.PickIsBest | agents.py:40-50 | `best_util` ends as the max (player +1) or min (player -1) of the successors' values |
| Agents.PickIsFirstBest | agents.py:40-50 | nothing is kept exactly when every value is the sentinel; otherwise the kept position holds the best value and is strictly better than every earlier position |
| Agents.PickAgentValuesSnoc | agents.py:45-50 | one `get_move` iteration over successor i updates the choice as the strict comparison says |
| Agents.GetMove | agents.py:38-51 | `get_move` (and its copy at agents.py:281-294) returns the successor chosen by the selection loop over the agent's values, or (None, None) |
| Agents.ChooseIsFirstOptimal | agents.py:38-51 | `get_move` returns (None, None) exactly when every successor's value is the sentinel, in particular when there are no successors; otherwise it returns a successor of s whose value is optimal for the player to move and strictly better than every earlier successor's |
| Agents.ExactAgentsAgree | agents.py:274-320 | the pruning agent, the copied agent and the documented no-limit heuristic agent compute the exact minimax value; so does a heuristic agent whose limit is at least the tree's height |
| Agents.AgentsChooseAlike | agents.py:281-294 | when the depth limit covers every successor's subtree, all four agents return the same move, with the no-limit heuristic agent as documented |
| Agents.ExactMoveIsOptimal | agents.py:38-51 | from a non-full position, the exact agent's move is a successor whose minimax value is the position's own |

## Left out

- Agents.AgentMinimax: a heuristic agent whose depth limit is None is given the documented whole-tree search (`Heuristic.Minimax`). As written, its `minimax` raises TypeError (see Findings), so its `get_move` raises at agents.py:46 on any position with a successor. `Agents.ExactAgentsAgree` and `Agents.AgentsChooseAlike` describe the documented agent.
- `RandomAgent` and `HumanAgent` are left out: they are randomness and console input.
- `connect383.GameState` is not part of this model. A position is a finite tree
  that carries the answers of `is_full()`, `utility()`, `next_player()`, the
  three line lists and `successors()`. No board rule (gravity, win lines,
  utility) is modelled.
- Agents are modelled as the values of `Agents.Agent`, not as Python classes. Their only
  state is `depth_limit`, which they set in `__init__` and never change.
  `OtherMinimaxHeuristicAgent` stores a `depth_limit` it never reads, and the model carries it unused.
- Pruning.Minimax: the docstring at agents.py:224-228 also says alpha-beta "should do less work", as counted by `GameState.state_count`; the model proves only the value, not how many states are visited.
- Heuristic.DepthCutOff: "no traversal is performed" at depth 0 is stated as
  the value not depending on the successors, not as a count of calls.
- Evaluator.Evaluation: the inner cell loop is the separate method
  `Evaluator.ScanCells` and not inline. It has the same statements over the same six counters.
- `math.inf` is a float. Here it is `NegInf`/`PosInf` of `GameTree.Ext`. Python's mixed
  int/float comparisons become `GameTree.Le`. Equal values are identical, so the
  tie-breaking of `max`/`min` does not matter.
- `BOT_NAME` and the commented-out `space_counter` are left out. Neither affects any result.

## Findings

| source | as written | input that shows it | evidently intended | confidence | as-written member | corrected member |
|---|---|---|---|---|---|---|
| agents.py:105-106 | `MinimaxAgent.minimax(state)` calls the method on the class. `state` binds to `self`, the `state` argument is missing, and the call raises TypeError | any position, with `depth_limit` None | search the whole tree, as the docstring at agents.py:98 says: `MinimaxAgent.minimax(self, state)` | not executed | Heuristic.MinimaxAsWritten | Heuristic.Minimax |
