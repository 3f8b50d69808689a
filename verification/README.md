# MDP GridWorld: a Dafny model of the environment and its dynamic-programming solvers

This project models the core of an MDP grid world in three parts:

- **The environment** (`GridWorld.py`):
  - a rectangular map of Void, Pit, Exit and Wall cells, indexed `[y][x]`;
  - a deterministic move that is clamped at the border and blocked by walls;
  - a rotated noise table that expands one intended action into four outcomes (actual action, landing cell, probability);
  - a reward per cell type, a guard that the probabilities sum to 1, and a plain-text rendering of the map.
- **The solvers** (`Policy.py`):
  - the Bellman backup;
  - value iteration, with a synchronous sweep and an in-place ("turbo") sweep in x-outer, y-inner order, a max-norm convergence test, an iteration cap and a progress hook;
  - policy iteration, with its initial partial policy, a policy-evaluation sub-loop capped at 50 sweeps, a greedy improvement step and the outer loop;
  - the read-only Q-value and greedy-action accessors.
- **The settings gate** (`GUI.py`): `MDPChooser.checkSettingValues` as a decision over already-parsed text boxes, and the way `openMDPGUI` hands an accepted configuration to the world.

All arithmetic uses exact `real`. The files are:

- `wrappers.dfy`: `Option` and `Result`.
- `grid_world.dfy`: module `GridWorld`.
- `bellman.dfy`: module `Bellman`. It holds the backup, expected sums, Q-values, the first-maximum tie-break, the max-norm and the threshold.
- `value_iteration.dfy`: module `ValueIteration`.
- `policy_iteration.dfy`: module `PolicyIteration`.
- `settings.dfy`: module `Settings`.

The model follows the code as written, including these behaviours:

- **Policy evaluation discounts the reward too.** For a Void cell it computes `d * (reward + Σ p·u)`, not `reward + d * Σ p·u` (Policy.py:217-225). The docstring cites the textbook's policy-evaluation step (Policy.py:197), which has the second form; the model follows the code. `PolicyIteration.EvalBackupVersusQValue` states the gap.
- **The initial policy is inverted.** Void cells start with no action, and every other cell gets a random one (Policy.py:133).
  - A missing action falls into the last branch of the noise table, so it behaves as East (GridWorld.py:133-137).
  - Policy entries are `Option<Action>`. The random draw is a parameter `draw(x, y)`.
- **A zero discount raises.** The convergence threshold `eps * (1 - d) / d` then divides by zero (Policy.py:92, 230).
  - The code has no special case for a zero discount, and neither does the model.
  - Both solvers end with status `DivisionByZero` after their first sweep, with the counter already incremented.
  - Nothing ahead of the solvers prevents this: the settings dialog accepts a discount of 0 (GUI.py:242).
- **The iteration counter is cumulative.** It is reset only by `resetResults`, and both solvers add to it (Policy.py:43, 77, 152).
- **Policy iteration ignores its callback.** The callback's return value is overwritten by the change flag (Policy.py:179-182), so the callback cannot stop it.
- **Policy evaluation never runs in turbo mode.** `turbo` is forced off inside it (Policy.py:204).
- **The iteration cap is a parameter.** In the source it comes from world attributes that `GridWorld.py` does not define (Policy.py:34-35).

## Model

| member | source | states |
|---|---|---|
| GridWorld.Move | GridWorld.py:75-85 | The position after a move is always inside the grid. |
| GridWorld.MoveReachesFreeNeighbour | GridWorld.py:75-85 | A move reaches the neighbouring cell in the action's direction when that cell exists and is not a Wall. Otherwise the agent stays where it is, both at the border and in front of a wall. |
| GridWorld.Transition | GridWorld.py:63-85 | A missing (unknown) action is an error, and so is any origin that is not Void. Otherwise the move succeeds, stays in the grid and never ends on a Wall. The result is the origin or the one-step neighbour along the action's own axis, and it is the neighbour exactly when that neighbour is in the grid and not a Wall. |
| GridWorld.Outcomes | GridWorld.py:139-146 | Pit, Exit and Wall cells have no outcomes. A Void cell has exactly four, in N, S, W, E order, and each lands where the clamped, wall-blocked move sends its action. |
| GridWorld.OutcomesFollowTransition | GridWorld.py:142-146 | Every outcome's landing cell is what `transitionFunction` returns for that outcome's action. |
| GridWorld.NoiseIsRotated | GridWorld.py:117-137 | The written-out noise table equals a rotation rule. The intended action (East when there is none) gets the forward probability, its opposite gets backward, the action 90° counter-clockwise gets left and the remaining one gets right. |
| GridWorld.NoiseIsPermutation | GridWorld.py:117-137 | For every intended action, the four table entries are a permutation of (forward, left, right, backward). |
| GridWorld.OutcomeNoise | GridWorld.py:142-146 | The probabilities of a Void cell's outcomes follow the rotation rule and permute the four noise parameters. |
| GridWorld.OutcomeProbabilitiesSumToOne | GridWorld.py:103-105 | Once the `setProbabilities` guard has passed, the outcome probabilities of every Void cell sum to 1. |
| GridWorld.SetRewards | GridWorld.py:97-101 | Void, Pit and Exit cells get the three given rewards, and Wall cells get 0 whatever is passed. The map, the noise and the discount are unchanged. |
| GridWorld.SetDiscountFactor | GridWorld.py:94-95 | Only the discount changes. |
| GridWorld.RewardAt | GridWorld.py:152-153 | The reward of a cell is the one its type carries. After configuration it is the value stated by `RewardAtAfterSetRewards`. |
| GridWorld.RewardAtAfterSetRewards | GridWorld.py:97-101 | After `setRewards(step, pit, exit)`, `rewardAtCell` reads `step` on Void, `pit` on Pit, `exit` on Exit and 0 on Wall. |
| GridWorld.SetProbabilities | GridWorld.py:103-109 | Succeeds exactly when the four values sum to 1. On success the values are stored in F, L, R, B order and nothing else changes. Otherwise it fails with the sum error. |
| GridWorld.RenderRow | GridWorld.py:158-163 | One two-character token per cell, and no newline inside a row. |
| GridWorld.RenderRowTokens | GridWorld.py:159-163 | Cell `i` is rendered as its letter (E, P, W or V) at position `2i`, followed by a space. |
| GridWorld.Render | GridWorld.py:155-166 | The rendered map has the length of its tokens plus one newline between consecutive rows, so none follows the last row. |
| GridWorld.ParseRender | GridWorld.py:155-166 | The rendering is lossless: reading a rendered map back gives the same map. |
| Bellman.ResetResults | Policy.py:37-44 | The counter is 0 and the utility grid is all zeros, with `rows × cols` cells indexed `[y][x]`. |
| Bellman.ExpectedSumExplicit | Policy.py:115-118 | The expected successor utility is 0 for a cell without actions. For a Void cell it is the rotated noise weight of each action times the utility where that action moves, summed over all four. |
| Bellman.MissingActionActsAsEast | GridWorld.py:133-137 | A missing policy action gives the same expected successor utility as East. |
| Bellman.ActionSumsExplicit | Policy.py:114-118 | For a Void cell, the `i`-th sum is the rotated-noise expectation of the utility where each outcome of action `i` (N, S, W, E order) lands. For any other cell, all four sums are 0. |
| Bellman.FirstMax | Policy.py:119 | The index a strict-`>` scan keeps is a maximum, and every earlier entry is strictly smaller. |
| Bellman.FirstMaxUnique | Policy.py:119 | Only one index is a maximum preceded by strictly smaller values, so the tie-break is well defined. |
| Bellman.QValue | Policy.py:246 | There is no Q-value for a cell without actions, and there is one for every Void cell. |
| Bellman.QValueExplicit | Policy.py:246-258 | A cell without actions has no Q-value. At a Void cell, the Q-value of `a` is the cell's reward plus the discount times the rotated-noise expectation of the utility where `a`'s outcomes land. |
| Bellman.QValuesExplicit | Policy.py:246-251 | A cell without actions has no Q-values. A Void cell has four, in N, S, W, E order, and the `i`-th is the reward plus the discount times the rotated-noise expectation for action `i`. |
| Bellman.GreedyFromQValues | Policy.py:262-269 | There is no action for a cell without actions. Otherwise the result is the first action, in N, S, W, E order, with the largest Q-value. |
| Bellman.GreedyFromUtility | Policy.py:271-285 | There is no action for a cell without actions. Otherwise the result is the first action, in N, S, W, E order, with the largest expected successor utility. |
| Bellman.CellUtility | Policy.py:105-124 | A Pit, Exit or Wall cell is worth its reward. A Void cell is worth its reward plus the discounted expected successor utility of some action. With a non-negative discount, no action's discounted value is larger. Per-cell agreement with the Q-values is `BackupIsMaxQValue`. |
| Bellman.BackupIsMaxQValue | Policy.py:112-120 | With a non-negative discount, the backup of a Void cell is at least every Q-value of that cell. The greedy action's Q-value equals the backup. |
| Bellman.GreedyAccessorsAgree | Policy.py:262-285 | With a positive discount, both greedy accessors choose the same action at every cell. |
| Bellman.GridNormIsMax | Policy.py:78-85 | The max-norm of a change bounds every per-cell absolute change and is attained by one of them, or else is 0. |
| Bellman.GridNormUnique | Policy.py:78-85 | Any attained bound of that kind is the max-norm. This makes the scan order irrelevant. |
| ValueIteration.SyncSweep | Policy.py:80-88 | The new grid has the world's shape. Its cells are stated by `SyncSweepAt`, `SyncSweepFixedPoint` and `SweepKeepsTerminalRewards`. |
| ValueIteration.TurboSweep | Policy.py:72-88 | The grid updated in place keeps the world's shape. Its visiting order is `ScanOrderCells` and `ScanOrderDistinct`; its fixed points are `TurboSweepFixedPoint`. |
| ValueIteration.SyncSweepAt | Policy.py:80-88 | Each cell of a synchronous sweep is the backup of that cell computed from the previous grid. |
| ValueIteration.ScanOrderCells | Policy.py:82-83 | The x-outer, y-inner visiting order lists exactly the cells of the grid. |
| ValueIteration.ScanOrderDistinct | Policy.py:82-83 | The visiting order lists every cell only once. |
| ValueIteration.SweepKeepsTerminalRewards | Policy.py:121-123 | After either sweep, every Pit, Exit and Wall cell holds its reward. |
| ValueIteration.SyncSweepFixedPoint | Policy.py:80-88 | The synchronous sweep leaves a grid unchanged exactly when every cell equals its own backup. |
| ValueIteration.TurboSweepFixedPoint | Policy.py:72-86 | The in-place sweep leaves a grid unchanged exactly when every cell equals its own backup. |
| ValueIteration.TurboFixedPointIff | Policy.py:72-88 | Both sweeps have the same fixed points. |
| ValueIteration.Visit | Policy.py:84-86 | One visit backs up the cell from the previous grid, or in turbo mode from the grid being updated. It folds the change, measured against the value just before the write, into the max-norm and writes the cell. |
| ValueIteration.SweepInPlace | Policy.py:78-88 | The sweep loop yields the grid of the chosen sweep and exactly the max-norm of the change. |
| ValueIteration.Solve | Policy.py:76-97 | A solve performs at least one sweep and increases the cumulative counter. Starting below the cap, it never passes the cap. It ends with a division by zero exactly when the discount is 0. |
| ValueIteration.SolveDivides | Policy.py:90-92 | With discount 0 the call ends with a division by zero after one sweep, with the counter incremented once. |
| ValueIteration.SolveTrace | Policy.py:76-97 | With a non-zero discount the call performs `n ≥ 1` sweeps and the counter grows by exactly `n`. The result is the grid of `n` sweeps. After each of the first `n - 1` sweeps the hook continued, the change was above `eps·(1−d)/d` and the counter was below the cap; after the last one, one of these failed. |
| ValueIteration.SolveAtFixedPoint | Policy.py:76-97 | With a discount in `(0, 1]`, a grid that is already a fixed point is returned unchanged after a single sweep. |
| ValueIteration.Pass | Policy.py:82-97 | One pass of the loop body sweeps once and decides whether to continue. It continues exactly when the hook continued, the change exceeds the threshold and the counter is below the cap. |
| ValueIteration.RunValueIteration | Policy.py:50-103 | The loop, written as the source writes it (counter, sweep, hook, threshold test, cap test), computes the same run as `Solve`. |
| PolicyIteration.CreateEmptyPolicy | Policy.py:130-133 | The initial policy has no action on Void cells and a drawn action on every other cell. |
| PolicyIteration.InitialPolicyActsAsEast | Policy.py:133 | Under the initial policy, every Void cell is evaluated as if its action were East. |
| PolicyIteration.EvalSweep | Policy.py:213-225 | One evaluation sweep keeps the world's shape. Its cells are stated by `EvalSweepAt`, `EvalSweepKeepsTerminalRewards` and `EvalBackupVersusQValue`. |
| PolicyIteration.EvalSweepAt | Policy.py:215-225 | Each cell of an evaluation sweep is that cell's evaluation backup under the fixed policy, computed from the previous grid. |
| PolicyIteration.EvalBackupVersusQValue | Policy.py:217-225 | The evaluation backup of a Void cell equals the Q-value of its action plus `(d − 1)·reward`. The two agree exactly when `d = 1` or the reward is 0. |
| PolicyIteration.EvalSweepKeepsTerminalRewards | Policy.py:217-218 | After an evaluation sweep, every Pit, Exit and Wall cell holds its reward. |
| PolicyIteration.PolicyEvaluation | Policy.py:196-231 | Evaluation runs at least 1 and at most 50 sweeps. It ends with a division by zero exactly when the discount is 0. |
| PolicyIteration.EvaluationDivides | Policy.py:228-230 | With discount 0, evaluation ends with a division by zero after one sweep. |
| PolicyIteration.PolicyEvaluationTrace | Policy.py:209-231 | With a non-zero discount, evaluation performs `n` sweeps, `1 ≤ n ≤ 50`, and returns the grid of `n` sweeps. After each of the first `n − 1` sweeps, the change was above the threshold and fewer than 50 sweeps had run; after the last one, that failed. |
| PolicyIteration.Improve | Policy.py:156-177 | The improved policy has the world's shape. What each entry becomes is `ImproveCellChanges`; the flag is `ChangedIffDifferent`; greediness is `ImprovedIsGreedy`. |
| PolicyIteration.ImproveCellChanges | Policy.py:157-177 | Pit, Exit and Wall entries are never modified. A Void cell's action changes exactly when the best expected sum is strictly greater than the current action's, and then to the first best action in N, S, W, E order. |
| PolicyIteration.ImprovedIsGreedy | Policy.py:157-177 | After improvement, every Void cell's action attains the largest expected sum. |
| PolicyIteration.ChangedIffDifferent | Policy.py:156-177 | The change flag is set exactly when the improved policy differs from the old one. |
| PolicyIteration.PolicyIteration | Policy.py:135-194 | The loop always makes at least one pass and increases the cumulative counter. Starting below the cap, it never passes the cap. It ends with a division by zero exactly when the discount is 0. |
| PolicyIteration.PolicyIterationTrace | Policy.py:135-194 | With a non-zero discount the loop makes `n ≥ 1` passes and the counter grows by exactly `n`. Each pass evaluates the previous pass's policy and then improves it. Each of the first `n − 1` passes changed some cell and left the counter below the cap. The last pass changed nothing or reached the cap. The result is the last pass's utilities and policy. |
| PolicyIteration.PolicyIterationDivides | Policy.py:152-154 | With discount 0, the first pass ends inside evaluation, the policy is left unchanged and the counter is incremented once. |
| PolicyIteration.StableAtEnd | Policy.py:175-187 | When the loop ends normally before the cap, the final policy is stable: one more improvement against the final utilities would change nothing. |
| PolicyIteration.StablePolicyIsGreedy | Policy.py:175-177 | At a stable policy, every Void cell's action attains the largest expected sum. |
| PolicyIteration.TerminalActionsKept | Policy.py:157-159 | Pit, Exit and Wall cells keep their initial actions through every pass. |
| Settings.CheckRewards | GUI.py:206-218 | The reward loop passes exactly when each box parses, the step and pit rewards are ≤ 0 and the exit reward is ≥ 0. Otherwise it reports the error of the first failing box. |
| Settings.CheckProbabilities | GUI.py:220-231 | The probability loop passes exactly when each box parses and is non-negative, and then returns the sum. Otherwise it reports the first failing box as not a float or not positive. |
| Settings.AcceptsExactly | GUI.py:203-246 | The dialog accepts exactly these configurations: every box parses, the rewards have the right signs (0 passes both), the probabilities are non-negative and sum to 1, and the discount lies in `[0, 1]`. |
| Settings.ReportsFirstFailure | GUI.py:203-246 | The checks run as nine checks in order: three rewards, four probabilities, the sum, the discount. The dialog accepts exactly when none of them fails. Otherwise the reported error is the error of the first one that fails. |
| Settings.CheckSettingValues | GUI.py:203-246 | The dialog's decision. What it accepts is `AcceptsExactly`; which error it reports is `ReportsFirstFailure`. |
| Settings.BoundariesAccepted | GUI.py:213-244 | In any accepted configuration, any one reward box may read 0 and the configuration is still accepted, and so it is with the discount set to exactly 0 or exactly 1. |
| Settings.OpenMdp | GUI.py:248-260 | Hands an accepted configuration to the world. Its outcome is stated by `OpenMdpConfigures`. |
| Settings.OpenMdpConfigures | GUI.py:250-260 | Opening succeeds exactly when the dialog accepts, and then never hits the sum guard of `setProbabilities`. The world keeps its map and gets the discount, the rewards in step, pit, exit order (Wall 0) and the probabilities in F, L, R, B order. A rejection carries the dialog's error. |

## Left out

- Tk drawing, canvases, widgets and the drawing-size adjustment in the `GridWorld` constructor. These are user-interface side effects.
- The wall-clock time-to-live on both solver loops, which is non-deterministic. Only the iteration cap is modelled, as an explicit parameter.
- The progress callback's side effects. The callback is modelled as a list of continue/stop answers, one per sweep, with a missing answer meaning "continue" (which also covers "no callback").
  - The final `isEnded` call is left out, because its answer is discarded.
  - Policy iteration takes no hook, because its answer is overwritten.
- The warning dialogs and prints when the cap is reached.
- `randomAction`: the initial policy's random actions are a parameter `draw(x, y)`.
- `setAlgorithmRestrictions`, `numberOfIterations` and `timeToLive` on the world. These are not defined in `GridWorld.py`, so the cap is a parameter.
- Python `float()` parsing of the text boxes: a box that is not a float is `None`.
- IEEE floating-point rounding, including the exact `!= 1` comparisons on float sums, and the `%2.3f` string formatting of results. The model uses exact reals.
- Convergence and optimality of the solvers (contraction, agreement between value and policy iteration). The source does not establish these; the loops are bounded by the cap.
- GridWorld.Render: states the token layout through `RenderRowTokens`, the length and the read-back round trip, not as a literal string equation.
- ValueIteration.SweepInPlace: works on an immutable grid that it rebuilds cell by cell, rather than an in-place matrix. The turbo sweep's reads of already-updated cells are modelled exactly by the left fold `Scan`.
