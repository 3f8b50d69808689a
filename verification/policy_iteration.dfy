/**
  Policy iteration: the initial partial policy, the bounded policy
  evaluation sub-loop, the greedy improvement step and the outer loop.

  Policy evaluation always runs the synchronous sweep, and its backup of a
  Void cell discounts the reward together with the expectation:
  `d * (reward + expectation)`.
*/
module PolicyIteration {
  import opened Wrappers
  import opened GridWorld
  import opened Bellman

  /** An action per cell, indexed `[y][x]`; `None` where no action was chosen. */
  type Policy = seq<seq<Option<Action>>>

  predicate PolicyShaped(w: World, pol: Policy)
    requires Valid(w)
  {
    |pol| == Rows(w) && forall y :: 0 <= y < |pol| ==> |pol[y]| == Cols(w)
  }

  function ActionAt(pol: Policy, p: Pos): Option<Action>
    requires 0 <= p.y < |pol| && 0 <= p.x < |pol[p.y]|
  {
    pol[p.y][p.x]
  }

  /**
    `__createEmptyPolicy`: a Void cell starts without an action and every
    other cell gets an action drawn at random; `draw(x, y)` stands for that
    draw.
  */
  function CreateEmptyPolicy(w: World, draw: (int, int) -> Action): (pol: Policy)
    requires Valid(w)
    ensures PolicyShaped(w, pol)
    ensures forall y, x :: 0 <= y < Rows(w) && 0 <= x < Cols(w) ==>
              pol[y][x] == if w.cells[y][x] == Void then None else Some(draw(x, y))
  {
    seq(Rows(w), y requires 0 <= y < Rows(w) =>
      seq(Cols(w), x requires 0 <= x < Cols(w) => if CellAt(w, Pos(x, y)) == Void then None else Some(draw(x, y))))
  }

  /**
    The initial policy leaves every Void cell without an action, and a cell
    without an action is expanded as if it were East.
  */
  lemma InitialPolicyActsAsEast(w: World, draw: (int, int) -> Action, u: Grid, p: Pos)
    requires Valid(w) && Shaped(w, u) && InGrid(w, p) && CellAt(w, p) == Void
    ensures ActionAt(CreateEmptyPolicy(w, draw), p) == None
    ensures ExpectedSum(w, u, p, ActionAt(CreateEmptyPolicy(w, draw), p)) == ExpectedSum(w, u, p, Some(East))
  {
    MissingActionActsAsEast(w, u, p);
  }

  // ---------------------------------------------------------------------------
  // Policy evaluation
  // ---------------------------------------------------------------------------

  /** The evaluation sub-loop's cap on its own sweeps (`_pe_maxk`). */
  const EvaluationCap: nat := 50

  /** `d * (r + e)`: the evaluation backup discounts the reward along with the expectation. */
  function DiscountedTotal(r: real, d: real, e: real): real {
    d * (r + e)
  }

  /** The evaluation backup of one cell under the policy's action. */
  function EvalBackup(w: World, u: Grid, pol: Policy, p: Pos): real
    requires Valid(w) && Shaped(w, u) && PolicyShaped(w, pol) && InGrid(w, p)
  {
    if CellAt(w, p) == Void then DiscountedTotal(RewardAt(w, p), w.discount, ExpectedSum(w, u, p, ActionAt(pol, p)))
    else RewardAt(w, p)
  }

  /**
    Next to the Q-value of the policy's action (reward plus discounted
    expectation), the evaluation backup of a Void cell is off by
    `(d - 1) * reward`: the two agree exactly when the discount is 1 or the
    reward is 0.
  */
  lemma EvalBackupVersusQValue(w: World, u: Grid, pol: Policy, p: Pos, a: Action)
    requires Valid(w) && Shaped(w, u) && PolicyShaped(w, pol) && InGrid(w, p)
    requires CellAt(w, p) == Void && ActionAt(pol, p) == Some(a)
    ensures EvalBackup(w, u, pol, p) == QValue(w, u, p, a).value + (w.discount - 1.0) * RewardAt(w, p)
    ensures EvalBackup(w, u, pol, p) == QValue(w, u, p, a).value <==> w.discount == 1.0 || RewardAt(w, p) == 0.0
  {
    var r, d, e := RewardAt(w, p), w.discount, ExpectedSum(w, u, p, Some(a));
    assert EvalBackup(w, u, pol, p) == DiscountedTotal(r, d, e);
    assert QValue(w, u, p, a).value == Discounted(r, d, e);
    DiscountedTotalGap(r, d, e);
  }

  /** `d * (r + e)` exceeds `r + d * e` by `(d - 1) * r`. */
  lemma DiscountedTotalGap(r: real, d: real, e: real)
    ensures DiscountedTotal(r, d, e) == Discounted(r, d, e) + (d - 1.0) * r
    ensures DiscountedTotal(r, d, e) == Discounted(r, d, e) <==> d == 1.0 || r == 0.0
  {
    ProductIsZero(d - 1.0, r);
  }

  lemma ProductIsZero(a: real, b: real)
    ensures a * b == 0.0 <==> a == 0.0 || b == 0.0
  {
    if a != 0.0 && b != 0.0 {
      if (a > 0.0 && b > 0.0) || (a < 0.0 && b < 0.0) {
        assert a * b > 0.0;
      } else {
        assert a * b < 0.0;
      }
    }
  }

  /** One evaluation sweep; evaluation never runs in place. */
  function EvalSweep(w: World, u: Grid, pol: Policy): (v: Grid)
    requires Valid(w) && Shaped(w, u) && PolicyShaped(w, pol)
    ensures Shaped(w, v)
  {
    seq(Rows(w), y requires 0 <= y < Rows(w) => EvalRow(w, u, pol, y))
  }

  /** Row `y` of an evaluation sweep. */
  function EvalRow(w: World, u: Grid, pol: Policy, y: int): (row: seq<real>)
    requires Valid(w) && Shaped(w, u) && PolicyShaped(w, pol) && 0 <= y < Rows(w)
    ensures |row| == Cols(w)
  {
    seq(Cols(w), x requires 0 <= x < Cols(w) => EvalBackup(w, u, pol, Pos(x, y)))
  }

  lemma EvalSweepAt(w: World, u: Grid, pol: Policy, p: Pos)
    requires Valid(w) && Shaped(w, u) && PolicyShaped(w, pol) && InGrid(w, p)
    ensures EvalSweep(w, u, pol)[p.y][p.x] == EvalBackup(w, u, pol, p)
  {
  }

  /** An evaluation sweep gives Pit, Exit and Wall cells exactly their reward. */
  lemma EvalSweepKeepsTerminalRewards(w: World, u: Grid, pol: Policy, p: Pos)
    requires Valid(w) && Shaped(w, u) && PolicyShaped(w, pol) && InGrid(w, p) && CellAt(w, p) != Void
    ensures EvalSweep(w, u, pol)[p.y][p.x] == RewardAt(w, p)
  {
    EvalSweepAt(w, u, pol, p);
  }

  /** What the evaluation sub-loop leaves: the grid, its own sweep count and how it ended. */
  datatype Evaluation = Evaluation(utilities: Grid, sweeps: nat, status: Status)

  /** `n` evaluation sweeps from `u`. */
  function EvalIterate(w: World, u: Grid, pol: Policy, n: nat): (v: Grid)
    requires Valid(w) && Shaped(w, u) && PolicyShaped(w, pol)
    ensures Shaped(w, v)
  {
    if n == 0 then u else EvalSweep(w, EvalIterate(w, u, pol, n - 1), pol)
  }

  /** The max-norm of the change made by sweep `i` (0-based) from `u`. */
  function EvalChange(w: World, u: Grid, pol: Policy, i: nat): real
    requires Valid(w) && Shaped(w, u) && PolicyShaped(w, pol)
  {
    GridNorm(EvalIterate(w, u, pol, i), EvalIterate(w, u, pol, i + 1))
  }

  /**
    `policyEvaluation` started on `u`, once `k` sweeps are done: sweep once
    more, then stop when that sweep's max-norm is within `eps * (1 - d) / d`
    or when the sweep count reaches the cap; a discount of 0 divides by zero
    in the test.
  */
  function Evaluate(w: World, u: Grid, pol: Policy, k: nat): (e: Evaluation)
    requires Valid(w) && Shaped(w, u) && PolicyShaped(w, pol) && k < EvaluationCap
    ensures Shaped(w, e.utilities)
    ensures k < e.sweeps <= EvaluationCap
    ensures e.status == DivisionByZero <==> w.discount == 0.0
    decreases EvaluationCap - k
  {
    var next := EvalIterate(w, u, pol, k + 1);
    if w.discount == 0.0 then Evaluation(next, k + 1, DivisionByZero)
    else if EvalChange(w, u, pol, k) <= Threshold(w.discount) || k + 1 >= EvaluationCap then Evaluation(next, k + 1, Done)
    else Evaluate(w, u, pol, k + 1)
  }

  function PolicyEvaluation(w: World, u: Grid, pol: Policy): (e: Evaluation)
    requires Valid(w) && Shaped(w, u) && PolicyShaped(w, pol)
    ensures Shaped(w, e.utilities)
    ensures 1 <= e.sweeps <= EvaluationCap
    ensures e.status == DivisionByZero <==> w.discount == 0.0
  {
    Evaluate(w, u, pol, 0)
  }

  /** A zero discount ends the sub-loop with a division by zero right after its first sweep. */
  lemma EvaluationDivides(w: World, u: Grid, pol: Policy)
    requires Valid(w) && Shaped(w, u) && PolicyShaped(w, pol) && w.discount == 0.0
    ensures PolicyEvaluation(w, u, pol) == Evaluation(EvalSweep(w, u, pol), 1, DivisionByZero)
  {
    assert EvalIterate(w, u, pol, 1) == EvalSweep(w, u, pol);
  }

  /**
    After sweep `i` (0-based) the sub-loop goes on: that sweep changed the
    grid by more than the threshold and the sweep count is below the cap.
  */
  predicate EvalGoesOn(w: World, u: Grid, pol: Policy, i: nat)
    requires Valid(w) && Shaped(w, u) && PolicyShaped(w, pol) && w.discount != 0.0
  {
    EvalChange(w, u, pol, i) > Threshold(w.discount) && i + 1 < EvaluationCap
  }

  lemma EvaluateStops(w: World, u: Grid, pol: Policy, k: nat)
    requires Valid(w) && Shaped(w, u) && PolicyShaped(w, pol) && k < EvaluationCap && w.discount != 0.0
    requires !EvalGoesOn(w, u, pol, k)
    ensures Evaluate(w, u, pol, k) == Evaluation(EvalIterate(w, u, pol, k + 1), k + 1, Done)
  {
  }

  lemma EvaluateGoesOn(w: World, u: Grid, pol: Policy, k: nat)
    requires Valid(w) && Shaped(w, u) && PolicyShaped(w, pol) && k < EvaluationCap && w.discount != 0.0
    requires EvalGoesOn(w, u, pol, k)
    ensures k + 1 < EvaluationCap && Evaluate(w, u, pol, k) == Evaluate(w, u, pol, k + 1)
  {
  }

  /** With a non-zero discount the sub-loop ends normally with the grid its sweeps produce. */
  lemma {:induction false} EvaluateResult(w: World, u: Grid, pol: Policy, k: nat)
    requires Valid(w) && Shaped(w, u) && PolicyShaped(w, pol) && k < EvaluationCap && w.discount != 0.0
    ensures Evaluate(w, u, pol, k).status == Done
    ensures Evaluate(w, u, pol, k).utilities == EvalIterate(w, u, pol, Evaluate(w, u, pol, k).sweeps)
    decreases EvaluationCap - k
  {
    if EvalGoesOn(w, u, pol, k) {
      EvaluateGoesOn(w, u, pol, k);
      EvaluateResult(w, u, pol, k + 1);
    } else {
      EvaluateStops(w, u, pol, k);
    }
  }

  /** The sub-loop went on after every sweep but the last. */
  lemma {:induction false} EvaluateWentOn(w: World, u: Grid, pol: Policy, k: nat, i: nat)
    requires Valid(w) && Shaped(w, u) && PolicyShaped(w, pol) && k < EvaluationCap && w.discount != 0.0
    requires k <= i < Evaluate(w, u, pol, k).sweeps - 1
    ensures EvalGoesOn(w, u, pol, i)
    decreases EvaluationCap - k
  {
    if !EvalGoesOn(w, u, pol, k) {
      EvaluateStops(w, u, pol, k);
    } else if i > k {
      EvaluateGoesOn(w, u, pol, k);
      EvaluateWentOn(w, u, pol, k + 1, i);
    }
  }

  /** The index (0-based) of the last sweep of a sub-loop resumed after `k` sweeps. */
  function LastSweep(w: World, u: Grid, pol: Policy, k: nat): nat
    requires Valid(w) && Shaped(w, u) && PolicyShaped(w, pol) && k < EvaluationCap
  {
    Evaluate(w, u, pol, k).sweeps - 1
  }

  /** The sub-loop stopped after its last sweep. */
  lemma {:induction false} EvaluateStopped(w: World, u: Grid, pol: Policy, k: nat)
    requires Valid(w) && Shaped(w, u) && PolicyShaped(w, pol) && k < EvaluationCap && w.discount != 0.0
    ensures !EvalGoesOn(w, u, pol, LastSweep(w, u, pol, k))
    decreases EvaluationCap - k
  {
    if EvalGoesOn(w, u, pol, k) {
      EvaluateGoesOn(w, u, pol, k);
      EvaluateStopped(w, u, pol, k + 1);
      assert LastSweep(w, u, pol, k) == LastSweep(w, u, pol, k + 1);
    } else {
      EvaluateStops(w, u, pol, k);
      assert LastSweep(w, u, pol, k) == k;
    }
  }

  /**
    With a non-zero discount, policy evaluation performs `n` sweeps, between
    1 and the cap: the result is the grid `n` sweeps produce, the sub-loop
    went on after each of the first `n - 1` (the grid changed by more than
    the threshold) and stopped after the last (it did not, or the cap was
    reached).
  */
  lemma PolicyEvaluationTrace(w: World, u: Grid, pol: Policy)
    requires Valid(w) && Shaped(w, u) && PolicyShaped(w, pol) && w.discount != 0.0
    ensures var e := PolicyEvaluation(w, u, pol);
            && 1 <= e.sweeps <= EvaluationCap
            && e.status == Done
            && e.utilities == EvalIterate(w, u, pol, e.sweeps)
            && (forall i: nat :: i < e.sweeps - 1 ==> EvalGoesOn(w, u, pol, i))
            && !EvalGoesOn(w, u, pol, e.sweeps - 1)
  {
    EvaluateResult(w, u, pol, 0);
    EvaluateStopped(w, u, pol, 0);
    assert LastSweep(w, u, pol, 0) == PolicyEvaluation(w, u, pol).sweeps - 1;
    forall i: nat | i < PolicyEvaluation(w, u, pol).sweeps - 1 ensures EvalGoesOn(w, u, pol, i) {
      EvaluateWentOn(w, u, pol, 0, i);
    }
  }

  // ---------------------------------------------------------------------------
  // Policy improvement
  // ---------------------------------------------------------------------------

  /**
    The improvement test of one Void cell: the best expected sum over the
    four actions is strictly greater than the expected sum of the cell's
    current action.
  */
  predicate Improvable(w: World, u: Grid, pol: Policy, p: Pos)
    requires Valid(w) && Shaped(w, u) && PolicyShaped(w, pol) && InGrid(w, p)
  {
    CellAt(w, p) == Void && MaxOf(ActionSums(w, u, p)) > ExpectedSum(w, u, p, ActionAt(pol, p))
  }

  /** The improved action of one cell: the first best action where the test succeeds, the old one elsewhere. */
  function ImproveCell(w: World, u: Grid, pol: Policy, p: Pos): Option<Action>
    requires Valid(w) && Shaped(w, u) && PolicyShaped(w, pol) && InGrid(w, p)
  {
    if Improvable(w, u, pol, p) then Some(Actions[FirstMax(ActionSums(w, u, p))]) else ActionAt(pol, p)
  }

  /** The improved policy and the `someChanges` flag. */
  datatype Improvement = Improvement(policy: Policy, changed: bool)

  /**
    The improvement pass: every cell is tested against the utilities of the
    evaluation, and `changed` records whether any test succeeded.
  */
  function Improve(w: World, u: Grid, pol: Policy): (r: Improvement)
    requires Valid(w) && Shaped(w, u) && PolicyShaped(w, pol)
    ensures PolicyShaped(w, r.policy)
  {
    Improvement(
      seq(Rows(w), y requires 0 <= y < Rows(w) =>
        seq(Cols(w), x requires 0 <= x < Cols(w) => ImproveCell(w, u, pol, Pos(x, y)))),
      AnyImprovable(w, u, pol))
  }

  predicate AnyImprovable(w: World, u: Grid, pol: Policy)
    requires Valid(w) && Shaped(w, u) && PolicyShaped(w, pol)
  {
    exists y, x :: 0 <= y < Rows(w) && 0 <= x < Cols(w) && Improvable(w, u, pol, Pos(x, y))
  }

  lemma ImproveAt(w: World, u: Grid, pol: Policy, p: Pos)
    requires Valid(w) && Shaped(w, u) && PolicyShaped(w, pol) && InGrid(w, p)
    ensures ActionAt(Improve(w, u, pol).policy, p) == ImproveCell(w, u, pol, p)
  {
  }

  /** The expected sum of the best action is the largest action sum. */
  lemma BestActionSum(w: World, u: Grid, p: Pos)
    requires Valid(w) && Shaped(w, u) && InGrid(w, p)
    ensures ExpectedSum(w, u, p, Some(Actions[FirstMax(ActionSums(w, u, p))])) == MaxOf(ActionSums(w, u, p))
  {
    var k := FirstMax(ActionSums(w, u, p));
    IndexOfAction(k);
    ActionSumAt(w, u, p, Actions[k]);
  }

  /** No action's expected sum exceeds the largest action sum, a missing action included. */
  lemma ActionSumAtMost(w: World, u: Grid, p: Pos, a: Option<Action>)
    requires Valid(w) && Shaped(w, u) && InGrid(w, p)
    ensures ExpectedSum(w, u, p, a) <= MaxOf(ActionSums(w, u, p))
  {
    var b := a.GetOr(East);
    if a.None? {
      MissingActionActsAsEast(w, u, p);
    }
    ActionSumAt(w, u, p, b);
  }

  /**
    A cell's action changes exactly when its test succeeds, and then to the
    first best action; Pit, Exit and Wall cells keep theirs.
  */
  lemma ImproveCellChanges(w: World, u: Grid, pol: Policy, p: Pos)
    requires Valid(w) && Shaped(w, u) && PolicyShaped(w, pol) && InGrid(w, p)
    ensures CellAt(w, p) != Void ==> ImproveCell(w, u, pol, p) == ActionAt(pol, p)
    ensures ImproveCell(w, u, pol, p) != ActionAt(pol, p) <==> Improvable(w, u, pol, p)
    ensures Improvable(w, u, pol, p) ==> ImproveCell(w, u, pol, p) == GreedyFromUtility(w, u, p)
  {
    if Improvable(w, u, pol, p) {
      GreedyOfVoid(w, u, p);
      BestActionSum(w, u, p);
    }
  }

  /** After improvement, every Void cell's action attains the largest action sum. */
  lemma ImprovedIsGreedy(w: World, u: Grid, pol: Policy, p: Pos)
    requires Valid(w) && Shaped(w, u) && PolicyShaped(w, pol) && InGrid(w, p) && CellAt(w, p) == Void
    ensures ExpectedSum(w, u, p, ImproveCell(w, u, pol, p)) == MaxOf(ActionSums(w, u, p))
  {
    if Improvable(w, u, pol, p) {
      BestActionSum(w, u, p);
    } else {
      ActionSumAtMost(w, u, p, ActionAt(pol, p));
    }
  }

  /** `someChanges` is set exactly when the improved policy differs from the old one. */
  lemma ChangedIffDifferent(w: World, u: Grid, pol: Policy)
    requires Valid(w) && Shaped(w, u) && PolicyShaped(w, pol)
    ensures Improve(w, u, pol).changed <==> Improve(w, u, pol).policy != pol
  {
    var r := Improve(w, u, pol);
    if r.changed {
      var y, x :| 0 <= y < Rows(w) && 0 <= x < Cols(w) && Improvable(w, u, pol, Pos(x, y));
      ImproveCellChanges(w, u, pol, Pos(x, y));
      ImproveAt(w, u, pol, Pos(x, y));
      assert r.policy[y][x] != pol[y][x];
    } else {
      forall y | 0 <= y < Rows(w) ensures r.policy[y] == pol[y] {
        forall x | 0 <= x < Cols(w) ensures r.policy[y][x] == pol[y][x] {
          ImproveCellChanges(w, u, pol, Pos(x, y));
          ImproveAt(w, u, pol, Pos(x, y));
        }
      }
    }
  }

  // ---------------------------------------------------------------------------
  // The outer loop
  // ---------------------------------------------------------------------------

  /** What policy iteration leaves: utilities, policy, the cumulative counter and how it ended. */
  datatype PolicyRun = PolicyRun(utilities: Grid, policy: Policy, iterations: nat, status: Status)

  /**
    The loop of `policyIteration` from a given policy: each pass increments
    the counter, evaluates the policy and improves it; it stops when no cell
    changed or when the counter reaches the cap.  A division by zero in the
    evaluation ends the call before the improvement.
  */
  function PolicyIterationFrom(w: World, s: SolverState, pol: Policy, cap: nat): (r: PolicyRun)
    requires Valid(w) && Shaped(w, s.utilities) && PolicyShaped(w, pol)
    ensures Shaped(w, r.utilities) && PolicyShaped(w, r.policy)
    ensures r.iterations > s.iterations
    ensures s.iterations < cap ==> r.iterations <= cap
    ensures r.status == DivisionByZero <==> w.discount == 0.0
    decreases if s.iterations < cap then cap - s.iterations else 0
  {
    var count := s.iterations + 1;
    var e := PolicyEvaluation(w, s.utilities, pol);
    if e.status == DivisionByZero then PolicyRun(e.utilities, pol, count, DivisionByZero)
    else
      var imp := Improve(w, e.utilities, pol);
      if !imp.changed || count >= cap then PolicyRun(e.utilities, imp.policy, count, Done)
      else PolicyIterationFrom(w, SolverState(e.utilities, count), imp.policy, cap)
  }

  /** `policyIteration`: the loop from the initial partial policy. */
  function PolicyIteration(w: World, s: SolverState, cap: nat, draw: (int, int) -> Action): (r: PolicyRun)
    requires Valid(w) && Shaped(w, s.utilities)
    ensures Shaped(w, r.utilities) && PolicyShaped(w, r.policy)
    ensures r.iterations > s.iterations
    ensures s.iterations < cap ==> r.iterations <= cap
    ensures r.status == DivisionByZero <==> w.discount == 0.0
  {
    PolicyIterationFrom(w, s, CreateEmptyPolicy(w, draw), cap)
  }

  /** A zero discount ends the first pass in the evaluation, leaving the policy as it was. */
  lemma PolicyIterationDivides(w: World, s: SolverState, pol: Policy, cap: nat)
    requires Valid(w) && Shaped(w, s.utilities) && PolicyShaped(w, pol) && w.discount == 0.0
    ensures PolicyIterationFrom(w, s, pol, cap)
            == PolicyRun(EvalSweep(w, s.utilities, pol), pol, s.iterations + 1, DivisionByZero)
  {
    EvaluationDivides(w, s.utilities, pol);
  }

  /** The loop goes on after a pass that changed a cell, below the cap. */
  predicate PassGoesOn(w: World, s: SolverState, pol: Policy, cap: nat)
    requires Valid(w) && Shaped(w, s.utilities) && PolicyShaped(w, pol)
  {
    Improve(w, PolicyEvaluation(w, s.utilities, pol).utilities, pol).changed && s.iterations + 1 < cap
  }

  lemma PolicyIterationStops(w: World, s: SolverState, pol: Policy, cap: nat)
    requires Valid(w) && Shaped(w, s.utilities) && PolicyShaped(w, pol) && w.discount != 0.0
    requires !PassGoesOn(w, s, pol, cap)
    ensures var u := PolicyEvaluation(w, s.utilities, pol).utilities;
            PolicyIterationFrom(w, s, pol, cap) == PolicyRun(u, Improve(w, u, pol).policy, s.iterations + 1, Done)
  {
  }

  lemma PolicyIterationGoesOn(w: World, s: SolverState, pol: Policy, cap: nat)
    requires Valid(w) && Shaped(w, s.utilities) && PolicyShaped(w, pol) && w.discount != 0.0
    requires PassGoesOn(w, s, pol, cap)
    ensures var u := PolicyEvaluation(w, s.utilities, pol).utilities;
            PolicyIterationFrom(w, s, pol, cap)
            == PolicyIterationFrom(w, SolverState(u, s.iterations + 1), Improve(w, u, pol).policy, cap)
  {
  }

  /**
    The loop's state after a pass: the counter, the evaluated utilities, the
    improved policy and whether the improvement changed some cell.  The
    stage the loop starts from has had no pass; its flag is not consulted.
  */
  datatype Stage = Stage(state: SolverState, policy: Policy, changed: bool)

  predicate StageShaped(w: World, st: Stage)
    requires Valid(w)
  {
    Shaped(w, st.state.utilities) && PolicyShaped(w, st.policy)
  }

  /** One pass from a stage: count, evaluate the policy, improve it. */
  function NextStage(w: World, st: Stage): (n: Stage)
    requires Valid(w) && StageShaped(w, st)
    ensures StageShaped(w, n)
    ensures n.state.iterations == st.state.iterations + 1
  {
    var u := PolicyEvaluation(w, st.state.utilities, st.policy).utilities;
    var imp := Improve(w, u, st.policy);
    Stage(SolverState(u, st.state.iterations + 1), imp.policy, imp.changed)
  }

  /** The stage after `k` passes. */
  function StageAt(w: World, st: Stage, k: nat): (r: Stage)
    requires Valid(w) && StageShaped(w, st)
    ensures StageShaped(w, r)
    ensures r.state.iterations == st.state.iterations + k
    decreases k
  {
    if k == 0 then st else StageAt(w, NextStage(w, st), k - 1)
  }

  /** The stage after `k + 1` passes is one pass after the stage after `k`. */
  lemma {:induction false} StageAtSucc(w: World, st: Stage, k: nat)
    requires Valid(w) && StageShaped(w, st)
    ensures StageAt(w, st, k + 1) == NextStage(w, StageAt(w, st, k))
    decreases k
  {
    if k > 0 {
      var n := NextStage(w, st);
      var j := k - 1;
      StageAtSucc(w, n, j);
      StageAtNext(w, st, k);
      StageAtNext(w, st, j);
      assert j + 1 == k;
      assert StageAt(w, n, j + 1) == StageAt(w, n, k);
      assert StageAt(w, st, j + 1) == StageAt(w, st, k);
      assert StageAt(w, st, k) == StageAt(w, n, j);
    } else {
      StageAtNext(w, st, 0);
    }
  }

  /** Passes `k + 1` from a stage are `k` passes from the next one. */
  lemma StageAtNext(w: World, st: Stage, k: nat)
    requires Valid(w) && StageShaped(w, st)
    ensures StageAt(w, st, k + 1) == StageAt(w, NextStage(w, st), k)
  {
  }

  /** The same, for a pass count `k1` known to be `k + 1`. */
  lemma StageShift(w: World, st: Stage, k: nat, k1: nat)
    requires Valid(w) && StageShaped(w, st) && k1 == k + 1
    ensures StageAt(w, st, k1) == StageAt(w, NextStage(w, st), k)
  {
    StageAtNext(w, st, k);
  }

  /** What the loop returns when it stops at a stage. */
  function End(st: Stage): PolicyRun
  {
    PolicyRun(st.state.utilities, st.policy, st.state.iterations, Done)
  }

  /** The number of passes the loop makes from a stage. */
  function Passes(w: World, st: Stage, cap: nat): (n: nat)
    requires Valid(w) && StageShaped(w, st)
  {
    PolicyIterationFrom(w, st.state, st.policy, cap).iterations - st.state.iterations
  }

  /** The loop's continuation test, read off the stage the pass produces. */
  lemma GoesOnIff(w: World, st: Stage, cap: nat)
    requires Valid(w) && StageShaped(w, st)
    ensures PassGoesOn(w, st.state, st.policy, cap)
            <==> NextStage(w, st).changed && st.state.iterations + 1 < cap
  {
  }

  /** A pass that stops the loop is the only one, and its stage is the result. */
  lemma StageStops(w: World, st: Stage, cap: nat)
    requires Valid(w) && StageShaped(w, st) && w.discount != 0.0
    requires !PassGoesOn(w, st.state, st.policy, cap)
    ensures PolicyIterationFrom(w, st.state, st.policy, cap) == End(NextStage(w, st))
    ensures Passes(w, st, cap) == 1
  {
    var u := PolicyEvaluation(w, st.state.utilities, st.policy).utilities;
    var n := NextStage(w, st);
    assert n.state == SolverState(u, st.state.iterations + 1) && n.policy == Improve(w, u, st.policy).policy;
    PolicyIterationStops(w, st.state, st.policy, cap);
  }

  /** After a pass that goes on, the rest of the run is the run from the next stage, one pass shorter. */
  lemma StageGoesOn(w: World, st: Stage, cap: nat)
    requires Valid(w) && StageShaped(w, st) && w.discount != 0.0
    requires PassGoesOn(w, st.state, st.policy, cap)
    ensures var n := NextStage(w, st);
            && PolicyIterationFrom(w, st.state, st.policy, cap) == PolicyIterationFrom(w, n.state, n.policy, cap)
            && Passes(w, st, cap) == Passes(w, n, cap) + 1
  {
    var u := PolicyEvaluation(w, st.state.utilities, st.policy).utilities;
    var n := NextStage(w, st);
    assert n.state == SolverState(u, st.state.iterations + 1) && n.policy == Improve(w, u, st.policy).policy;
    PolicyIterationGoesOn(w, st.state, st.policy, cap);
    PassesShift(w, st, n, cap);
  }

  /** Two stages one pass apart that lead to the same run differ by one pass. */
  lemma PassesShift(w: World, st: Stage, n: Stage, cap: nat)
    requires Valid(w) && StageShaped(w, st) && StageShaped(w, n)
    requires n.state.iterations == st.state.iterations + 1
    requires PolicyIterationFrom(w, st.state, st.policy, cap) == PolicyIterationFrom(w, n.state, n.policy, cap)
    ensures Passes(w, st, cap) == Passes(w, n, cap) + 1
  {
  }

  lemma {:induction false} PolicyIterationResult(w: World, st: Stage, cap: nat)
    requires Valid(w) && StageShaped(w, st) && w.discount != 0.0
    ensures PolicyIterationFrom(w, st.state, st.policy, cap) == End(StageAt(w, st, Passes(w, st, cap)))
    decreases if st.state.iterations < cap then cap - st.state.iterations else 0, 1
  {
    if PassGoesOn(w, st.state, st.policy, cap) {
      ResultAfterGoingOn(w, st, cap);
    } else {
      StageStops(w, st, cap);
      StageShift(w, st, 0, Passes(w, st, cap));
    }
  }

  lemma {:induction false} ResultAfterGoingOn(w: World, st: Stage, cap: nat)
    requires Valid(w) && StageShaped(w, st) && w.discount != 0.0
    requires PassGoesOn(w, st.state, st.policy, cap)
    ensures PolicyIterationFrom(w, st.state, st.policy, cap) == End(StageAt(w, st, Passes(w, st, cap)))
    decreases if st.state.iterations < cap then cap - st.state.iterations else 0, 0
  {
    var n := NextStage(w, st);
    var m := Passes(w, n, cap);
    StageGoesOn(w, st, cap);
    PolicyIterationResult(w, n, cap);
    StageShift(w, st, m, Passes(w, st, cap));
  }

  /** A run of more than one pass went on after its first pass. */
  lemma FirstPassGoesOn(w: World, st: Stage, cap: nat)
    requires Valid(w) && StageShaped(w, st) && w.discount != 0.0
    requires 1 < Passes(w, st, cap)
    ensures PassGoesOn(w, st.state, st.policy, cap)
  {
    if !PassGoesOn(w, st.state, st.policy, cap) {
      StageStops(w, st, cap);
      assert false;
    }
  }

  lemma {:induction false} PolicyIterationWentOn(w: World, st: Stage, cap: nat, i: nat)
    requires Valid(w) && StageShaped(w, st) && w.discount != 0.0
    requires 1 <= i < Passes(w, st, cap)
    ensures StageAt(w, st, i).changed && st.state.iterations + i < cap
    decreases i, 1
  {
    FirstPassGoesOn(w, st, cap);
    if i == 1 {
      GoesOnIff(w, st, cap);
      StageAtNext(w, st, 0);
    } else {
      WentOnLater(w, st, cap, i);
    }
  }

  lemma {:induction false} WentOnLater(w: World, st: Stage, cap: nat, i: nat)
    requires Valid(w) && StageShaped(w, st) && w.discount != 0.0
    requires 1 < i < Passes(w, st, cap) && PassGoesOn(w, st.state, st.policy, cap)
    ensures StageAt(w, st, i).changed && st.state.iterations + i < cap
    decreases i, 0
  {
    var n := NextStage(w, st);
    StageGoesOn(w, st, cap);
    PolicyIterationWentOn(w, n, cap, i - 1);
    StageShift(w, st, i - 1, i);
  }

  lemma {:induction false} PolicyIterationStopped(w: World, st: Stage, cap: nat)
    requires Valid(w) && StageShaped(w, st) && w.discount != 0.0
    ensures !StageAt(w, st, Passes(w, st, cap)).changed || st.state.iterations + Passes(w, st, cap) >= cap
    decreases if st.state.iterations < cap then cap - st.state.iterations else 0, 1
  {
    if PassGoesOn(w, st.state, st.policy, cap) {
      StoppedAfterGoingOn(w, st, cap);
    } else {
      StageStops(w, st, cap);
      GoesOnIff(w, st, cap);
      StageShift(w, st, 0, Passes(w, st, cap));
    }
  }

  lemma {:induction false} StoppedAfterGoingOn(w: World, st: Stage, cap: nat)
    requires Valid(w) && StageShaped(w, st) && w.discount != 0.0
    requires PassGoesOn(w, st.state, st.policy, cap)
    ensures !StageAt(w, st, Passes(w, st, cap)).changed || st.state.iterations + Passes(w, st, cap) >= cap
    decreases if st.state.iterations < cap then cap - st.state.iterations else 0, 0
  {
    var n := NextStage(w, st);
    var m := Passes(w, n, cap);
    StageGoesOn(w, st, cap);
    PolicyIterationStopped(w, n, cap);
    StageShift(w, st, m, Passes(w, st, cap));
  }

  /**
    The whole run with a non-zero discount, as the stages after each pass:
    the loop makes `n >= 1` passes and adds `n` to the counter; each pass
    evaluates and improves the stage before it; passes 1 to `n - 1` changed
    some cell and left the counter below the cap; pass `n` changed nothing
    or brought the counter to the cap; and the result is pass `n`'s
    evaluation and improvement.
  */
  lemma PolicyIterationTrace(w: World, s: SolverState, pol: Policy, cap: nat)
    requires Valid(w) && Shaped(w, s.utilities) && PolicyShaped(w, pol) && w.discount != 0.0
    ensures var st := Stage(s, pol, true);
            var n := Passes(w, st, cap);
            var r := PolicyIterationFrom(w, s, pol, cap);
            && n >= 1
            && r.iterations == s.iterations + n
            && (forall k: nat :: k < n ==> StageAt(w, st, k + 1) == NextStage(w, StageAt(w, st, k)))
            && (forall i: nat :: 1 <= i < n ==> StageAt(w, st, i).changed && s.iterations + i < cap)
            && (!StageAt(w, st, n).changed || s.iterations + n >= cap)
            && r.utilities == StageAt(w, st, n).state.utilities
            && r.policy == StageAt(w, st, n).policy
            && r.status == Done
  {
    var st := Stage(s, pol, true);
    PolicyIterationResult(w, st, cap);
    PolicyIterationStopped(w, st, cap);
    forall k: nat | k < Passes(w, st, cap)
      ensures StageAt(w, st, k + 1) == NextStage(w, StageAt(w, st, k))
    {
      StageAtSucc(w, st, k);
    }
    forall i: nat | 1 <= i < Passes(w, st, cap)
      ensures StageAt(w, st, i).changed && s.iterations + i < cap
    {
      PolicyIterationWentOn(w, st, cap, i);
    }
  }

  /**
    When the loop ends normally before the cap, the policy is stable: one
    more improvement against the final utilities would change nothing.
  */
  lemma {:induction false} StableAtEnd(w: World, s: SolverState, pol: Policy, cap: nat)
    requires Valid(w) && Shaped(w, s.utilities) && PolicyShaped(w, pol) && w.discount != 0.0
    requires PolicyIterationFrom(w, s, pol, cap).iterations < cap
    ensures var r := PolicyIterationFrom(w, s, pol, cap);
            r.status == Done && !Improve(w, r.utilities, r.policy).changed
    decreases if s.iterations < cap then cap - s.iterations else 0
  {
    var u := PolicyEvaluation(w, s.utilities, pol).utilities;
    var imp := Improve(w, u, pol);
    if PassGoesOn(w, s, pol, cap) {
      PolicyIterationGoesOn(w, s, pol, cap);
      StableAtEnd(w, SolverState(u, s.iterations + 1), imp.policy, cap);
    } else {
      PolicyIterationStops(w, s, pol, cap);
      ChangedIffDifferent(w, u, pol);
    }
  }

  /** At a stable policy every Void cell's action attains the largest action sum. */
  lemma StablePolicyIsGreedy(w: World, u: Grid, pol: Policy, p: Pos)
    requires Valid(w) && Shaped(w, u) && PolicyShaped(w, pol) && InGrid(w, p) && CellAt(w, p) == Void
    requires !Improve(w, u, pol).changed
    ensures ExpectedSum(w, u, p, ActionAt(pol, p)) == MaxOf(ActionSums(w, u, p))
  {
    ChangedIffDifferent(w, u, pol);
    ImproveAt(w, u, pol, p);
    ImprovedIsGreedy(w, u, pol, p);
  }

  /** One improvement keeps the action of every Pit, Exit and Wall cell. */
  lemma ImproveKeepsTerminal(w: World, u: Grid, pol: Policy, p: Pos)
    requires Valid(w) && Shaped(w, u) && PolicyShaped(w, pol) && InGrid(w, p) && CellAt(w, p) != Void
    ensures ActionAt(Improve(w, u, pol).policy, p) == ActionAt(pol, p)
  {
    ImproveAt(w, u, pol, p);
    ImproveCellChanges(w, u, pol, p);
  }

  /** Pit, Exit and Wall cells keep the action they started with, through every pass. */
  lemma {:induction false} TerminalActionsKept(w: World, s: SolverState, pol: Policy, cap: nat, p: Pos)
    requires Valid(w) && Shaped(w, s.utilities) && PolicyShaped(w, pol) && InGrid(w, p) && CellAt(w, p) != Void
    ensures ActionAt(PolicyIterationFrom(w, s, pol, cap).policy, p) == ActionAt(pol, p)
    decreases if s.iterations < cap then cap - s.iterations else 0
  {
    if w.discount == 0.0 {
      PolicyIterationDivides(w, s, pol, cap);
    } else {
      var u := PolicyEvaluation(w, s.utilities, pol).utilities;
      ImproveKeepsTerminal(w, u, pol, p);
      if PassGoesOn(w, s, pol, cap) {
        PolicyIterationGoesOn(w, s, pol, cap);
        TerminalActionsKept(w, SolverState(u, s.iterations + 1), Improve(w, u, pol).policy, cap, p);
      } else {
        PolicyIterationStops(w, s, pol, cap);
      }
    }
  }
}
