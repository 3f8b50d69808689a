/**
  Utility grids and the read-only quantities computed from them: the
  expected successor utility of an action, the Bellman backup of one cell,
  Q-values, the two greedy accessors, and the max-norm between two grids
  used by both solvers' convergence tests.
*/
module Bellman {
  import opened Wrappers
  import opened GridWorld

  /** A utility grid, indexed `[y][x]` like the map. */
  type Grid = seq<seq<real>>

  predicate Shaped(w: World, u: Grid)
    requires Valid(w)
  {
    |u| == Rows(w) && forall y :: 0 <= y < |u| ==> |u[y]| == Cols(w)
  }

  function At(u: Grid, p: Pos): real
    requires 0 <= p.y < |u| && 0 <= p.x < |u[p.y]|
  {
    u[p.y][p.x]
  }

  /** The solver's persistent results: the utility grid and the cumulative iteration counter. */
  datatype SolverState = SolverState(utilities: Grid, iterations: nat)

  /** `__createEmptyUtilityVector`: a `rows x cols` grid of zeros. */
  function EmptyUtilities(w: World): (u: Grid)
    requires Valid(w)
    ensures Shaped(w, u)
    ensures forall y, x :: 0 <= y < Rows(w) && 0 <= x < Cols(w) ==> u[y][x] == 0.0
  {
    seq(Rows(w), _ => seq(Cols(w), _ => 0.0))
  }

  /** `resetResults`: zero utilities of the map's dimensions and an iteration counter of 0. */
  function ResetResults(w: World): (s: SolverState)
    requires Valid(w)
    ensures s.iterations == 0 && Shaped(w, s.utilities)
    ensures forall y, x :: 0 <= y < Rows(w) && 0 <= x < Cols(w) ==> s.utilities[y][x] == 0.0
  {
    SolverState(EmptyUtilities(w), 0)
  }

  // ---------------------------------------------------------------------------
  // Expected successor utility
  // ---------------------------------------------------------------------------

  predicate Reachable(w: World, os: seq<Outcome>)
    requires Valid(w)
  {
    forall i :: 0 <= i < |os| ==> InGrid(w, os[i].next)
  }

  /** Sum of probability times successor utility over a list of outcomes. */
  function Expectation(w: World, u: Grid, os: seq<Outcome>): real
    requires Valid(w) && Shaped(w, u) && Reachable(w, os)
  {
    if |os| == 0 then 0.0 else os[0].prob * At(u, os[0].next) + Expectation(w, u, os[1..])
  }

  /** The loop `summ += prob * utilities[nextPos]` over the outcomes of an intended action. */
  function ExpectedSum(w: World, u: Grid, p: Pos, intended: Option<Action>): real
    requires Valid(w) && Shaped(w, u) && InGrid(w, p)
  {
    Expectation(w, u, Outcomes(w, p, intended))
  }

  /** The expectation over four outcomes, written out. */
  lemma ExpectationOfFour(w: World, u: Grid, os: seq<Outcome>)
    requires Valid(w) && Shaped(w, u) && Reachable(w, os) && |os| == 4
    ensures Expectation(w, u, os)
            == os[0].prob * At(u, os[0].next) + os[1].prob * At(u, os[1].next)
             + os[2].prob * At(u, os[2].next) + os[3].prob * At(u, os[3].next)
  {
    var e0, e1, e2, e3 := os[0].prob * At(u, os[0].next), os[1].prob * At(u, os[1].next),
                          os[2].prob * At(u, os[2].next), os[3].prob * At(u, os[3].next);
    assert os[3..][1..] == [];
    assert Expectation(w, u, os[3..]) == e3;
    assert os[2..][1..] == os[3..];
    assert Expectation(w, u, os[2..]) == e2 + e3;
    assert os[1..][1..] == os[2..];
    assert Expectation(w, u, os[1..]) == e1 + e2 + e3;
  }

  /**
    An independent reference for the expected successor utility of a Void
    cell under intended action `d`: every actual action weighted by the
    rotation rule, times the utility where the clamped, wall-blocked move
    of that action lands.
  */
  function RotatedSum(w: World, u: Grid, p: Pos, d: Action): real
    requires Valid(w) && Shaped(w, u) && InGrid(w, p)
  {
    Rotated(w.prob, d, North) * At(u, Move(w, p, North))
    + Rotated(w.prob, d, South) * At(u, Move(w, p, South))
    + Rotated(w.prob, d, West) * At(u, Move(w, p, West))
    + Rotated(w.prob, d, East) * At(u, Move(w, p, East))
  }

  /**
    The expected successor utility against the reference: nothing for a
    cell without actions, otherwise the rotation-weighted sum of the
    intended action (East when there is none).
  */
  lemma ExpectedSumExplicit(w: World, u: Grid, p: Pos, intended: Option<Action>)
    requires Valid(w) && Shaped(w, u) && InGrid(w, p)
    ensures CellAt(w, p) != Void ==> ExpectedSum(w, u, p, intended) == 0.0
    ensures CellAt(w, p) == Void ==> ExpectedSum(w, u, p, intended) == RotatedSum(w, u, p, intended.GetOr(East))
  {
    if CellAt(w, p) == Void {
      var os := Outcomes(w, p, intended);
      var d := intended.GetOr(East);
      NoiseIsRotated(w.prob, intended, North);
      NoiseIsRotated(w.prob, intended, South);
      NoiseIsRotated(w.prob, intended, West);
      NoiseIsRotated(w.prob, intended, East);
      assert os[0].prob == Rotated(w.prob, d, North) && os[0].next == Move(w, p, North);
      assert os[1].prob == Rotated(w.prob, d, South) && os[1].next == Move(w, p, South);
      assert os[2].prob == Rotated(w.prob, d, West) && os[2].next == Move(w, p, West);
      assert os[3].prob == Rotated(w.prob, d, East) && os[3].next == Move(w, p, East);
      ExpectationOfFour(w, u, os);
    }
  }

  /** A missing policy action is expanded exactly like East. */
  lemma MissingActionActsAsEast(w: World, u: Grid, p: Pos)
    requires Valid(w) && Shaped(w, u) && InGrid(w, p)
    ensures ExpectedSum(w, u, p, None) == ExpectedSum(w, u, p, Some(East))
  {
    assert Outcomes(w, p, None) == Outcomes(w, p, Some(East));
  }

  /** The expected successor utility of each action, in canonical order. */
  function ActionSums(w: World, u: Grid, p: Pos): (sums: seq<real>)
    requires Valid(w) && Shaped(w, u) && InGrid(w, p)
    ensures |sums| == 4
    ensures forall i :: 0 <= i < 4 ==> sums[i] == ExpectedSum(w, u, p, Some(Actions[i]))
    ensures forall b :: sums[Index(b)] == ExpectedSum(w, u, p, Some(b))
  {
    seq(4, i requires 0 <= i < 4 => ExpectedSum(w, u, p, Some(Actions[i])))
  }

  /** The four action sums of a cell against the rotation reference: all zero off Void cells. */
  lemma ActionSumsExplicit(w: World, u: Grid, p: Pos)
    requires Valid(w) && Shaped(w, u) && InGrid(w, p)
    ensures CellAt(w, p) != Void ==> ActionSums(w, u, p) == [0.0, 0.0, 0.0, 0.0]
    ensures CellAt(w, p) == Void ==>
              forall i :: 0 <= i < 4 ==> ActionSums(w, u, p)[i] == RotatedSum(w, u, p, Actions[i])
  {
    forall i | 0 <= i < 4
      ensures CellAt(w, p) != Void ==> ActionSums(w, u, p)[i] == 0.0
      ensures CellAt(w, p) == Void ==> ActionSums(w, u, p)[i] == RotatedSum(w, u, p, Actions[i])
    {
      ExpectedSumExplicit(w, u, p, Some(Actions[i]));
    }
  }

  // ---------------------------------------------------------------------------
  // First maximum, the tie-break shared by every argmax of the source
  // ---------------------------------------------------------------------------

  /** Among the first `n` entries, `i` is a maximum and every earlier entry is strictly smaller. */
  predicate IsFirstMaxBelow(vs: seq<real>, n: int, i: int)
    requires n <= |vs|
  {
    && 0 <= i < n
    && (forall j :: 0 <= j < n ==> vs[j] <= vs[i])
    && (forall j :: 0 <= j < i ==> vs[j] < vs[i])
  }

  /** `i` is a maximum of `vs` and every earlier entry is strictly smaller. */
  predicate IsFirstMax(vs: seq<real>, i: int) {
    IsFirstMaxBelow(vs, |vs|, i)
  }

  /**
    The scan from index `i` on, keeping candidate `best` and replacing it
    only on a strictly greater value (`summ > maxSum`, and Python's `max`).
  */
  function ScanMax(vs: seq<real>, i: nat, best: nat): (k: nat)
    requires 0 < i <= |vs| && IsFirstMaxBelow(vs, i, best)
    ensures IsFirstMax(vs, k)
    decreases |vs| - i
  {
    if i == |vs| then best
    else ScanMax(vs, i + 1, if vs[i] > vs[best] then i else best)
  }

  /** The index a left-to-right scan for the largest value keeps. */
  function FirstMax(vs: seq<real>): (i: nat)
    requires |vs| > 0
    ensures IsFirstMax(vs, i)
  {
    ScanMax(vs, 1, 0)
  }

  /** The largest entry, the value `maxSum` holds after the scan. */
  function MaxOf(vs: seq<real>): real
    requires |vs| > 0
  {
    vs[FirstMax(vs)]
  }

  /** The first maximum is the only index that is a maximum preceded only by smaller values. */
  lemma FirstMaxUnique(vs: seq<real>, i: int)
    requires IsFirstMax(vs, i)
    ensures FirstMax(vs) == i
  {
  }

  // ---------------------------------------------------------------------------
  // Bellman backup, Q-values and greedy actions
  // ---------------------------------------------------------------------------

  /** A reward plus a discounted future value, the shape of every backup of value iteration. */
  function Discounted(r: real, d: real, v: real): real {
    r + d * v
  }

  /** With `d >= 0`, discounting is monotone in the future value. */
  lemma DiscountedMonotone(r: real, d: real, v: real, v': real)
    requires d >= 0.0 && v <= v'
    ensures Discounted(r, d, v) <= Discounted(r, d, v')
  {
    assert d * v' - d * v == d * (v' - v);
  }

  /** With `d > 0`, discounting is strictly monotone in the future value. */
  lemma DiscountedStrictlyMonotone(r: real, d: real, v: real, v': real)
    requires d > 0.0 && v < v'
    ensures Discounted(r, d, v) < Discounted(r, d, v')
  {
    assert d * v' - d * v == d * (v' - v);
  }

  /**
    `__cellUtility`: a cell without actions is worth its reward; a Void cell
    is worth its reward plus the discounted expected successor utility of
    some action, and (for a non-negative discount) of no action more.
  */
  function CellUtility(w: World, u: Grid, p: Pos): (v: real)
    requires Valid(w) && Shaped(w, u) && InGrid(w, p)
    ensures CellAt(w, p) != Void ==> v == RewardAt(w, p)
    ensures CellAt(w, p) == Void ==>
              exists a: Action :: v == Discounted(RewardAt(w, p), w.discount, ExpectedSum(w, u, p, Some(a)))
    ensures CellAt(w, p) == Void && w.discount >= 0.0 ==>
              forall a: Action :: Discounted(RewardAt(w, p), w.discount, ExpectedSum(w, u, p, Some(a))) <= v
  {
    if CellAt(w, p) == Void then
      var sums := ActionSums(w, u, p);
      var k := FirstMax(sums);
      var best := Discounted(RewardAt(w, p), w.discount, MaxOf(sums));
      assert best == Discounted(RewardAt(w, p), w.discount, ExpectedSum(w, u, p, Some(Actions[k])));
      assert w.discount >= 0.0 ==>
               forall a: Action :: Discounted(RewardAt(w, p), w.discount, ExpectedSum(w, u, p, Some(a))) <= best by {
        if w.discount >= 0.0 {
          forall a: Action
            ensures Discounted(RewardAt(w, p), w.discount, ExpectedSum(w, u, p, Some(a))) <= best
          {
            DiscountedMonotone(RewardAt(w, p), w.discount, sums[Index(a)], sums[k]);
          }
        }
      }
      best
    else
      RewardAt(w, p)
  }

  /** `getQValues(s, a)`: no value for a cell without actions; otherwise reward plus discounted expectation. */
  function QValue(w: World, u: Grid, p: Pos, a: Action): (q: Option<real>)
    requires Valid(w) && Shaped(w, u) && InGrid(w, p)
    ensures q.None? <==> CellAt(w, p) != Void
  {
    if CellAt(w, p) != Void then None
    else Some(Discounted(RewardAt(w, p), w.discount, ExpectedSum(w, u, p, Some(a))))
  }

  /** `getQValues(s)`: for a Void cell, the Q-value of every action, in canonical order. */
  function QValues(w: World, u: Grid, p: Pos): (qs: Option<seq<real>>)
    requires Valid(w) && Shaped(w, u) && InGrid(w, p)
    ensures qs.None? <==> CellAt(w, p) != Void
    ensures qs.Some? ==> |qs.value| == 4 && forall i :: 0 <= i < 4 ==> QValue(w, u, p, Actions[i]) == Some(qs.value[i])
  {
    if CellAt(w, p) != Void then None
    else Some(seq(4, i requires 0 <= i < 4 => QValue(w, u, p, Actions[i]).value))
  }

  /**
    The Q-values against the rotation reference: none off Void cells, and
    on a Void cell, for each action in canonical order, the reward plus the
    discounted rotation-weighted utility of the four landing cells.
  */
  lemma QValuesExplicit(w: World, u: Grid, p: Pos)
    requires Valid(w) && Shaped(w, u) && InGrid(w, p)
    ensures CellAt(w, p) != Void ==> QValues(w, u, p) == None
    ensures CellAt(w, p) == Void ==>
              var qs := QValues(w, u, p).value;
              |qs| == 4
              && forall i :: 0 <= i < 4 ==> qs[i] == Discounted(RewardAt(w, p), w.discount, RotatedSum(w, u, p, Actions[i]))
  {
    if CellAt(w, p) == Void {
      var qs := QValues(w, u, p).value;
      forall i | 0 <= i < 4
        ensures qs[i] == Discounted(RewardAt(w, p), w.discount, RotatedSum(w, u, p, Actions[i]))
      {
        QValueExplicit(w, u, p, Actions[i]);
      }
    }
  }

  /** One Q-value against the rotation reference. */
  lemma QValueExplicit(w: World, u: Grid, p: Pos, a: Action)
    requires Valid(w) && Shaped(w, u) && InGrid(w, p)
    ensures CellAt(w, p) != Void ==> QValue(w, u, p, a) == None
    ensures CellAt(w, p) == Void ==>
              QValue(w, u, p, a) == Some(Discounted(RewardAt(w, p), w.discount, RotatedSum(w, u, p, a)))
  {
    ExpectedSumExplicit(w, u, p, Some(a));
    assert Some(a).GetOr(East) == a;
  }

  /** `getPolicyFromQValues`: the first action, in canonical order, with the largest Q-value. */
  function GreedyFromQValues(w: World, u: Grid, p: Pos): (a: Option<Action>)
    requires Valid(w) && Shaped(w, u) && InGrid(w, p)
    ensures a.None? <==> CellAt(w, p) != Void
    ensures a.Some? ==> IsFirstMax(QValues(w, u, p).value, Index(a.value))
  {
    match QValues(w, u, p)
    case None => None
    case Some(qs) => Some(Actions[FirstMax(qs)])
  }

  /** `getPolicyFromUtilityVector`: the first action, in canonical order, with the largest expected successor utility. */
  function GreedyFromUtility(w: World, u: Grid, p: Pos): (a: Option<Action>)
    requires Valid(w) && Shaped(w, u) && InGrid(w, p)
    ensures a.None? <==> CellAt(w, p) != Void
    ensures a.Some? ==> IsFirstMax(ActionSums(w, u, p), Index(a.value))
  {
    if CellAt(w, p) != Void then None
    else
      var sums := ActionSums(w, u, p);
      Some(Actions[FirstMax(sums)])
  }

  /** Under `Discounted(r, d, _)` with `d > 0`, the first maximum is unchanged. */
  lemma DiscountedFirstMax(vs: seq<real>, r: real, d: real, qs: seq<real>)
    requires |vs| > 0 && |qs| == |vs| && d > 0.0
    requires forall j :: 0 <= j < |vs| ==> qs[j] == Discounted(r, d, vs[j])
    ensures FirstMax(qs) == FirstMax(vs)
  {
    var k := FirstMax(vs);
    forall j | 0 <= j < |qs| ensures qs[j] <= qs[k] {
      DiscountedMonotone(r, d, vs[j], vs[k]);
    }
    forall j | 0 <= j < k ensures qs[j] < qs[k] {
      DiscountedStrictlyMonotone(r, d, vs[j], vs[k]);
    }
    FirstMaxUnique(qs, k);
  }

  /** The backup of a Void cell in terms of its best action sum. */
  lemma BackupOfVoid(w: World, u: Grid, p: Pos)
    requires Valid(w) && Shaped(w, u) && InGrid(w, p) && CellAt(w, p) == Void
    ensures CellUtility(w, u, p) == Discounted(RewardAt(w, p), w.discount, MaxOf(ActionSums(w, u, p)))
  {
  }

  lemma GreedyOfVoid(w: World, u: Grid, p: Pos)
    requires Valid(w) && Shaped(w, u) && InGrid(w, p) && CellAt(w, p) == Void
    ensures GreedyFromUtility(w, u, p) == Some(Actions[FirstMax(ActionSums(w, u, p))])
  {
  }

  lemma GreedyQOfVoid(w: World, u: Grid, p: Pos)
    requires Valid(w) && Shaped(w, u) && InGrid(w, p) && CellAt(w, p) == Void
    ensures GreedyFromQValues(w, u, p) == Some(Actions[FirstMax(QValues(w, u, p).value)])
  {
  }

  lemma ActionSumAt(w: World, u: Grid, p: Pos, a: Action)
    requires Valid(w) && Shaped(w, u) && InGrid(w, p)
    ensures ActionSums(w, u, p)[Index(a)] == ExpectedSum(w, u, p, Some(a))
  {
  }

  /** The Q-value of one action of a Void cell, through its action sum. */
  lemma QValueOfAction(w: World, u: Grid, p: Pos, a: Action)
    requires Valid(w) && Shaped(w, u) && InGrid(w, p) && CellAt(w, p) == Void
    ensures QValue(w, u, p, a) == Some(Discounted(RewardAt(w, p), w.discount, ActionSums(w, u, p)[Index(a)]))
  {
    ActionSumAt(w, u, p, a);
  }

  /** Each Q-value of a Void cell is the reward plus the discounted expected sum of that action. */
  lemma QValuesAreDiscountedSums(w: World, u: Grid, p: Pos)
    requires Valid(w) && Shaped(w, u) && InGrid(w, p) && CellAt(w, p) == Void
    ensures var qs, sums := QValues(w, u, p).value, ActionSums(w, u, p);
            forall j :: 0 <= j < 4 ==> qs[j] == Discounted(RewardAt(w, p), w.discount, sums[j])
  {
  }

  /** With a non-negative discount no Q-value of a Void cell exceeds its backup. */
  lemma QValueBelowBackup(w: World, u: Grid, p: Pos, a: Action)
    requires Valid(w) && Shaped(w, u) && InGrid(w, p) && CellAt(w, p) == Void
    requires w.discount >= 0.0
    ensures QValue(w, u, p, a).value <= CellUtility(w, u, p)
  {
    var sums := ActionSums(w, u, p);
    QValueOfAction(w, u, p, a);
    BackupOfVoid(w, u, p);
    DiscountedMonotone(RewardAt(w, p), w.discount, sums[Index(a)], MaxOf(sums));
  }

  /** The greedy action of a Void cell attains its backup. */
  lemma GreedyAttainsBackup(w: World, u: Grid, p: Pos)
    requires Valid(w) && Shaped(w, u) && InGrid(w, p) && CellAt(w, p) == Void
    ensures QValue(w, u, p, GreedyFromUtility(w, u, p).value) == Some(CellUtility(w, u, p))
  {
    var k := FirstMax(ActionSums(w, u, p));
    IndexOfAction(k);
    GreedyOfVoid(w, u, p);
    QValueOfAction(w, u, p, Actions[k]);
    BackupOfVoid(w, u, p);
  }

  /**
    With a non-negative discount the backup of a Void cell is the largest of
    its four Q-values, and it is attained by the greedy action.
  */
  lemma BackupIsMaxQValue(w: World, u: Grid, p: Pos)
    requires Valid(w) && Shaped(w, u) && InGrid(w, p) && CellAt(w, p) == Void
    requires w.discount >= 0.0
    ensures forall a :: QValue(w, u, p, a).value <= CellUtility(w, u, p)
    ensures QValue(w, u, p, GreedyFromUtility(w, u, p).value) == Some(CellUtility(w, u, p))
  {
    forall a ensures QValue(w, u, p, a).value <= CellUtility(w, u, p) {
      QValueBelowBackup(w, u, p, a);
    }
    GreedyAttainsBackup(w, u, p);
  }

  /** With a positive discount the Q-values and the action sums have the same first maximum. */
  lemma SameFirstMax(w: World, u: Grid, p: Pos)
    requires Valid(w) && Shaped(w, u) && InGrid(w, p) && CellAt(w, p) == Void
    requires w.discount > 0.0
    ensures FirstMax(QValues(w, u, p).value) == FirstMax(ActionSums(w, u, p))
  {
    QValuesAreDiscountedSums(w, u, p);
    DiscountedFirstMax(ActionSums(w, u, p), RewardAt(w, p), w.discount, QValues(w, u, p).value);
  }

  /** With a positive discount both greedy accessors choose the same action. */
  lemma GreedyAccessorsAgree(w: World, u: Grid, p: Pos)
    requires Valid(w) && Shaped(w, u) && InGrid(w, p)
    requires w.discount > 0.0
    ensures GreedyFromQValues(w, u, p) == GreedyFromUtility(w, u, p)
  {
    if CellAt(w, p) == Void {
      GreedyOfVoid(w, u, p);
      GreedyQOfVoid(w, u, p);
      SameFirstMax(w, u, p);
    }
  }

  // ---------------------------------------------------------------------------
  // Max-norm and the convergence threshold
  // ---------------------------------------------------------------------------

  function Abs(r: real): real {
    if r < 0.0 then -r else r
  }

  predicate SameShape(a: Grid, b: Grid) {
    |a| == |b| && forall y :: 0 <= y < |a| ==> |a[y]| == |b[y]|
  }

  /** `m` is the largest absolute per-cell difference between `a` and `b`, or 0 if there are no cells. */
  predicate IsMaxNorm(a: Grid, b: Grid, m: real)
    requires SameShape(a, b)
  {
    && m >= 0.0
    && (forall y, x :: 0 <= y < |a| && 0 <= x < |a[y]| ==> Abs(a[y][x] - b[y][x]) <= m)
    && (m == 0.0 || exists y, x :: 0 <= y < |a| && 0 <= x < |a[y]| && Abs(a[y][x] - b[y][x]) == m)
  }

  /** The largest absolute difference between two rows, or 0 for empty rows. */
  function RowNorm(a: seq<real>, b: seq<real>): (m: real)
    requires |a| == |b|
    ensures m >= 0.0
    ensures forall x :: 0 <= x < |a| ==> Abs(a[x] - b[x]) <= m
    ensures m == 0.0 || exists x :: 0 <= x < |a| && Abs(a[x] - b[x]) == m
  {
    if |a| == 0 then 0.0
    else
      var rest := RowNorm(a[1..], b[1..]);
      assert forall x :: 1 <= x < |a| ==> a[x] == a[1..][x - 1] && b[x] == b[1..][x - 1];
      if Abs(a[0] - b[0]) > rest then Abs(a[0] - b[0]) else rest
  }

  /**
    `maxNorm`: starting from 0, the largest absolute per-cell change between
    two grids of the same shape, row by row.  `GridNormIsMax` states it.
  */
  function GridNorm(a: Grid, b: Grid): (m: real)
    requires SameShape(a, b)
    ensures m >= 0.0
  {
    if |a| == 0 then 0.0
    else
      var first := RowNorm(a[0], b[0]);
      var rest := GridNorm(a[1..], b[1..]);
      if first > rest then first else rest
  }

  /** The max-norm bounds every per-cell change and is attained by one of them (or is 0). */
  lemma {:induction false} GridNormIsMax(a: Grid, b: Grid)
    requires SameShape(a, b)
    ensures IsMaxNorm(a, b, GridNorm(a, b))
  {
    if |a| > 0 {
      var first := RowNorm(a[0], b[0]);
      var a', b' := a[1..], b[1..];
      var rest := GridNorm(a', b');
      GridNormIsMax(a', b');
      var m := GridNorm(a, b);
      assert m == if first > rest then first else rest;
      forall y, x | 0 <= y < |a| && 0 <= x < |a[y]| ensures Abs(a[y][x] - b[y][x]) <= m {
        if y > 0 {
          assert a[y] == a'[y - 1] && b[y] == b'[y - 1];
        }
      }
      if m != 0.0 {
        if first > rest {
          var x :| 0 <= x < |a[0]| && Abs(a[0][x] - b[0][x]) == first;
        } else {
          var y, x :| 0 <= y < |a'| && 0 <= x < |a'[y]| && Abs(a'[y][x] - b'[y][x]) == rest;
          assert a'[y] == a[y + 1] && b'[y] == b[y + 1];
        }
      }
    }
  }

  /** Any non-negative bound on the per-cell changes that is attained (or 0) is the max-norm. */
  lemma GridNormUnique(a: Grid, b: Grid, m: real)
    requires SameShape(a, b) && IsMaxNorm(a, b, m)
    ensures GridNorm(a, b) == m
  {
    var n := GridNorm(a, b);
    GridNormIsMax(a, b);
    if n != 0.0 {
      var y, x :| 0 <= y < |a| && 0 <= x < |a[y]| && Abs(a[y][x] - b[y][x]) == n;
    }
    if m != 0.0 {
      var y, x :| 0 <= y < |a| && 0 <= x < |a[y]| && Abs(a[y][x] - b[y][x]) == m;
    }
  }

  /** A grid does not differ from itself. */
  lemma {:induction false} GridNormSelf(a: Grid)
    ensures SameShape(a, a) && GridNorm(a, a) == 0.0
  {
    if |a| > 0 {
      GridNormSelf(a[1..]);
    }
  }

  /** The convergence tolerance of both solvers. */
  const Epsilon: real := 0.1

  /** `eps * (1 - d) / d`, the bound the max-norm is compared against; it divides by the discount. */
  function Threshold(d: real): real
    requires d != 0.0
  {
    Epsilon * (1.0 - d) / d
  }

  /** How a solve ended: normally, or by the division by zero a discount of 0 causes in the convergence test. */
  datatype Status = Done | DivisionByZero
}
