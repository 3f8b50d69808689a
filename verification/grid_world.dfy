/**
  The grid environment: cell and action constants, the deterministic move,
  the rotated action-noise table, the reward table and the plain-text
  rendering of the map.

  Positions are `(x, y)` = (column, row) and the cell matrix is indexed
  `cells[y][x]`, as in the source.  North decreases `y`, West decreases `x`.
*/
module GridWorld {
  import opened Wrappers

  datatype Cell = Void | Pit | Exit | Wall

  datatype Action = North | South | West | East

  /** The action set in its canonical order; every argmax breaks ties by it. */
  const Actions: seq<Action> := [North, South, West, East]

  /** Position of an action in `Actions`. */
  function Index(a: Action): (i: nat)
    ensures i < |Actions| && Actions[i] == a
  {
    match a
    case North => 0
    case South => 1
    case West => 2
    case East => 3
  }

  /** `Index` inverts indexing into `Actions`. */
  lemma IndexOfAction(i: int)
    requires 0 <= i < |Actions|
    ensures Index(Actions[i]) == i
  {
  }

  datatype Pos = Pos(x: int, y: int)

  /** One reward per cell type. */
  datatype Rewards = Rewards(step: real, pit: real, exit: real, wall: real)

  /** Probabilities of going forward, left, right and backward relative to the intended action. */
  datatype Noise = Noise(forward: real, left: real, right: real, backward: real)

  datatype World = World(cells: seq<seq<Cell>>, rew: Rewards, prob: Noise, discount: real)

  /** The map has at least one row and every row is as wide as the first. */
  predicate Valid(w: World) {
    |w.cells| >= 1 && forall y :: 0 <= y < |w.cells| ==> |w.cells[y]| == |w.cells[0]|
  }

  function Rows(w: World): nat {
    |w.cells|
  }

  function Cols(w: World): nat
    requires Valid(w)
  {
    |w.cells[0]|
  }

  predicate InGrid(w: World, p: Pos)
    requires Valid(w)
  {
    0 <= p.x < Cols(w) && 0 <= p.y < Rows(w)
  }

  function CellAt(w: World, p: Pos): Cell
    requires Valid(w) && InGrid(w, p)
  {
    w.cells[p.y][p.x]
  }

  function Min(a: int, b: int): int { if a <= b then a else b }
  function Max(a: int, b: int): int { if a >= b then a else b }

  /** The neighbouring position one step in direction `a`, ignoring borders and walls. */
  function Shift(p: Pos, a: Action): Pos {
    match a
    case North => Pos(p.x, p.y - 1)
    case South => Pos(p.x, p.y + 1)
    case West => Pos(p.x - 1, p.y)
    case East => Pos(p.x + 1, p.y)
  }

  /**
    The clamped, wall-blocked move: the coordinate along the action's axis is
    clamped to the grid, and a move that lands on a Wall returns the origin.
  */
  function Move(w: World, p: Pos, a: Action): (q: Pos)
    requires Valid(w) && InGrid(w, p)
    ensures InGrid(w, q)
  {
    var ris :=
      match a
      case North => Pos(p.x, Max(0, p.y - 1))
      case South => Pos(p.x, Min(Rows(w) - 1, p.y + 1))
      case West => Pos(Max(0, p.x - 1), p.y)
      case East => Pos(Min(Cols(w) - 1, p.x + 1), p.y);
    if CellAt(w, ris) == Wall then p else ris
  }

  /**
    The clamped move, read geometrically: the agent reaches the neighbour
    when that neighbour exists and is not a Wall, and otherwise stays put.
  */
  lemma MoveReachesFreeNeighbour(w: World, p: Pos, a: Action)
    requires Valid(w) && InGrid(w, p)
    ensures Move(w, p, a) == (if InGrid(w, Shift(p, a)) && CellAt(w, Shift(p, a)) != Wall then Shift(p, a) else p)
  {
  }

  datatype MoveError = UnknownAction | NoActionAllowed

  /**
    `transitionFunction`: an action outside the action set (here: no action)
    and any origin that is not Void are errors; otherwise the move succeeds,
    stays in the grid, never ends on a Wall and changes the position by at
    most one step along the action's own axis.
  */
  function Transition(w: World, p: Pos, a: Option<Action>): (r: Result<Pos, MoveError>)
    requires Valid(w) && InGrid(w, p)
    ensures a.None? ==> r == Failure(UnknownAction)
    ensures a.Some? && CellAt(w, p) != Void ==> r == Failure(NoActionAllowed)
    ensures r.Success? <==> a.Some? && CellAt(w, p) == Void
    ensures r.Success? ==> InGrid(w, r.value) && CellAt(w, r.value) != Wall
    ensures r.Success? ==> r.value == p || r.value == Shift(p, a.value)
    ensures r.Success? ==>
              (r.value == Shift(p, a.value) <==> InGrid(w, Shift(p, a.value)) && CellAt(w, Shift(p, a.value)) != Wall)
  {
    if a.None? then Failure(UnknownAction)
    else if CellAt(w, p) != Void then Failure(NoActionAllowed)
    else
      MoveReachesFreeNeighbour(w, p, a.value);
      Success(Move(w, p, a.value))
  }

  /** The action 180 degrees from `a`. */
  function Opposite(a: Action): Action {
    match a
    case North => South
    case South => North
    case West => East
    case East => West
  }

  /** The action 90 degrees counter-clockwise of `a`. */
  function LeftOf(a: Action): Action {
    match a
    case North => West
    case West => South
    case South => East
    case East => North
  }

  /** The action 90 degrees clockwise of `a`. */
  function RightOf(a: Action): Action {
    match a
    case North => East
    case East => South
    case South => West
    case West => North
  }

  /**
    The noise table for an intended action, written out per intended
    direction.  Anything that is not North, South or West (in particular a
    missing action) falls into the last case and behaves as East.
  */
  function NoiseFor(n: Noise, intended: Option<Action>, actual: Action): real {
    match intended
    case Some(North) =>
      (match actual
       case North => n.forward
       case South => n.backward
       case West => n.left
       case East => n.right)
    case Some(South) =>
      (match actual
       case North => n.backward
       case South => n.forward
       case West => n.right
       case East => n.left)
    case Some(West) =>
      (match actual
       case North => n.right
       case South => n.left
       case West => n.forward
       case East => n.backward)
    case _ =>
      (match actual
       case North => n.left
       case South => n.right
       case West => n.backward
       case East => n.forward)
  }

  /** Reference reading of the noise table: the probability of `actual` by its angle to `dir`. */
  function Rotated(n: Noise, dir: Action, actual: Action): real {
    if actual == dir then n.forward
    else if actual == Opposite(dir) then n.backward
    else if actual == LeftOf(dir) then n.left
    else n.right
  }

  predicate SumsToOne(n: Noise) {
    n.forward + n.left + n.right + n.backward == 1.0
  }

  /** One stochastic outcome of an intended action: the action actually taken, where it leads, and its probability. */
  datatype Outcome = Outcome(action: Action, next: Pos, prob: real)

  /** The loop that appends, for each action in turn, where it leads and its probability. */
  function OutcomesOf(w: World, p: Pos, intended: Option<Action>, acts: seq<Action>): (os: seq<Outcome>)
    requires Valid(w) && InGrid(w, p)
    ensures |os| == |acts|
    ensures forall i :: 0 <= i < |os| ==>
              os[i] == Outcome(acts[i], Move(w, p, acts[i]), NoiseFor(w.prob, intended, acts[i]))
  {
    if |acts| == 0 then []
    else [Outcome(acts[0], Move(w, p, acts[0]), NoiseFor(w.prob, intended, acts[0]))]
         + OutcomesOf(w, p, intended, acts[1..])
  }

  /**
    `possiblePositionsFromAction`: nothing for Pit, Exit and Wall cells; for a
    Void cell one outcome per action in canonical order, each landing where
    `Transition` sends that action.  `OutcomeNoise` states the probabilities.
  */
  function Outcomes(w: World, p: Pos, intended: Option<Action>): (os: seq<Outcome>)
    requires Valid(w) && InGrid(w, p)
    ensures CellAt(w, p) != Void ==> os == []
    ensures CellAt(w, p) == Void ==> |os| == 4
    ensures forall i :: 0 <= i < |os| ==> os[i].action == Actions[i] && os[i].next == Move(w, p, Actions[i])
  {
    if CellAt(w, p) != Void then [] else OutcomesOf(w, p, intended, Actions)
  }

  /** Each outcome of a Void cell lands where `transitionFunction` sends its action. */
  lemma OutcomesFollowTransition(w: World, p: Pos, intended: Option<Action>)
    requires Valid(w) && InGrid(w, p)
    ensures forall o :: o in Outcomes(w, p, intended) ==> Transition(w, p, Some(o.action)) == Success(o.next)
  {
  }

  /**
    The noise table is rotated consistently: the intended direction (East
    when there is none) gets the forward probability, its opposite the
    backward one, the direction 90 degrees counter-clockwise the left one and
    the remaining direction the right one.
  */
  lemma NoiseIsRotated(n: Noise, intended: Option<Action>, actual: Action)
    ensures NoiseFor(n, intended, actual) == Rotated(n, intended.GetOr(East), actual)
  {
  }

  // The four orders in which the noise table lists (forward, left, right, backward).
  lemma OrderNorth(f: real, l: real, r: real, b: real)
    ensures multiset{f, b, l, r} == multiset{f, l, r, b}
  {
  }

  lemma OrderSouth(f: real, l: real, r: real, b: real)
    ensures multiset{b, f, r, l} == multiset{f, l, r, b}
  {
  }

  lemma OrderWest(f: real, l: real, r: real, b: real)
    ensures multiset{r, l, f, b} == multiset{f, l, r, b}
  {
  }

  lemma OrderEast(f: real, l: real, r: real, b: real)
    ensures multiset{l, r, b, f} == multiset{f, l, r, b}
  {
  }

  /** For every intended action the four table entries are the four noise parameters, permuted. */
  lemma NoiseIsPermutation(n: Noise, intended: Option<Action>)
    ensures multiset{NoiseFor(n, intended, North), NoiseFor(n, intended, South),
                     NoiseFor(n, intended, West), NoiseFor(n, intended, East)}
            == multiset{n.forward, n.left, n.right, n.backward}
  {
    var f, l, r, b := n.forward, n.left, n.right, n.backward;
    match intended
    case Some(North) => OrderNorth(f, l, r, b);
    case Some(South) => OrderSouth(f, l, r, b);
    case Some(West) => OrderWest(f, l, r, b);
    case _ => OrderEast(f, l, r, b);
  }

  /** The outcome probabilities of a Void cell follow the rotated table and permute the noise parameters. */
  lemma OutcomeNoise(w: World, p: Pos, intended: Option<Action>)
    requires Valid(w) && InGrid(w, p) && CellAt(w, p) == Void
    ensures var os := Outcomes(w, p, intended);
            forall i :: 0 <= i < 4 ==> os[i].prob == Rotated(w.prob, intended.GetOr(East), Actions[i])
    ensures var os := Outcomes(w, p, intended);
            multiset{os[0].prob, os[1].prob, os[2].prob, os[3].prob}
            == multiset{w.prob.forward, w.prob.left, w.prob.right, w.prob.backward}
  {
    var os := Outcomes(w, p, intended);
    forall i | 0 <= i < 4
      ensures os[i].prob == Rotated(w.prob, intended.GetOr(East), Actions[i])
    {
      NoiseIsRotated(w.prob, intended, Actions[i]);
    }
    NoiseIsPermutation(w.prob, intended);
  }

  function ProbSum(os: seq<Outcome>): real {
    if |os| == 0 then 0.0 else os[0].prob + ProbSum(os[1..])
  }

  /** Under the `setProbabilities` guard the outcome probabilities of a Void cell sum to 1. */
  lemma OutcomeProbabilitiesSumToOne(w: World, p: Pos, intended: Option<Action>)
    requires Valid(w) && InGrid(w, p) && CellAt(w, p) == Void && SumsToOne(w.prob)
    ensures ProbSum(Outcomes(w, p, intended)) == 1.0
  {
    var os := Outcomes(w, p, intended);
    var n := w.prob;
    assert os[0].prob + os[1].prob + os[2].prob + os[3].prob == n.forward + n.left + n.right + n.backward by {
      match intended
      case Some(North) =>
      case Some(South) =>
      case Some(West) =>
      case _ =>
    }
    assert os[1..][1..][1..][1..] == [];
    assert ProbSum(os[3..]) == os[3].prob;
    assert ProbSum(os[2..]) == os[2].prob + ProbSum(os[3..]);
    assert ProbSum(os[1..]) == os[1].prob + ProbSum(os[2..]);
  }

  function RewardOf(r: Rewards, c: Cell): real {
    match c
    case Void => r.step
    case Pit => r.pit
    case Exit => r.exit
    case Wall => r.wall
  }

  /** `rewardAtCell`: the reward of the cell's type. */
  function RewardAt(w: World, p: Pos): real
    requires Valid(w) && InGrid(w, p)
  {
    RewardOf(w.rew, CellAt(w, p))
  }

  /** `setDiscountFactor`: only the discount changes. */
  function SetDiscountFactor(w: World, d: real): (w': World)
    ensures w'.cells == w.cells && w'.rew == w.rew && w'.prob == w.prob && w'.discount == d
  {
    w.(discount := d)
  }

  /** `setRewards`: the three configurable rewards, and 0 for Wall whatever is passed. */
  function SetRewards(w: World, step: real, pit: real, exit: real): (w': World)
    ensures w'.cells == w.cells && w'.prob == w.prob && w'.discount == w.discount
    ensures Valid(w) ==> forall p :: InGrid(w, p) && CellAt(w, p) == Wall ==> RewardAt(w', p) == 0.0
    ensures RewardOf(w'.rew, Void) == step && RewardOf(w'.rew, Pit) == pit && RewardOf(w'.rew, Exit) == exit
  {
    w.(rew := Rewards(step, pit, exit, 0.0))
  }

  /** What `rewardAtCell` reads after `setRewards`: the reward configured for the cell's type, and 0 on a wall. */
  lemma RewardAtAfterSetRewards(w: World, step: real, pit: real, exit: real, p: Pos)
    requires Valid(w) && InGrid(w, p)
    ensures var w' := SetRewards(w, step, pit, exit);
            && Valid(w') && InGrid(w', p)
            && RewardAt(w', p) == (match CellAt(w, p)
                                   case Void => step
                                   case Pit => pit
                                   case Exit => exit
                                   case Wall => 0.0)
  {
  }

  datatype ConfigError = ProbabilitiesDoNotSumToOne

  /** `setProbabilities`: raises unless the four probabilities sum to 1; otherwise stores them in F, L, R, B order. */
  function SetProbabilities(w: World, forward: real, left: real, right: real, backward: real): (r: Result<World, ConfigError>)
    ensures r.Success? <==> forward + left + right + backward == 1.0
    ensures r.Failure? ==> r.error == ProbabilitiesDoNotSumToOne
    ensures r.Success? ==> SumsToOne(r.value.prob)
    ensures r.Success? ==> r.value.cells == w.cells && r.value.rew == w.rew && r.value.discount == w.discount
    ensures r.Success? ==>
              r.value.prob.forward == forward && r.value.prob.left == left
              && r.value.prob.right == right && r.value.prob.backward == backward
  {
    if forward + left + right + backward != 1.0 then Failure(ProbabilitiesDoNotSumToOne)
    else Success(w.(prob := Noise(forward, left, right, backward)))
  }

  // ---------------------------------------------------------------------------
  // Plain-text rendering of the map and its inverse
  // ---------------------------------------------------------------------------

  function Letter(c: Cell): char {
    match c
    case Exit => 'E'
    case Pit => 'P'
    case Wall => 'W'
    case Void => 'V'
  }

  /** One row: a letter and a space per cell. */
  function RenderRow(row: seq<Cell>): (s: string)
    ensures |s| == 2 * |row|
    ensures '\n' !in s
  {
    if |row| == 0 then "" else [Letter(row[0]), ' '] + RenderRow(row[1..])
  }

  /** Cell `i` of a row is rendered as its letter at `2 * i`, followed by a space. */
  lemma {:induction false} RenderRowTokens(row: seq<Cell>, i: int)
    requires 0 <= i < |row|
    ensures RenderRow(row)[2 * i] == Letter(row[i]) && RenderRow(row)[2 * i + 1] == ' '
  {
    if i > 0 {
      RenderRowTokens(row[1..], i - 1);
      assert RenderRow(row) == [Letter(row[0]), ' '] + RenderRow(row[1..]);
    }
  }

  /** `__str__`: the rows, separated by a newline, with none after the last row. */
  function Render(cells: seq<seq<Cell>>): (s: string)
    ensures |cells| >= 1 ==> |s| == (|cells| - 1) + 2 * TotalCells(cells)
  {
    if |cells| == 0 then ""
    else if |cells| == 1 then RenderRow(cells[0])
    else RenderRow(cells[0]) + "\n" + Render(cells[1..])
  }

  function TotalCells(cells: seq<seq<Cell>>): nat {
    if |cells| == 0 then 0 else |cells[0]| + TotalCells(cells[1..])
  }

  function ParseLetter(c: char): Option<Cell> {
    if c == 'E' then Some(Exit)
    else if c == 'P' then Some(Pit)
    else if c == 'W' then Some(Wall)
    else if c == 'V' then Some(Void)
    else None
  }

  /** Reads back one rendered row. */
  function ParseRow(line: string): Option<seq<Cell>> {
    if |line| == 0 then Some([])
    else if |line| < 2 || line[1] != ' ' || ParseLetter(line[0]).None? then None
    else
      match ParseRow(line[2..])
      case None => None
      case Some(rest) => Some([ParseLetter(line[0]).value] + rest)
  }

  /** Splits text at every newline; text without a newline is one line. */
  function SplitLines(s: string): (lines: seq<string>)
    ensures |lines| >= 1
  {
    if |s| == 0 then [""]
    else if s[0] == '\n' then [""] + SplitLines(s[1..])
    else
      var t := SplitLines(s[1..]);
      [[s[0]] + t[0]] + t[1..]
  }

  function ParseRows(lines: seq<string>): Option<seq<seq<Cell>>> {
    if |lines| == 0 then Some([])
    else
      match (ParseRow(lines[0]), ParseRows(lines[1..]))
      case (Some(row), Some(rest)) => Some([row] + rest)
      case _ => None
  }

  /** Reads back a rendered map. */
  function Parse(s: string): Option<seq<seq<Cell>>> {
    ParseRows(SplitLines(s))
  }

  lemma {:induction false} ParseRenderRow(row: seq<Cell>)
    ensures ParseRow(RenderRow(row)) == Some(row)
  {
    if |row| > 0 {
      var s := RenderRow(row);
      assert s[2..] == RenderRow(row[1..]);
      ParseRenderRow(row[1..]);
      assert [row[0]] + row[1..] == row;
    }
  }

  lemma {:induction false} SplitLinesNoNewline(a: string)
    requires '\n' !in a
    ensures SplitLines(a) == [a]
  {
    if |a| > 0 {
      SplitLinesNoNewline(a[1..]);
      assert [a[0]] + a[1..] == a;
    }
  }

  lemma {:induction false} SplitLinesAppend(a: string, b: string)
    requires '\n' !in a
    ensures SplitLines(a + "\n" + b) == [a] + SplitLines(b)
  {
    if |a| == 0 {
      assert a + "\n" + b == "\n" + b;
      assert ("\n" + b)[1..] == b;
    } else {
      var s := a + "\n" + b;
      assert s[1..] == a[1..] + "\n" + b;
      SplitLinesAppend(a[1..], b);
      assert [a[0]] + a[1..] == a;
    }
  }

  /** Rendering a map and reading it back gives the same map. */
  lemma {:induction false} ParseRender(cells: seq<seq<Cell>>)
    requires |cells| >= 1
    ensures Parse(Render(cells)) == Some(cells)
  {
    ParseRenderRow(cells[0]);
    if |cells| == 1 {
      SplitLinesNoNewline(RenderRow(cells[0]));
      var lines := SplitLines(Render(cells));
      assert lines == [RenderRow(cells[0])];
      assert lines[1..] == [];
      assert ParseRows(lines[1..]) == Some([]);
      assert [cells[0]] + [] == cells;
    } else {
      SplitLinesAppend(RenderRow(cells[0]), Render(cells[1..]));
      ParseRender(cells[1..]);
      var lines := SplitLines(Render(cells));
      assert lines[0] == RenderRow(cells[0]);
      assert lines[1..] == SplitLines(Render(cells[1..]));
      assert [cells[0]] + cells[1..] == cells;
    }
  }
}
