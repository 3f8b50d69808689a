/**
  The settings dialog's gate in front of the solvers (`MDPChooser`):
  `checkSettingValues` validates the rewards, the probabilities and the
  discount in that order and reports the first failure; `openMDPGUI` hands
  an accepted configuration to the world.

  The text boxes are taken as already parsed: `None` stands for a text that
  is not a float.
*/
module Settings {
  import opened Wrappers
  import opened GridWorld

  /** The dialog's fields, in the order they are checked. */
  datatype Field =
    | StepReward | PitReward | ExitReward
    | ForwardProbability | LeftProbability | RightProbability | BackwardProbability
    | DiscountFactor

  /** The sign a reward must have; zero is allowed under both. */
  datatype Sign = Negative | Positive

  /** The reward boxes and the sign each must have (`MDPChooser.rew`). */
  const RewardFields: seq<(Field, Sign)> := [(StepReward, Negative), (PitReward, Negative), (ExitReward, Positive)]

  /** The probability boxes, in F, L, R, B order (`MDPChooser.prob`). */
  const ProbabilityFields: seq<Field> := [ForwardProbability, LeftProbability, RightProbability, BackwardProbability]

  /** The single error the dialog reports. */
  datatype SettingError =
    | NotAFloat(field: Field)
    | MustBeNegative(field: Field)
    | MustBePositive(field: Field)
    | ProbabilitySumNotOne
    | DiscountOutOfRange

  /** The parsed text boxes: one per reward, one per probability, and the discount. */
  datatype Entries = Entries(rewards: seq<Option<real>>, probabilities: seq<Option<real>>, discount: Option<real>)

  /** The dialog always has three reward boxes and four probability boxes. */
  predicate Complete(e: Entries) {
    |e.rewards| == |RewardFields| && |e.probabilities| == |ProbabilityFields|
  }

  datatype Verdict = Accepted | Invalid(error: SettingError)

  // ---------------------------------------------------------------------------
  // The checks as the source runs them
  // ---------------------------------------------------------------------------

  /** One reward box: it must parse, and a negative reward must not exceed 0 nor a positive one fall below 0. */
  function CheckReward(f: Field, s: Sign, v: Option<real>): Option<SettingError> {
    match v
    case None => Some(NotAFloat(f))
    case Some(x) =>
      if s == Negative && x > 0.0 then Some(MustBeNegative(f))
      else if s == Positive && x < 0.0 then Some(MustBePositive(f))
      else None
  }

  /** The reward test of box `i` alone, in plain terms. */
  predicate RewardOk(vs: seq<Option<real>>, i: int)
    requires |vs| == |RewardFields| && 0 <= i < |vs|
  {
    vs[i].Some? && (RewardFields[i].1 == Negative ==> vs[i].value <= 0.0) && (RewardFields[i].1 == Positive ==> vs[i].value >= 0.0)
  }

  /**
    The reward loop from box `i` on: the error of the first box that fails,
    or `None` when every remaining box passes.
  */
  function CheckRewards(vs: seq<Option<real>>, i: nat): (r: Option<SettingError>)
    requires |vs| == |RewardFields| && i <= |vs|
    ensures r.None? <==> forall j :: i <= j < |vs| ==> RewardOk(vs, j)
    ensures r.Some? ==> exists j :: i <= j < |vs| && !RewardOk(vs, j) && (forall k :: i <= k < j ==> RewardOk(vs, k))
                                   && r == CheckReward(RewardFields[j].0, RewardFields[j].1, vs[j])
    decreases |vs| - i
  {
    if i == |vs| then None
    else
      CheckRewardIsRewardOk(vs, i);
      match CheckReward(RewardFields[i].0, RewardFields[i].1, vs[i])
      case Some(err) => Some(err)
      case None => CheckRewards(vs, i + 1)
  }

  lemma CheckRewardIsRewardOk(vs: seq<Option<real>>, i: int)
    requires |vs| == |RewardFields| && 0 <= i < |vs|
    ensures CheckReward(RewardFields[i].0, RewardFields[i].1, vs[i]).None? <==> RewardOk(vs, i)
  {
  }

  /** The probability test of one box alone: it parses and is not negative. */
  predicate ProbabilityOk(v: Option<real>) {
    v.Some? && v.value >= 0.0
  }

  /** The sum of the parsed boxes from `i` on. */
  function Total(vs: seq<Option<real>>, i: nat): real
    requires i <= |vs|
    decreases |vs| - i
  {
    if i == |vs| then 0.0 else vs[i].GetOr(0.0) + Total(vs, i + 1)
  }

  /**
    The probability loop from box `i` with running sum `psum`: the error of
    the first box that does not parse or is negative, or else the sum of
    all the boxes.
  */
  function CheckProbabilities(vs: seq<Option<real>>, i: nat, psum: real): (r: Result<real, SettingError>)
    requires |vs| == |ProbabilityFields| && i <= |vs|
    ensures r.Success? <==> forall j :: i <= j < |vs| ==> ProbabilityOk(vs[j])
    ensures r.Success? ==> r.value == psum + Total(vs, i)
    ensures r.Failure? ==> exists j :: i <= j < |vs| && !ProbabilityOk(vs[j]) && (forall k :: i <= k < j ==> ProbabilityOk(vs[k]))
                                       && r.error == (if vs[j].None? then NotAFloat(ProbabilityFields[j]) else MustBePositive(ProbabilityFields[j]))
    decreases |vs| - i
  {
    if i == |vs| then Success(psum)
    else
      match vs[i]
      case None => Failure(NotAFloat(ProbabilityFields[i]))
      case Some(v) =>
        if v < 0.0 then Failure(MustBePositive(ProbabilityFields[i]))
        else CheckProbabilities(vs, i + 1, psum + v)
  }

  /** The discount box: it must parse and lie in `[0, 1]`. */
  function CheckDiscount(v: Option<real>): Option<SettingError> {
    match v
    case None => Some(NotAFloat(DiscountFactor))
    case Some(d) => if d < 0.0 || d > 1.0 then Some(DiscountOutOfRange) else None
  }

  /** `checkSettingValues`: rewards, then probabilities and their sum, then the discount; the first failure is reported. */
  function CheckSettingValues(e: Entries): (r: Verdict)
    requires Complete(e)
  {
    match CheckRewards(e.rewards, 0)
    case Some(err) => Invalid(err)
    case None =>
      match CheckProbabilities(e.probabilities, 0, 0.0)
      case Failure(err) => Invalid(err)
      case Success(psum) =>
        if psum != 1.0 then Invalid(ProbabilitySumNotOne)
        else
          match CheckDiscount(e.discount)
          case Some(err) => Invalid(err)
          case None => Accepted
  }

  // ---------------------------------------------------------------------------
  // What the dialog accepts, stated box by box
  // ---------------------------------------------------------------------------

  predicate AllParsed(e: Entries)
    requires Complete(e)
  {
    && (forall i :: 0 <= i < |e.rewards| ==> e.rewards[i].Some?)
    && (forall i :: 0 <= i < |e.probabilities| ==> e.probabilities[i].Some?)
    && e.discount.Some?
  }

  /**
    Every box parses; the step and pit rewards are at most 0 and the exit
    reward at least 0; the four probabilities are non-negative and sum to 1;
    the discount lies in `[0, 1]`, both ends included.
  */
  predicate Acceptable(e: Entries)
    requires Complete(e)
  {
    && AllParsed(e)
    && e.rewards[0].value <= 0.0 && e.rewards[1].value <= 0.0 && e.rewards[2].value >= 0.0
    && (forall i :: 0 <= i < |e.probabilities| ==> e.probabilities[i].value >= 0.0)
    && e.probabilities[0].value + e.probabilities[1].value + e.probabilities[2].value + e.probabilities[3].value == 1.0
    && 0.0 <= e.discount.value <= 1.0
  }

  lemma TotalOfFour(vs: seq<Option<real>>)
    requires |vs| == 4 && forall i :: 0 <= i < 4 ==> vs[i].Some?
    ensures Total(vs, 0) == vs[0].value + vs[1].value + vs[2].value + vs[3].value
  {
    assert Total(vs, 3) == vs[3].value + Total(vs, 4);
    assert Total(vs, 2) == vs[2].value + Total(vs, 3);
    assert Total(vs, 1) == vs[1].value + Total(vs, 2);
  }

  /** The dialog accepts exactly the configurations `Acceptable` describes. */
  lemma AcceptsExactly(e: Entries)
    requires Complete(e)
    ensures CheckSettingValues(e).Accepted? <==> Acceptable(e)
  {
    var rw, pr := CheckRewards(e.rewards, 0), CheckProbabilities(e.probabilities, 0, 0.0);
    if rw.None? && pr.Success? {
      TotalOfFour(e.probabilities);
    }
    if Acceptable(e) {
      assert forall j :: 0 <= j < 3 ==> RewardOk(e.rewards, j);
      TotalOfFour(e.probabilities);
    } else if rw.None? && pr.Success? && pr.value == 1.0 && e.discount.Some? {
      assert RewardOk(e.rewards, 0) && RewardOk(e.rewards, 1) && RewardOk(e.rewards, 2);
    }
  }

  /** The check run `k`-th (0-based), on its own. */
  function CheckNo(e: Entries, k: nat): Option<SettingError>
    requires Complete(e) && k < 9
  {
    if k < 3 then CheckReward(RewardFields[k].0, RewardFields[k].1, e.rewards[k])
    else if k < 7 then
      var v := e.probabilities[k - 3];
      if v.None? then Some(NotAFloat(ProbabilityFields[k - 3]))
      else if v.value < 0.0 then Some(MustBePositive(ProbabilityFields[k - 3]))
      else None
    else if k == 7 then (if Total(e.probabilities, 0) != 1.0 then Some(ProbabilitySumNotOne) else None)
    else CheckDiscount(e.discount)
  }

  /** Check `k` is the first of the nine to fail. */
  predicate FirstFailing(e: Entries, k: nat)
    requires Complete(e)
  {
    k < 9 && CheckNo(e, k).Some? && forall j :: 0 <= j < k ==> CheckNo(e, j).None?
  }

  lemma RewardCheckNo(e: Entries, j: int)
    requires Complete(e) && 0 <= j < 3
    ensures CheckNo(e, j).None? <==> RewardOk(e.rewards, j)
  {
  }

  lemma ProbabilityCheckNo(e: Entries, j: int)
    requires Complete(e) && 0 <= j < 4
    ensures CheckNo(e, j + 3).None? <==> ProbabilityOk(e.probabilities[j])
    ensures CheckNo(e, j + 3).Some? ==>
              CheckNo(e, j + 3).value == (if e.probabilities[j].None? then NotAFloat(ProbabilityFields[j]) else MustBePositive(ProbabilityFields[j]))
  {
  }

  /** A failing reward box is the first failure when the boxes before it pass. */
  lemma RewardFailureFirst(e: Entries, j: int)
    requires Complete(e) && 0 <= j < 3 && !RewardOk(e.rewards, j)
    requires forall k :: 0 <= k < j ==> RewardOk(e.rewards, k)
    ensures FirstFailing(e, j)
  {
    RewardCheckNo(e, j);
    forall k | 0 <= k < j ensures CheckNo(e, k).None? {
      RewardCheckNo(e, k);
    }
  }

  /** A failing probability box is the first failure when the rewards and the boxes before it pass. */
  lemma ProbabilityFailureFirst(e: Entries, j: int)
    requires Complete(e) && 0 <= j < 4 && !ProbabilityOk(e.probabilities[j])
    requires forall k :: 0 <= k < 3 ==> RewardOk(e.rewards, k)
    requires forall k :: 0 <= k < j ==> ProbabilityOk(e.probabilities[k])
    ensures FirstFailing(e, j + 3)
  {
    ProbabilityCheckNo(e, j);
    forall k | 0 <= k < j + 3 ensures CheckNo(e, k).None? {
      if k < 3 {
        RewardCheckNo(e, k);
      } else {
        ProbabilityCheckNo(e, k - 3);
      }
    }
  }

  /** When every box before the sum passes, the first failure is among the last two checks, if any. */
  lemma LateChecksFirst(e: Entries, k: nat)
    requires Complete(e) && (k == 7 || k == 8) && CheckNo(e, k).Some?
    requires forall j :: 0 <= j < 3 ==> RewardOk(e.rewards, j)
    requires forall j :: 0 <= j < 4 ==> ProbabilityOk(e.probabilities[j])
    requires k == 8 ==> CheckNo(e, 7).None?
    ensures FirstFailing(e, k)
  {
    forall j | 0 <= j < k ensures CheckNo(e, j).None? {
      if j < 3 {
        RewardCheckNo(e, j);
      } else if j < 7 {
        ProbabilityCheckNo(e, j - 3);
      }
    }
  }

  /**
    The dialog reports the error of the first of its nine checks to fail,
    and accepts when none fails.
  */
  lemma ReportsFirstFailure(e: Entries)
    requires Complete(e)
    ensures CheckSettingValues(e).Accepted? <==> forall k :: 0 <= k < 9 ==> CheckNo(e, k).None?
    ensures CheckSettingValues(e).Invalid? ==>
              exists k :: FirstFailing(e, k) && CheckNo(e, k) == Some(CheckSettingValues(e).error)
  {
    var rw := CheckRewards(e.rewards, 0);
    if rw.Some? {
      var j :| 0 <= j < 3 && !RewardOk(e.rewards, j) && (forall k :: 0 <= k < j ==> RewardOk(e.rewards, k))
               && rw == CheckReward(RewardFields[j].0, RewardFields[j].1, e.rewards[j]);
      RewardFailureFirst(e, j);
      return;
    }
    var pr := CheckProbabilities(e.probabilities, 0, 0.0);
    if pr.Failure? {
      var j :| 0 <= j < 4 && !ProbabilityOk(e.probabilities[j]) && (forall k :: 0 <= k < j ==> ProbabilityOk(e.probabilities[k]))
               && pr.error == (if e.probabilities[j].None? then NotAFloat(ProbabilityFields[j]) else MustBePositive(ProbabilityFields[j]));
      ProbabilityFailureFirst(e, j);
      ProbabilityCheckNo(e, j);
      return;
    }
    assert pr.value == Total(e.probabilities, 0);
    if pr.value != 1.0 {
      LateChecksFirst(e, 7);
      return;
    }
    if CheckDiscount(e.discount).Some? {
      LateChecksFirst(e, 8);
      return;
    }
    forall k | 0 <= k < 9 ensures CheckNo(e, k).None? {
      if k < 3 {
        RewardCheckNo(e, k);
      } else if k < 7 {
        ProbabilityCheckNo(e, k - 3);
      }
    }
  }

  /**
    A zero reward passes under either sign, and the discount's bounds 0 and 1
    are themselves accepted: in any accepted configuration, any one reward box
    may read 0 and the discount may sit on either bound.
  */
  lemma BoundariesAccepted(e: Entries, i: nat, d: real)
    requires Complete(e) && CheckSettingValues(e).Accepted?
    requires i < |e.rewards| && (d == 0.0 || d == 1.0)
    ensures CheckSettingValues(e.(rewards := e.rewards[i := Some(0.0)])).Accepted?
    ensures CheckSettingValues(e.(discount := Some(d))).Accepted?
  {
    var zeroed := e.(rewards := e.rewards[i := Some(0.0)]);
    var bounded := e.(discount := Some(d));
    AcceptsExactly(e);
    AcceptsExactly(zeroed);
    AcceptsExactly(bounded);
    assert forall j :: 0 <= j < |zeroed.rewards| ==> zeroed.rewards[j].Some?;
  }

  // ---------------------------------------------------------------------------
  // Handing an accepted configuration to the world
  // ---------------------------------------------------------------------------

  /** How `openMDPGUI` can end without a configured world: a rejected dialog, or an exception from the world. */
  datatype OpenError = Rejected(error: SettingError) | Raised(config: ConfigError)

  /**
    `openMDPGUI`: when the dialog accepts, set the discount, the rewards in
    step, pit, exit order and the probabilities in F, L, R, B order.
  */
  function OpenMdp(w: World, e: Entries): (r: Result<World, OpenError>)
    requires Complete(e)
  {
    match CheckSettingValues(e)
    case Invalid(err) => Failure(Rejected(err))
    case Accepted =>
      AcceptsExactly(e);
      var rews, probs := e.rewards, e.probabilities;
      var w1 := SetRewards(SetDiscountFactor(w, e.discount.value), rews[0].value, rews[1].value, rews[2].value);
      match SetProbabilities(w1, probs[0].value, probs[1].value, probs[2].value, probs[3].value)
      case Failure(err) => Failure(Raised(err))
      case Success(w2) => Success(w2)
  }

  /**
    Opening never raises: an accepted configuration passes the world's own
    sum guard.  The configured world keeps the map and carries the boxes'
    values in the right slots; a rejected dialog reports the validator's
    error.
  */
  lemma OpenMdpConfigures(w: World, e: Entries)
    requires Complete(e)
    ensures var r := OpenMdp(w, e);
            && (r.Success? <==> Acceptable(e))
            && (r.Failure? ==> r.error.Rejected? && Invalid(r.error.error) == CheckSettingValues(e))
            && (r.Success? ==>
                  && r.value.cells == w.cells
                  && r.value.discount == e.discount.value
                  && RewardOf(r.value.rew, Void) == e.rewards[0].value
                  && RewardOf(r.value.rew, Pit) == e.rewards[1].value
                  && RewardOf(r.value.rew, Exit) == e.rewards[2].value
                  && RewardOf(r.value.rew, Wall) == 0.0
                  && r.value.prob == Noise(e.probabilities[0].value, e.probabilities[1].value,
                                           e.probabilities[2].value, e.probabilities[3].value)
                  && SumsToOne(r.value.prob))
  {
    AcceptsExactly(e);
  }
}
