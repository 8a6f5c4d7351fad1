/**
 * Construction and validation of the genesis state (`types/genesis.go`).
 * The validators take their record by value and return the first guard that
 * fails; `ValidateGenesis` checks every continuous fund, then every budget.
 */
module Genesis {
  import opened Wrappers
  import opened Types

  /** The errors the validators return, one per guard. */
  datatype ValidationError =
    | EmptyRecipient
    | ZeroTotalBudget
    | InvalidCoins(coin: Coin)
    | ZeroTranches
    | ZeroPeriod
    | ZeroPercentage
    | NegativePercentage
    | PercentageAboveOne

  function NewGenesisState(cf: seq<ContinuousFund>, budget: seq<Budget>): (gs: GenesisState)
    ensures gs.continuousFund == cf && gs.budget == budget
  {
    GenesisState(cf, budget)
  }

  /** The default genesis state holds no records, and so it always validates. */
  function DefaultGenesisState(): (gs: GenesisState)
    ensures |gs.continuousFund| == 0 && |gs.budget| == 0
    ensures ValidateGenesis(gs) == Pass
  {
    GenesisState([], [])
  }

  // ---------------------------------------------------------------------------
  // Budgets

  /**
   * `validateBudget` dereferences the total budget once the recipient is
   * non-empty; a nil one there is a panic, not an error result.
   */
  predicate BudgetDereferenceable(bp: Budget) {
    bp.recipientAddress != [] ==> bp.totalBudget.Some?
  }

  /**
   * A budget passes exactly when its recipient is non-empty, its total budget is
   * a non-zero valid coin, it has at least one tranche and its period is set and
   * non-zero. The empty recipient is reported before anything else. The period
   * check compares with zero only, so a negative period passes.
   */
  function ValidateBudget(bp: Budget): (r: Outcome<ValidationError>)
    requires BudgetDereferenceable(bp)
    ensures bp.recipientAddress == [] ==> r == Fail(EmptyRecipient)
    ensures bp.recipientAddress != [] && bp.totalBudget.value.amount == 0 ==> r == Fail(ZeroTotalBudget)
    ensures bp.tranches == 0 ==> r.Fail?
    ensures bp.period.None? || bp.period == Some(0) ==> r.Fail?
    ensures r == Pass <==>
      && bp.recipientAddress != []
      && bp.totalBudget.value.amount != 0
      && ValidCoin(bp.totalBudget.value)
      && bp.tranches > 0
      && bp.period.Some? && bp.period.value != 0
  {
    if bp.recipientAddress == [] then
      Fail(EmptyRecipient)
    else if bp.totalBudget.value.amount == 0 then
      Fail(ZeroTotalBudget)
    else if !ValidCoin(bp.totalBudget.value) then
      Fail(InvalidCoins(bp.totalBudget.value))
    else if bp.tranches == 0 then
      Fail(ZeroTranches)
    else if bp.period.None? || bp.period.value == 0 then
      Fail(ZeroPeriod)
    else
      Pass
  }

  // ---------------------------------------------------------------------------
  // Continuous funds

  /**
   * `validateContinuousFund` dereferences the cap once the recipient is
   * non-empty, and reads the percentage (`IsZero` before `IsNil`) once the cap
   * passed; a nil there is a panic, not an error result.
   */
  predicate FundDereferenceable(cf: ContinuousFund) {
    cf.recipient != [] ==> cf.cap.Some? && (ValidCoin(cf.cap.value) ==> cf.percentage.Some?)
  }

  /** The recipient and cap guards of `validateContinuousFund` pass. */
  predicate RecipientAndCapPass(cf: ContinuousFund)
    requires FundDereferenceable(cf)
  {
    cf.recipient != [] && ValidCoin(cf.cap.value)
  }

  /**
   * A continuous fund passes exactly when its recipient is non-empty, its cap is
   * a valid coin and its percentage p has 0 < p <= 1. The guards fire in that
   * order: recipient, cap, then zero, negative and above-one percentage.
   */
  function ValidateContinuousFund(cf: ContinuousFund): (r: Outcome<ValidationError>)
    requires FundDereferenceable(cf)
    ensures cf.recipient == [] ==> r == Fail(EmptyRecipient)
    ensures cf.recipient != [] && !ValidCoin(cf.cap.value) ==> r == Fail(InvalidCoins(cf.cap.value))
    ensures RecipientAndCapPass(cf) && cf.percentage.value == 0 ==> r == Fail(ZeroPercentage)
    ensures RecipientAndCapPass(cf) && cf.percentage.value < 0 ==> r == Fail(NegativePercentage)
    ensures RecipientAndCapPass(cf) && cf.percentage.value > One ==> r == Fail(PercentageAboveOne)
    ensures r == Pass <==> RecipientAndCapPass(cf) && 0 < cf.percentage.value <= One
  {
    if cf.recipient == [] then
      Fail(EmptyRecipient)
    else if !ValidCoin(cf.cap.value) then
      Fail(InvalidCoins(cf.cap.value))
    else if cf.percentage.value == 0 then
      Fail(ZeroPercentage)
    else if cf.percentage.value < 0 then
      Fail(NegativePercentage)
    else if cf.percentage.value > One then
      Fail(PercentageAboveOne)
    else
      Pass
  }

  // ---------------------------------------------------------------------------
  // The whole genesis state

  /** Every fund before index `i` is dereferenceable and passes. */
  predicate FundsPassBefore(cfs: seq<ContinuousFund>, i: nat)
    requires i <= |cfs|
  {
    forall k :: 0 <= k < i ==> FundDereferenceable(cfs[k]) && ValidateContinuousFund(cfs[k]) == Pass
  }

  /** Every budget before index `i` is dereferenceable and passes. */
  predicate BudgetsPassBefore(bs: seq<Budget>, i: nat)
    requires i <= |bs|
  {
    forall k :: 0 <= k < i ==> BudgetDereferenceable(bs[k]) && ValidateBudget(bs[k]) == Pass
  }

  /** The funds the loop reaches, up to and including the first failing one, are dereferenceable. */
  predicate FundsDereferenceable(cfs: seq<ContinuousFund>)
    decreases |cfs|
  {
    cfs == [] || (FundDereferenceable(cfs[0]) && (ValidateContinuousFund(cfs[0]) == Pass ==> FundsDereferenceable(cfs[1..])))
  }

  /** The budgets the loop reaches, up to and including the first failing one, are dereferenceable. */
  predicate BudgetsDereferenceable(bs: seq<Budget>)
    decreases |bs|
  {
    bs == [] || (BudgetDereferenceable(bs[0]) && (ValidateBudget(bs[0]) == Pass ==> BudgetsDereferenceable(bs[1..])))
  }

  /** The first loop of `ValidateGenesis`: the first continuous fund's error, or `Pass` when all pass. */
  function ValidateFunds(cfs: seq<ContinuousFund>): (r: Outcome<ValidationError>)
    requires FundsDereferenceable(cfs)
    ensures r == Pass <==> FundsPassBefore(cfs, |cfs|)
    decreases |cfs|
  {
    if cfs == [] then Pass
    else match ValidateContinuousFund(cfs[0])
      case Fail(e) => Fail(e)
      case Pass => ValidateFunds(cfs[1..])
  }

  /** The second loop of `ValidateGenesis`: the first budget's error, or `Pass` when all pass. */
  function ValidateBudgets(bs: seq<Budget>): (r: Outcome<ValidationError>)
    requires BudgetsDereferenceable(bs)
    ensures r == Pass <==> BudgetsPassBefore(bs, |bs|)
    decreases |bs|
  {
    if bs == [] then Pass
    else match ValidateBudget(bs[0])
      case Fail(e) => Fail(e)
      case Pass => ValidateBudgets(bs[1..])
  }

  /** Validation reaches the budgets only when every continuous fund passed. */
  predicate GenesisDereferenceable(gs: GenesisState) {
    FundsDereferenceable(gs.continuousFund) &&
    (ValidateFunds(gs.continuousFund) == Pass ==> BudgetsDereferenceable(gs.budget))
  }

  /** The genesis state validates exactly when every continuous fund and every budget does. */
  function ValidateGenesis(gs: GenesisState): (r: Outcome<ValidationError>)
    requires GenesisDereferenceable(gs)
    ensures r == Pass <==> FundsPassBefore(gs.continuousFund, |gs.continuousFund|) && BudgetsPassBefore(gs.budget, |gs.budget|)
  {
    match ValidateFunds(gs.continuousFund)
    case Fail(e) => Fail(e)
    case Pass => ValidateBudgets(gs.budget)
  }

  /** The first failing continuous fund decides the result of the funds loop. */
  lemma {:induction false} FirstFailingFundWins(cfs: seq<ContinuousFund>, i: nat)
    requires i < |cfs| && FundsPassBefore(cfs, i)
    requires FundDereferenceable(cfs[i]) && ValidateContinuousFund(cfs[i]).Fail?
    ensures FundsDereferenceable(cfs)
    ensures ValidateFunds(cfs) == ValidateContinuousFund(cfs[i])
    decreases i
  {
    if i > 0 {
      assert FundsPassBefore(cfs[1..], i - 1) by {
        forall k | 0 <= k < i - 1
          ensures FundDereferenceable(cfs[1..][k]) && ValidateContinuousFund(cfs[1..][k]) == Pass
        {
          assert cfs[1..][k] == cfs[k + 1];
        }
      }
      FirstFailingFundWins(cfs[1..], i - 1);
    }
  }

  /** The first failing budget decides the result of the budgets loop. */
  lemma {:induction false} FirstFailingBudgetWins(bs: seq<Budget>, i: nat)
    requires i < |bs| && BudgetsPassBefore(bs, i)
    requires BudgetDereferenceable(bs[i]) && ValidateBudget(bs[i]).Fail?
    ensures BudgetsDereferenceable(bs)
    ensures ValidateBudgets(bs) == ValidateBudget(bs[i])
    decreases i
  {
    if i > 0 {
      assert BudgetsPassBefore(bs[1..], i - 1) by {
        forall k | 0 <= k < i - 1
          ensures BudgetDereferenceable(bs[1..][k]) && ValidateBudget(bs[1..][k]) == Pass
        {
          assert bs[1..][k] == bs[k + 1];
        }
      }
      FirstFailingBudgetWins(bs[1..], i - 1);
    }
  }

  /**
   * Continuous funds are checked before any budget: once a fund fails, its error
   * is the result whatever the budgets are, even ones validation would panic on.
   */
  lemma FundErrorPrecedesBudgets(cfs: seq<ContinuousFund>, bs: seq<Budget>, i: nat)
    requires i < |cfs| && FundsPassBefore(cfs, i)
    requires FundDereferenceable(cfs[i]) && ValidateContinuousFund(cfs[i]).Fail?
    ensures GenesisDereferenceable(GenesisState(cfs, bs))
    ensures ValidateGenesis(GenesisState(cfs, bs)) == ValidateContinuousFund(cfs[i])
  {
    FirstFailingFundWins(cfs, i);
  }

  /** When every fund passes, the first failing budget's error is the result. */
  lemma BudgetErrorWhenFundsPass(cfs: seq<ContinuousFund>, bs: seq<Budget>, j: nat)
    requires FundsDereferenceable(cfs) && FundsPassBefore(cfs, |cfs|)
    requires j < |bs| && BudgetsPassBefore(bs, j)
    requires BudgetDereferenceable(bs[j]) && ValidateBudget(bs[j]).Fail?
    ensures GenesisDereferenceable(GenesisState(cfs, bs))
    ensures ValidateGenesis(GenesisState(cfs, bs)) == ValidateBudget(bs[j])
  {
    FirstFailingBudgetWins(bs, j);
  }
}
