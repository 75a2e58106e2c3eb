/** When fee accrual goes through. Deposits and withdrawals accrue first, so a pool whose accrual
    is refused takes in and pays out nothing. */
module Accrual {
  import opened Numbers
  import opened ShareMath
  import opened Ledger
  import opened Instructions
  import opened Effects
  import opened Invariants
  import opened Tranches
  import MulDiv

  /** There are holders, and the vault has more than the books say. */
  ghost predicate AnythingToAccrue(w: World) {
    w.vault > Value(w.pool) && w.pool.lpSupply > 0
  }

  /** Junior's part of what is in the vault beyond the books. */
  ghost function JuniorPart(w: World): nat
    requires AnythingToAccrue(w) && 0 <= Senior(w.pool)
  {
    if w.pool.juniorLp == 0 then 0
    else MulDiv.JuniorFee(w.pool.juniorBalance, Senior(w.pool), w.pool.juniorMult, w.vault - Value(w.pool))
  }

  /** All that accrual is checked for, on the counters: the fee counter, which afterwards is the
      total of outside transfers, has room for them; and with junior shares, senior is not
      negative and junior's gross balance with its part stays within the vault. */
  ghost predicate AccrualOpen(w: World) {
    AnythingToAccrue(w) ==>
      && w.sentIn <= U64_MAX
      && (w.pool.juniorLp > 0 ==> 0 <= Senior(w.pool) && w.pool.juniorBalance + JuniorPart(w) <= w.vault)
  }

  /** The pool after accrual. */
  ghost function Accrued(w: World): Pool
    requires AccrualOpen(w)
  {
    if !AnythingToAccrue(w) then w.pool
    else if w.pool.juniorLp == 0 then w.pool.(fees := w.sentIn)
    else w.pool.(fees := w.sentIn, juniorBalance := w.pool.juniorBalance + JuniorPart(w))
  }

  /** Accrual is accepted exactly when it is open, and then books every outside transfer. */
  lemma AccrueAcceptedIff(w: World)
    requires Inv(w)
    ensures Accrue(w.pool, w.vault).Some? <==> AccrualOpen(w)
    ensures AccrualOpen(w) ==> Accrue(w.pool, w.vault) == Some(Accrued(w))
  {
    hide LpSum;
    hide MulDiv.JuniorFee;
  }

  /** While the pool value covers junior's gross balance, loss or no loss, the only limit is the
      width of the fee counter. */
  lemma CoveredAccrualOpen(w: World)
    requires Inv(w) && w.pool.juniorBalance <= Value(w.pool)
    ensures AccrualOpen(w) <==> (AnythingToAccrue(w) ==> w.sentIn <= U64_MAX)
  {
    hide MulDiv.JuniorFee;
    if AnythingToAccrue(w) && w.pool.juniorLp > 0 {
      MulDiv.JuniorFeeAtMostFee(w.pool.juniorBalance, Senior(w.pool), w.pool.juniorMult, w.vault - Value(w.pool));
    }
  }

  /** With no loss outstanding a solvent pool always accrues. */
  lemma LossFreeAccrualOpen(w: World)
    requires Inv(w) && Solvent(w.pool) && NetLoss(w.pool) == 0 && w.sentIn <= U64_MAX
    ensures AccrualOpen(w)
  {
    CoveredAccrualOpen(w);
  }

  // -------------------------------------------------------------------- stalls

  /** Something to accrue, while junior's gross balance exceeds the whole vault: under a loss
      that junior bears, the guard compares the balance junior would have without it. */
  ghost predicate Stalled(w: World) {
    AnythingToAccrue(w) && w.pool.juniorLp > 0 && w.vault < w.pool.juniorBalance
  }

  predicate Accrues(i: Instruction) {
    i.Deposit? || i.DepositJunior? || i.Withdraw? || i.AccrueFees?
  }

  /** In a stalled state nobody deposits, withdraws or accrues. */
  lemma StallRejects(w: World, i: Instruction)
    requires Inv(w) && Stalled(w) && Accrues(i)
    ensures Exec(w, i) == None
  {
    hide Accrue;
    hide LpSum;
    hide PriceDeposit;
    hide CalcLpForDeposit;
    hide Book;
    hide Payout;
    hide HwmGate;
    hide TakeOut;
    AccrueAcceptedIff(w);
  }

  lemma StallHoldsAfter(w: World, i: Instruction)
    requires Inv(w) && Stalled(w) && !Accrues(i) && Exec(w, i).Some?
    ensures var w' := Exec(w, i).value;
            && w'.records == w.records && w'.pool.juniorLp == w.pool.juniorLp
            && w'.pool.lpSupply == w.pool.lpSupply
            && w'.pool.juniorBalance == w.pool.juniorBalance && w'.pool.withdrawn == w.pool.withdrawn
            && w.vault - Value(w.pool) <= w'.vault - Value(w'.pool)
  {
    hide Inv;
    hide ExecConfig;
    match i
    case FlushToInsurance(_) =>
    case ReturnInsurance(_) =>
    case RecoverFlushedInsurance(_) =>
    case TransferToVault(_) =>
    case BurnLp(_) =>
    case AdvanceClock(_, _) =>
    case _ => ConfigKeepsBooks(w.pool, w.slot, i);
  }

  /** Nothing but tokens sent or returned to the vault ends a stall, and only once the vault
      holds junior's gross balance. */
  lemma StepKeepsStall(w: World, s: Step)
    requires Inv(w) && Stalled(w) && Apply(w, s).vault < w.pool.juniorBalance
    ensures var w' := Apply(w, s);
            && Stalled(w') && w'.records == w.records
            && w'.pool.juniorBalance == w.pool.juniorBalance && w'.pool.withdrawn == w.pool.withdrawn
  {
    hide Exec;
    hide Inv;
    if Accrues(s.i) {
      StallRejects(w, s.i);
    } else if Succeeds(w, s) {
      StallHoldsAfter(w, s.i);
    }
  }

  /** Every state the run passes through has less than `need` in the vault. */
  ghost predicate ShortOf(w: World, steps: seq<Step>, need: nat)
    decreases |steps|
  {
    && Run(w, steps).vault < need
    && (steps != [] ==> ShortOf(w, steps[..|steps| - 1], need))
  }

  /** From a stalled state, in any run that never brings the vault up to junior's gross balance,
      every holder keeps exactly what they hold and is paid nothing. */
  lemma {:induction false} StallLasts(w: World, steps: seq<Step>)
    requires Inv(w) && Stalled(w) && ShortOf(w, steps, w.pool.juniorBalance)
    ensures var e := Run(w, steps);
            && Stalled(e) && e.records == w.records
            && e.pool.juniorBalance == w.pool.juniorBalance && e.pool.withdrawn == w.pool.withdrawn
    decreases |steps|
  {
    hide Apply;
    hide Inv;
    hide Stalled;
    if steps != [] {
      var before := steps[..|steps| - 1];
      StallLasts(w, before);
      RunKeepsInv(w, before);
      StepKeepsStall(Run(w, before), steps[|steps| - 1]);
    }
  }
}
