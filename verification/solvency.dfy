/** Tranche solvency over whole runs: junior's claim plus senior's claim is the pool value,
    the pool value is in the vault, and exactly when a run can leave that state. */
module Solvency {
  import opened Numbers
  import opened ShareMath
  import opened Ledger
  import opened Instructions
  import opened Effects
  import opened Invariants
  import opened Tranches
  import opened Insurance
  import opened Accrual
  import opened HighWaterMark

  /** A flush first eats the surplus, which backs senior. It is covered when senior holds what
      is eaten, or when the rest of the flush wipes junior out. Always true while the pool is
      not over-returned. */
  predicate FlushCovered(p: Pool, amount: u64) {
    Min(amount, Surplus(p)) <= Senior(p) || p.juniorBalance + Surplus(p) <= amount
  }

  lemma FlushSolventIff(w: World, amount: u64)
    requires Solvent(w.pool) && ExecFlush(w, amount).Some?
    ensures Solvent(ExecFlush(w, amount).value.pool) <==> FlushCovered(w.pool, amount)
  {
  }

  /** Any accepted instruction other than a flush keeps a covered pool covered. */
  lemma OtherStepsKeepSolvent(w: World, s: Step)
    requires Inv(w) && Solvent(w.pool) && Succeeds(w, s) && !s.i.FlushToInsurance?
    ensures Solvent(Apply(w, s).pool)
  {
    hide Accrue;
    hide ExecDeposit;
    hide ExecDepositJunior;
    hide ExecWithdraw;
    hide ExecConfig;
    hide Mint;
    hide Redeem;
    match s.i
    case Deposit(user, amount) =>
      var p, lp := DepositMoves(w, user, amount);
      AccrueMoves(w.pool, w.vault);
    case DepositJunior(user, amount) =>
      var p, lp := DepositJuniorMoves(w, user, amount);
      AccrueMoves(w.pool, w.vault);
    case Withdraw(user, lp) =>
      var p, out := WithdrawMoves(w, user, lp);
      AccrueMoves(w.pool, w.vault);
    case AccrueFees =>
      AccrueMoves(w.pool, w.vault);
    case ReturnInsurance(_) =>
    case RecoverFlushedInsurance(_) =>
    case TransferToVault(_) =>
    case BurnLp(_) =>
    case AdvanceClock(_, _) =>
    case _ =>
      ConfigKeepsBooks(w.pool, w.slot, s.i);
  }

  /** One step from a covered state stays covered exactly when it is not an accepted flush
      that is uncovered. */
  lemma StepSolventIff(w: World, s: Step)
    requires Inv(w) && Solvent(w.pool)
    ensures Solvent(Apply(w, s).pool)
            <==> (Succeeds(w, s) && s.i.FlushToInsurance? ==> FlushCovered(w.pool, s.i.amount))
  {
    hide ExecFlush;
    hide Solvent;
    hide FlushCovered;
    if Succeeds(w, s) {
      if s.i.FlushToInsurance? {
        FlushSolventIff(w, s.i.amount);
      } else {
        OtherStepsKeepSolvent(w, s);
      }
    }
  }

  // ------------------------------------------------------------------- runs

  /** Every state the run passes through is covered. */
  ghost predicate SolventThroughout(w: World, steps: seq<Step>)
    decreases |steps|
  {
    && Solvent(Run(w, steps).pool)
    && (steps != [] ==> SolventThroughout(w, steps[..|steps| - 1]))
  }

  /** Every accepted flush of the run was covered when it was made. */
  ghost predicate FlushesCovered(w: World, steps: seq<Step>)
    decreases |steps|
  {
    steps != [] ==>
      var before, s := steps[..|steps| - 1], steps[|steps| - 1];
      && FlushesCovered(w, before)
      && (Succeeds(Run(w, before), s) && s.i.FlushToInsurance? ==> FlushCovered(Run(w, before).pool, s.i.amount))
  }

  /** Every state the run passes through has returned no more than it flushed. */
  ghost predicate NeverOverReturned(w: World, steps: seq<Step>)
    decreases |steps|
  {
    && !OverReturned(Run(w, steps).pool)
    && (steps != [] ==> NeverOverReturned(w, steps[..|steps| - 1]))
  }

  /** The exact condition, for every run from a state of the invariant that is covered. */
  lemma {:induction false} SolventIffFlushesCovered(w: World, steps: seq<Step>)
    requires Inv(w) && Solvent(w.pool)
    ensures SolventThroughout(w, steps) <==> FlushesCovered(w, steps)
    decreases |steps|
  {
    hide Solvent;
    hide FlushCovered;
    hide Apply;
    hide Inv;
    if steps != [] {
      var before, s := steps[..|steps| - 1], steps[|steps| - 1];
      SolventIffFlushesCovered(w, before);
      RunKeepsInv(w, before);
      if SolventThroughout(w, before) {
        StepSolventIff(Run(w, before), s);
      }
    }
  }

  lemma {:induction false} NotOverReturnedIsCovered(w: World, steps: seq<Step>)
    requires Inv(w) && Solvent(w.pool) && NeverOverReturned(w, steps)
    ensures FlushesCovered(w, steps)
    decreases |steps|
  {
    hide Apply;
    hide Inv;
    if steps != [] {
      var before := steps[..|steps| - 1];
      NotOverReturnedIsCovered(w, before);
      SolventIffFlushesCovered(w, before);
    }
  }

  /** Tranche solvency. In every state of every run from a new pool whose flushes were
      covered, senior is defined, the two claims add up to the pool value, and the vault
      holds it. */
  lemma TrancheSolvency(init: World, steps: seq<Step>)
    requires Init(init) && FlushesCovered(init, steps)
    ensures var w := Run(init, steps);
            && SeniorBalance(w.pool).Some?
            && EffectiveJuniorBalance(w.pool) + SeniorBalance(w.pool).value == Value(w.pool) <= w.vault
            && TotalPoolValue(w.pool) == Some(Value(w.pool))
            && w.pool.juniorBalance <= Gross(w.pool) + Surplus(w.pool)
  {
    InitInv(init);
    RunKeepsInv(init, steps);
    SolventIffFlushesCovered(init, steps);
    SolventIffGrossCovers(Run(init, steps).pool);
  }

  /** The same without mentioning flushes, for runs that are never over-returned. */
  lemma TrancheSolvencyNotOverReturned(init: World, steps: seq<Step>)
    requires Init(init) && NeverOverReturned(init, steps)
    ensures var w := Run(init, steps);
            && SeniorBalance(w.pool).Some?
            && EffectiveJuniorBalance(w.pool) + SeniorBalance(w.pool).value == Value(w.pool) <= w.vault
            && w.pool.juniorBalance <= Gross(w.pool)
  {
    InitInv(init);
    NotOverReturnedIsCovered(init, steps);
    TrancheSolvency(init, steps);
  }

  // ----------------------------------------------------------- over-return

  /** Only an accepted recovery of more than the net loss turns a pool over-returned. */
  lemma StepOverReturnsIff(w: World, s: Step)
    requires Inv(w) && !OverReturned(w.pool)
    ensures OverReturned(Apply(w, s).pool)
            <==> Succeeds(w, s) && s.i.RecoverFlushedInsurance? && s.i.amount > NetLoss(w.pool)
  {
    hide Apply;
    InsuranceFlows(w, s);
  }

  /** Every accepted recovery of the run was within the net loss when it was made. */
  ghost predicate RecoveriesWithinLoss(w: World, steps: seq<Step>)
    decreases |steps|
  {
    steps != [] ==>
      var before, s := steps[..|steps| - 1], steps[|steps| - 1];
      && RecoveriesWithinLoss(w, before)
      && (Succeeds(Run(w, before), s) && s.i.RecoverFlushedInsurance? ==> s.i.amount <= NetLoss(Run(w, before).pool))
  }

  /** The exact condition, for every run. */
  lemma {:induction false} NeverOverReturnedIff(w: World, steps: seq<Step>)
    requires Inv(w) && !OverReturned(w.pool)
    ensures NeverOverReturned(w, steps) <==> RecoveriesWithinLoss(w, steps)
    decreases |steps|
  {
    hide Apply;
    hide Inv;
    hide OverReturned;
    hide NetLoss;
    if steps != [] {
      var before, s := steps[..|steps| - 1], steps[|steps| - 1];
      NeverOverReturnedIff(w, before);
      RunKeepsInv(w, before);
      if NeverOverReturned(w, before) {
        StepOverReturnsIff(Run(w, before), s);
      }
    }
  }

  // ---------------------------------------------------------- single channel

  /** A run that never uses one of the two return channels. */
  predicate UsesOneChannel(steps: seq<Step>) {
    || (forall k :: 0 <= k < |steps| ==> !steps[k].i.ReturnInsurance?)
    || (forall k :: 0 <= k < |steps| ==> !steps[k].i.RecoverFlushedInsurance?)
  }

  /** Only recovery can push the returned total past the flushed one, and only an admin
      return lets it. */
  lemma StepNotOverReturned(w: World, s: Step)
    requires Inv(w) && !OverReturned(w.pool)
    requires (w.adminReturned == 0 && !s.i.ReturnInsurance?) || !s.i.RecoverFlushedInsurance?
    ensures !OverReturned(Apply(w, s).pool)
    ensures !s.i.ReturnInsurance? ==> Apply(w, s).adminReturned == w.adminReturned
  {
    hide Apply;
    InsuranceFlows(w, s);
  }

  lemma {:induction false} OneChannelNeverOverReturns(w: World, steps: seq<Step>)
    requires Inv(w) && !OverReturned(w.pool) && w.adminReturned == 0 && UsesOneChannel(steps)
    ensures NeverOverReturned(w, steps)
    ensures (forall k :: 0 <= k < |steps| ==> !steps[k].i.ReturnInsurance?) ==> Run(w, steps).adminReturned == 0
    decreases |steps|
  {
    hide Apply;
    hide Inv;
    hide OverReturned;
    if steps != [] {
      var before, s := steps[..|steps| - 1], steps[|steps| - 1];
      assert UsesOneChannel(before) by {
        assert forall k :: 0 <= k < |before| ==> before[k] == steps[k];
      }
      OneChannelNeverOverReturns(w, before);
      RunKeepsInv(w, before);
      StepNotOverReturned(Run(w, before), s);
    }
  }

  // ------------------------------------------------------------- withdrawals

  /** The tranche has a worth to pay from, the payout is not zero unless the junior position is
      worthless, the vault holds it, the high-water mark lets it go, and the lifetime counter
      has room. */
  ghost predicate PayoutAdmissible(p: Pool, junior: bool, lp: u64, epoch: u64, vault: u64) {
    && 0 <= Worth(p, junior)
    && var out := Redeem(Holding(p, junior), Worth(p, junior), lp);
    && (out > 0 || (junior && Effective(p) == 0))
    && out <= vault
    && (out > 0 ==> MarkAllows(p, epoch, out))
    && p.withdrawn + out <= U64_MAX
  }

  /** What a withdrawal is checked for, and all of it: the record, the cooldown, circulating
      shares, an open accrual, and what `PayoutAdmissible` says of its payout. No checked
      subtraction of the program can be what rejects it. */
  ghost predicate WithdrawAdmissible(w: World, user: User, lp: u64) {
    var r := RecordOf(w, user);
    && 0 < lp <= r.lp
    && w.slot >= SaturatingAdd(r.lastDepositSlot, w.pool.cooldown)
    && lp <= w.circulating
    && AccrualOpen(w)
    && PayoutAdmissible(Accrued(w), r.junior, lp, w.epoch, w.vault)
  }

  /** A burn within a tranche is priced exactly when the tranche does not owe more than it
      holds. */
  lemma PayoutDefinedIff(p: Pool, junior: bool, lp: u64)
    requires SharesConsistent(p) && FitsU64(Value(p))
    requires junior ==> p.trancheEnabled
    requires 0 < lp <= Holding(p, junior)
    ensures Payout(p, junior, lp).Some? <==> 0 <= Worth(p, junior)
    ensures 0 <= Worth(p, junior) ==>
              && Payout(p, junior, lp) == Some(Redeem(Holding(p, junior), Worth(p, junior), lp))
              && Redeem(Holding(p, junior), Worth(p, junior), lp) <= Worth(p, junior)
  {
    hide Redeem;
    if 0 <= Worth(p, junior) {
      RedeemAtMostValue(Holding(p, junior), Worth(p, junior), lp);
    }
  }

  lemma TakeOutIff(p: Pool, junior: bool, lp: u64, out: u64)
    requires SharesConsistent(p) && lp <= Holding(p, junior) && (junior ==> p.trancheEnabled && out <= Effective(p))
    requires p.realizedLoss <= p.returned
    ensures TakeOut(p, junior, lp, out).Some? <==> p.withdrawn + out <= U64_MAX
  {
  }

  /** The exact acceptance condition of a withdrawal, in every state of the invariant. */
  lemma WithdrawAcceptedIff(w: World, user: User, lp: u64)
    requires Inv(w)
    ensures ExecWithdraw(w, user, lp).Some? <==> WithdrawAdmissible(w, user, lp)
  {
    hide Accrue;
    hide Payout;
    hide HwmGate;
    hide TakeOut;
    hide Redeem;
    hide MarkAllows;
    hide AccrualOpen;
    hide Accrued;
    RecordWithinCounters(w, user);
    AccrueAcceptedIff(w);
    var r := RecordOf(w, user);
    if 0 < lp <= r.lp && AccrualOpen(w) {
      var p := Accrued(w);
      AccrueFacts(w.pool, w.vault);
      AccrueMoves(w.pool, w.vault);
      InvSharesConsistent(w);
      PayoutDefinedIff(p, r.junior, lp);
      if Payout(p, r.junior, lp).Some? && Payout(p, r.junior, lp).value <= w.vault {
        var out := Payout(p, r.junior, lp).value;
        HwmGateIff(p, w.epoch, out);
        var gate := HwmGate(p, w.epoch, out, WipedExit(p, r.junior, out));
        if gate.Some? {
          TakeOutIff(gate.value, r.junior, lp, out);
        }
      }
    }
  }

  /** In a solvent state neither the vault nor a negative worth can be what rejects a
      withdrawal: any position of either tranche can be paid. */
  lemma SolventVaultCovers(w: World, user: User, lp: u64, p: Pool)
    requires Inv(w) && Solvent(w.pool) && Accrue(w.pool, w.vault) == Some(p)
    requires lp <= RecordOf(w, user).lp
    ensures var junior := RecordOf(w, user).junior;
            && 0 <= Worth(p, junior)
            && Redeem(Holding(p, junior), Worth(p, junior), lp) <= w.vault
  {
    hide Accrue;
    hide Redeem;
    var junior := RecordOf(w, user).junior;
    AccrueFacts(w.pool, w.vault);
    AccrueMoves(w.pool, w.vault);
    InvSharesConsistent(w);
    RecordWithinCounters(w, user);
    RedeemAtMostValue(Holding(p, junior), Worth(p, junior), lp);
  }

  /** In every state of a run from a new pool whose flushes were covered, no payout of either
      tranche exceeds the vault: there the vault and the tranche's worth drop out of the
      acceptance condition. */
  lemma CoveredRunPays(init: World, steps: seq<Step>, user: User, lp: u64)
    requires Init(init) && FlushesCovered(init, steps)
    ensures var w := Run(init, steps);
            var junior := RecordOf(w, user).junior;
            AccrualOpen(w) && lp <= RecordOf(w, user).lp ==>
              && 0 <= Worth(Accrued(w), junior)
              && Redeem(Holding(Accrued(w), junior), Worth(Accrued(w), junior), lp) <= w.vault
  {
    hide AccrualOpen;
    hide Accrued;
    hide Redeem;
    hide Run;
    var w := Run(init, steps);
    InitInv(init);
    RunKeepsInv(init, steps);
    SolventIffFlushesCovered(init, steps);
    AccrueAcceptedIff(w);
    if AccrualOpen(w) && lp <= RecordOf(w, user).lp {
      SolventVaultCovers(w, user, lp, Accrued(w));
    }
  }
}
