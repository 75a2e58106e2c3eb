/** What the parts of an accepted instruction do, in flat terms. The property proofs use these
    facts instead of the instruction bodies. */
module Effects {
  import opened Numbers
  import opened ShareMath
  import opened Ledger
  import opened Instructions
  import MulDiv

  /** Accrual moves only the fees and the junior balance, gives junior no more than the fee,
      and leaves the pool worth the vault whenever there was something to accrue and a holder. */
  lemma AccrueFacts(p: Pool, balance: u64)
    requires Accrue(p, balance).Some?
    ensures var q := Accrue(p, balance).value;
            && q == p.(fees := q.fees, juniorBalance := q.juniorBalance)
            && 0 <= q.juniorBalance - p.juniorBalance <= q.fees - p.fees
            && (p.juniorLp == 0 || !p.trancheEnabled ==> q.juniorBalance == p.juniorBalance)
            && Value(q) == (if p.lpSupply > 0 && balance > Value(p) then balance else Value(p))
            && FitsU64(Value(q))
            && (balance <= Value(p) || p.lpSupply == 0 ==> q == p)
  {
    if balance > Value(p) && 0 <= Senior(p) {
      MulDiv.JuniorFeeAtMostFee(p.juniorBalance, Senior(p), p.juniorMult, balance - Value(p));
    }
  }

  /** `p` with the high-water-mark fields of `q`. */
  function Marked(p: Pool, q: Pool): Pool {
    p.(hwmMark := q.hwmMark, hwmEpoch := q.hwmEpoch)
  }

  /** An accepted withdrawal names the accrued pool it was priced on and the payout. */
  lemma WithdrawFacts(w: World, user: User, lp: u64) returns (p: Pool, out: u64)
    requires w.pool.mode <= 1
    requires ExecWithdraw(w, user, lp).Some?
    ensures var r, w' := RecordOf(w, user), ExecWithdraw(w, user, lp).value;
            && Accrue(w.pool, w.vault) == Some(p)
            && Payout(p, r.junior, lp) == Some(out)
            && 0 < lp <= r.lp && r.initialized
            && lp <= w.circulating && out <= w.vault
            && (out == 0 ==> WipedExit(p, r.junior, out))
            && Marked(p, w'.pool) == (if p.hwmEnabled && out > 0 then Refresh(p, w.epoch, Value(p)) else p)
            && TakeOut(Marked(p, w'.pool), r.junior, lp, out) == Some(w'.pool)
            && w' == w.(pool := w'.pool, records := w.records[user := Reduced(r, lp)],
                        vault := w.vault - out, circulating := w.circulating - lp)
  {
    hide Accrue;
    hide Payout;
    hide HwmWithdrawalAllowed;
    p := PreAccrue(w.pool, w.vault).value;
    out := Payout(p, RecordOf(w, user).junior, lp).value;
  }

  /** Taking a payout off the books: the value falls by exactly the payout, and a forfeit
      happens only at the last junior's exit, for exactly the loss it bore. */
  lemma TakeOutFacts(p: Pool, junior: bool, lp: u64, out: u64)
    requires TakeOut(p, junior, lp, out).Some?
    ensures var q := TakeOut(p, junior, lp, out).value;
            var fromJunior := p.trancheEnabled && junior;
            var f := if fromJunior && lp == p.juniorLp then Forfeited(p) else 0;
            && q == p.(withdrawn := p.withdrawn + out, lpSupply := p.lpSupply - lp, juniorLp := q.juniorLp,
                       juniorBalance := q.juniorBalance, returned := q.returned, realizedLoss := q.realizedLoss)
            && q.returned == p.returned + f && q.realizedLoss == p.realizedLoss + f
            && f <= NetLoss(p)
            && q.juniorLp == p.juniorLp - (if fromJunior then lp else 0)
            && q.juniorBalance == (if !fromJunior then p.juniorBalance
                                   else if q.juniorLp == 0 then 0 else p.juniorBalance - out)
            && Value(q) == Value(p) - out
  {
  }

  /** Booking a deposit, field by field. */
  lemma BookFacts(w: World, p: Pool, user: User, amount: u64, lp: u64, junior: bool)
    requires Book(w, p, user, amount, lp, junior).Some?
    ensures var r, w' := RecordOf(w, user), Book(w, p, user, amount, lp, junior).value;
            && 0 < lp && FitsU64(r.lp + lp) && (p.lpSupply == 0 ==> lp > MINIMUM_LIQUIDITY)
            && w'.pool == Marked(p.(deposited := p.deposited + amount, lpSupply := p.lpSupply + lp,
                                    juniorLp := p.juniorLp + (if junior then lp else 0),
                                    juniorBalance := p.juniorBalance + (if junior then amount else 0)), w'.pool)
            && (if junior then r.initialized ==> r.junior else !r.junior)
            && w' == w.(pool := w'.pool, records := w.records[user := Record(true, r.lp + lp, junior, w.slot)],
                        vault := w.vault + amount, circulating := w'.circulating)
            && w'.circulating == w.circulating + lp - (if p.lpSupply == 0 then MINIMUM_LIQUIDITY else 0)
            && Marked(p, w'.pool) == (if p.hwmEnabled then Refresh(p, w.epoch, Value(p) + amount) else p)
            && (p.hwmEnabled ==> FitsU64(Value(p) + amount))
  {
  }

  /** An accepted Deposit names the accrued pool it was priced on and the shares booked. */
  lemma DepositFacts(w: World, user: User, amount: u64) returns (p: Pool, lp: u64)
    requires w.pool.mode <= 1
    requires ExecDeposit(w, user, amount).Some?
    ensures Accrue(w.pool, w.vault) == Some(p)
    ensures amount > 0 && !w.pool.marketResolved
    ensures p.trancheEnabled ==> NetLoss(p) <= p.juniorBalance
    ensures PriceDeposit(p, amount) == Some(lp)
    ensures ExecDeposit(w, user, amount) == Book(w, p, user, amount, lp, false)
  {
    p := PreAccrue(w.pool, w.vault).value;
    lp := PriceDeposit(p, amount).value;
  }

  lemma DepositJuniorFacts(w: World, user: User, amount: u64) returns (p: Pool, lp: u64)
    requires w.pool.mode <= 1
    requires ExecDepositJunior(w, user, amount).Some?
    ensures Accrue(w.pool, w.vault) == Some(p)
    ensures amount > 0 && !w.pool.marketResolved && w.pool.trancheEnabled
    ensures PhysicalNetLoss(p) == 0
    ensures CalcLpForDeposit(p.juniorLp, Effective(p), amount) == Some(lp)
    ensures ExecDepositJunior(w, user, amount) == Book(w, p, user, amount, lp, true)
  {
    p := PreAccrue(w.pool, w.vault).value;
    lp := CalcLpForDeposit(p.juniorLp, Effective(p), amount).value;
  }

  /** What the two entry points have in common: accrue, price, book on the tranche entered. */
  lemma AnyDepositFacts(w: World, i: Instruction) returns (p: Pool, lp: u64)
    requires w.pool.mode <= 1
    requires (i.Deposit? || i.DepositJunior?) && Exec(w, i).Some?
    ensures Accrue(w.pool, w.vault) == Some(p)
    ensures i.amount > 0 && !w.pool.marketResolved && !OverCap(w.pool, i.amount)
    ensures i.DepositJunior? ==> w.pool.trancheEnabled
    ensures Exec(w, i) == Book(w, p, i.user, i.amount, lp, i.DepositJunior?)
  {
    hide Accrue;
    hide PriceDeposit;
    hide CalcLpForDeposit;
    hide Book;
    if i.Deposit? {
      p, lp := DepositFacts(w, i.user, i.amount);
    } else {
      p, lp := DepositJuniorFacts(w, i.user, i.amount);
    }
  }

  predicate IsConfig(i: Instruction) {
    i.SetMarketResolved? || i.SetHwmConfig? || i.SetTrancheConfig? || i.UpdateConfig?
    || i.ProposeCooldownIncrease? || i.CommitCooldownIncrease? || i.CancelCooldownIncrease?
  }

  /** Configuration never touches the counters, the shares or the junior balance. */
  lemma ConfigKeepsBooks(p: Pool, slot: u64, i: Instruction)
    requires IsConfig(i) && ExecConfig(p, slot, i).Some?
    ensures var q := ExecConfig(p, slot, i).value;
            q == p.(marketResolved := q.marketResolved, trancheEnabled := q.trancheEnabled, juniorMult := q.juniorMult,
                    hwmEnabled := q.hwmEnabled, hwmFloorBps := q.hwmFloorBps, depositCap := q.depositCap,
                    cooldown := q.cooldown, pendingCooldown := q.pendingCooldown, proposedAt := q.proposedAt)
  {
  }
}
