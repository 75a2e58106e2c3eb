/** Tranche isolation: what each accepted instruction moves in the junior and in the senior
    sub-pool, exactly. */
module Tranches {
  import opened Numbers
  import opened ShareMath
  import opened Ledger
  import opened Instructions
  import opened Effects
  import opened Invariants
  import MulDiv

  /** Worth and shares of one tranche. Without tranches everything is senior. */
  function Worth(p: Pool, junior: bool): int {
    if junior then Effective(p) else Senior(p)
  }

  function Holding(p: Pool, junior: bool): nat {
    if junior then p.juniorLp else SeniorLp(p)
  }

  /** Junior's claim is covered by the pool value: `senior_balance` is defined. */
  ghost predicate Solvent(p: Pool) {
    Effective(p) <= Value(p)
  }

  /** The part of the invariant pricing relies on. */
  ghost predicate SharesConsistent(p: Pool) {
    && p.juniorLp <= p.lpSupply
    && (p.juniorLp == 0 ==> p.juniorBalance == 0)
    && (!p.trancheEnabled ==> p.juniorLp == 0)
  }

  lemma InvSharesConsistent(w: World)
    requires Inv(w)
    ensures SharesConsistent(w.pool)
  {
    JuniorSumAtMostAll(w.records);
  }

  /** Accrual lowers neither tranche, and the whole gain lands in the two of them. */
  lemma AccrueMoves(p: Pool, balance: u64)
    requires Accrue(p, balance).Some?
    ensures var q := Accrue(p, balance).value;
            && Effective(p) <= Effective(q) && Senior(p) <= Senior(q)
            && (Effective(q) - Effective(p)) + (Senior(q) - Senior(p)) == Value(q) - Value(p)
            && (SharesConsistent(p) ==> SharesConsistent(q))
            && (Solvent(p) ==> Solvent(q))
  {
    hide Accrue;
    AccrueFacts(p, balance);
  }

  /** How the gain is split: junior's gross balance gains the largest number n with
      n * (total weight) <= gain * (junior weight), where junior weighs its gross balance times
      its multiplier and senior its worth times 10000; senior gets the rest. */
  lemma AccrueSplitsByWeight(p: Pool, balance: u64)
    requires Accrue(p, balance).Some? && p.trancheEnabled && p.juniorLp > 0
    ensures var q := Accrue(p, balance).value;
            var gain, n := Value(q) - Value(p), q.juniorBalance - p.juniorBalance;
            var jw, tw := p.juniorBalance * p.juniorMult, p.juniorBalance * p.juniorMult + Senior(p) * 10_000;
            && gain == q.fees - p.fees
            && (gain > 0 && tw > 0 ==> n * tw <= gain * jw < (n + 1) * tw)
            && (gain == 0 || tw == 0 ==> n == 0)
  {
    hide MulDiv.JuniorFee;
    AccrueFacts(p, balance);
    if balance > Value(p) && 0 <= Senior(p) {
      MulDiv.JuniorFeeExact(p.juniorBalance, Senior(p), p.juniorMult, balance - Value(p));
    }
  }

  /** A Deposit: shares are the floor of the pro-rata amount of the senior sub-pool, senior
      gains exactly the amount, junior is untouched. With tranches it is accepted only when
      senior is worth its gross claim at least. */
  lemma DepositMoves(w: World, user: User, amount: u64) returns (p: Pool, lp: u64)
    requires Inv(w) && ExecDeposit(w, user, amount).Some?
    ensures var q := ExecDeposit(w, user, amount).value.pool;
            && Accrue(w.pool, w.vault) == Some(p)
            && 0 <= Senior(p) && 0 < lp == Mint(SeniorLp(p), Senior(p), amount)
            && (SeniorLp(p) == 0 <==> Senior(p) == 0)
            && Senior(q) == Senior(p) + amount && SeniorLp(q) == SeniorLp(p) + lp
            && Effective(q) == Effective(p) && q.juniorLp == p.juniorLp
            && NetLoss(q) == NetLoss(p)
            && (p.trancheEnabled ==> NetLoss(p) <= p.juniorBalance && GrossSenior(p) <= Senior(p))
  {
    hide Accrue;
    hide ExecDeposit;
    hide Book;
    hide Mint;
    p, lp := DepositFacts(w, user, amount);
    SeniorMarkedDownIff(p);
    AccrueMoves(w.pool, w.vault);
    InvSharesConsistent(w);
    BookFacts(w, p, user, amount, lp, false);
  }

  /** A DepositJunior: accepted only with no loss outstanding; junior gains exactly the
      amount, senior is untouched. */
  lemma DepositJuniorMoves(w: World, user: User, amount: u64) returns (p: Pool, lp: u64)
    requires Inv(w) && ExecDepositJunior(w, user, amount).Some?
    ensures var q := ExecDepositJunior(w, user, amount).value.pool;
            && Accrue(w.pool, w.vault) == Some(p)
            && NetLoss(p) == NetLoss(q) == 0
            && 0 < lp == Mint(p.juniorLp, Effective(p), amount)
            && Effective(q) == Effective(p) + amount && q.juniorLp == p.juniorLp + lp
            && Senior(q) == Senior(p) && SeniorLp(q) == SeniorLp(p)
  {
    hide Accrue;
    hide ExecDepositJunior;
    hide Book;
    hide Mint;
    p, lp := DepositJuniorFacts(w, user, amount);
    AccrueMoves(w.pool, w.vault);
    InvSharesConsistent(w);
    BookFacts(w, p, user, amount, lp, true);
  }

  /** The payout of a burn within a tranche is the floor of its pro-rata share of that
      tranche, and never exceeds the tranche. */
  lemma PayoutFacts(p: Pool, junior: bool, lp: u64)
    requires SharesConsistent(p) && Payout(p, junior, lp).Some?
    requires junior ==> p.trancheEnabled
    requires lp <= Holding(p, junior)
    ensures var out := Payout(p, junior, lp).value;
            0 <= Worth(p, junior) && out == Redeem(Holding(p, junior), Worth(p, junior), lp) <= Worth(p, junior)
  {
    hide Redeem;
  }

  /** Taking `lp` shares and `out` collateral out of one tranche. */
  lemma TakeOutMoves(p: Pool, junior: bool, lp: u64, out: u64)
    requires TakeOut(p, junior, lp, out).Some? && SharesConsistent(p)
    requires junior ==> p.trancheEnabled
    requires lp <= Holding(p, junior) && out <= Worth(p, junior)
    ensures var q := TakeOut(p, junior, lp, out).value;
            && Value(q) == Value(p) - out
            && Holding(q, junior) == Holding(p, junior) - lp && Holding(q, !junior) == Holding(p, !junior)
            && (if junior && q.juniorLp == 0
                then Effective(q) == 0 && Senior(q) == Senior(p) + (Effective(p) - out)
                else Worth(q, junior) == Worth(p, junior) - out && Worth(q, !junior) == Worth(p, !junior))
  {
    hide TakeOut;
    TakeOutFacts(p, junior, lp, out);
  }

  /** A Withdraw: the holder's tranche loses exactly the payout and the shares, the other
      tranche is untouched; only the last junior's rounding remainder passes to senior. */
  lemma WithdrawMoves(w: World, user: User, lp: u64) returns (p: Pool, out: u64)
    requires Inv(w) && ExecWithdraw(w, user, lp).Some?
    ensures var q, junior := ExecWithdraw(w, user, lp).value.pool, RecordOf(w, user).junior;
            && Accrue(w.pool, w.vault) == Some(p)
            && lp <= Holding(p, junior) && 0 <= Worth(p, junior)
            && out == Redeem(Holding(p, junior), Worth(p, junior), lp) <= Worth(p, junior)
            && Value(q) == Value(p) - out
            && Holding(q, junior) == Holding(p, junior) - lp && Holding(q, !junior) == Holding(p, !junior)
            && (if junior && q.juniorLp == 0
                then Effective(q) == 0 && Senior(q) == Senior(p) + (Effective(p) - out)
                else Worth(q, junior) == Worth(p, junior) - out && Worth(q, !junior) == Worth(p, !junior))
            && ExecWithdraw(w, user, lp).value.vault == w.vault - out
  {
    hide Accrue;
    hide ExecWithdraw;
    hide Payout;
    hide TakeOut;
    hide Redeem;
    p, out := WithdrawFacts(w, user, lp);
    AccrueFacts(w.pool, w.vault);
    AccrueMoves(w.pool, w.vault);
    InvSharesConsistent(w);
    RecordWithinCounters(w, user);
    PayoutFacts(p, RecordOf(w, user).junior, lp);
    var marked := Marked(p, ExecWithdraw(w, user, lp).value.pool);
    assert SharesConsistent(marked);
    TakeOutMoves(marked, RecordOf(w, user).junior, lp, out);
  }

  // --------------------------------------------------------------- deposit cap

  /** The cap is on principal: an accepted deposit by either entry point leaves the pool value
      without fees within it, however large the fees, including any accrued on the way. */
  lemma DepositRespectsCap(w: World, i: Instruction)
    requires Inv(w) && Exec(w, i).Some? && (i.Deposit? || i.DepositJunior?)
    ensures var p, q := w.pool, Exec(w, i).value.pool;
            && Value(q) - q.fees == Value(p) - p.fees + i.amount
            && (p.depositCap > 0 ==> Value(q) - q.fees <= p.depositCap)
  {
    hide Accrue;
    hide Book;
    hide PriceDeposit;
    hide CalcLpForDeposit;
    var p, lp := AnyDepositFacts(w, i);
    AccrueFacts(w.pool, w.vault);
    BookFacts(w, p, i.user, i.amount, lp, i.DepositJunior?);
  }

  // ------------------------------------------------------------ loss waterfall

  ghost predicate SameButInsurance(p: Pool, q: Pool) {
    q == p.(flushed := q.flushed, returned := q.returned, recovered := q.recovered, hwmMark := q.hwmMark)
  }

  /** A loss is taken from the surplus first, then from junior, then from senior. The surplus
      is senior's. */
  lemma LossAdded(p: Pool, q: Pool, a: nat)
    requires SameButInsurance(p, q) && q.flushed == p.flushed + a && q.returned == p.returned
    ensures var rest := Monus(a, Surplus(p));
            && Effective(q) == Monus(Effective(p), rest)
            && Senior(q) == Senior(p) - Min(a, Surplus(p)) - Monus(rest, Effective(p))
  {
  }

  /** A repayment goes to senior's spill first, then to junior up to its gross balance, then
      to senior as surplus. */
  lemma LossRestored(p: Pool, q: Pool, a: nat)
    requires SameButInsurance(p, q) && q.flushed == p.flushed && q.returned == p.returned + a
    ensures Senior(q) == Senior(p) + Min(a, Spill(p)) + Monus(a, NetLoss(p))
    ensures Effective(q) == Effective(p) + (Min(a, NetLoss(p)) - Min(a, Spill(p)))
  {
  }

  /** Every accepted flush, return and recovery, from every state. A flush eats what was
      returned in excess, then junior, and reaches senior's own claim only with what junior
      cannot bear; a return or recovery restores senior's spill first, junior next, and gives
      senior what is left. A return never leaves anything over. */
  lemma LossWaterfall(w: World, s: Step)
    requires Succeeds(w, s)
    requires s.i.FlushToInsurance? || s.i.ReturnInsurance? || s.i.RecoverFlushedInsurance?
    ensures var p, q, a := w.pool, Apply(w, s).pool, s.i.amount;
            if s.i.FlushToInsurance?
            then
              var rest := Monus(a, Surplus(p));
              && Effective(q) == Monus(Effective(p), rest)
              && Senior(q) == Senior(p) - Min(a, Surplus(p)) - Monus(rest, Effective(p))
            else
              && Senior(q) == Senior(p) + Min(a, Spill(p)) + Monus(a, NetLoss(p))
              && Effective(q) == Effective(p) + (Min(a, NetLoss(p)) - Min(a, Spill(p)))
              && (s.i.ReturnInsurance? ==> Monus(a, NetLoss(p)) == 0)
  {
    hide Effective;
    hide Senior;
    hide Spill;
    hide Surplus;
    var p, q := w.pool, Apply(w, s).pool;
    if s.i.FlushToInsurance? {
      assert q.flushed == p.flushed + s.i.amount && q.returned == p.returned;
      LossAdded(p, q, s.i.amount);
    } else {
      assert q.flushed == p.flushed && q.returned == p.returned + s.i.amount;
      LossRestored(p, q, s.i.amount);
    }
  }

  /** Flushing an amount and returning all of it gives both tranches exactly what they had. */
  lemma FlushThenReturnRestores(w: World, amount: u64)
    requires ExecFlush(w, amount).Some?
    requires ExecReturn(ExecFlush(w, amount).value, amount).Some?
    ensures var e := ExecReturn(ExecFlush(w, amount).value, amount).value;
            Effective(e.pool) == Effective(w.pool) && Senior(e.pool) == Senior(w.pool) && e.vault == w.vault
  {
  }
}
