/** Exactly when each instruction that moves tokens is accepted, on the counters, in every state of
    the invariant, and what it then leaves. Conditions of the program that the invariant already
    settles do not appear. Withdrawals are in `Solvency`. */
module Acceptance {
  import opened Numbers
  import opened ShareMath
  import opened Ledger
  import opened Instructions
  import opened Effects
  import opened Invariants
  import opened Tranches
  import opened Accrual

  // ------------------------------------------------------------------ accrual

  /** AccrueFees is accepted exactly when accrual is open, and books every outside transfer: with
      holders, the pool is then worth the vault. */
  lemma AccrueFeesAcceptedIff(w: World)
    requires Inv(w)
    ensures Exec(w, AccrueFees).Some? <==> AccrualOpen(w)
    ensures AccrualOpen(w) ==>
              && Exec(w, AccrueFees) == Some(w.(pool := Accrued(w)))
              && (w.pool.lpSupply > 0 ==> Value(Accrued(w)) == w.vault && Accrued(w).fees == w.sentIn)
  {
    hide Accrue;
    hide LpSum;
    AccrueAcceptedIff(w);
    if AccrualOpen(w) {
      AccrueFacts(w.pool, w.vault);
    }
  }

  // ----------------------------------------------------------------- deposits

  /** The pool is open to the amount: not resolved, and the value without fees stays within a
      positive cap (the whole amount does, where that value is negative). */
  ghost predicate OpenTo(p: Pool, amount: u64) {
    && amount > 0 && !p.marketResolved
    && (p.depositCap > 0 ==> amount <= p.depositCap && Value(p) - p.fees + amount <= p.depositCap)
  }

  /** The shares are worth booking, the counters have room, and the record is not in use by the
      other tranche. */
  ghost predicate Bookable(w: World, p: Pool, user: User, amount: u64, lp: nat, junior: bool) {
    && lp > (if p.lpSupply == 0 then MINIMUM_LIQUIDITY else 0)
    && p.deposited + amount <= U64_MAX && p.lpSupply + lp <= U64_MAX && w.vault + amount <= U64_MAX
    && (junior ==> p.juniorBalance + amount <= U64_MAX)
    && (RecordOf(w, user).initialized ==> RecordOf(w, user).junior == junior)
  }

  ghost predicate DepositAdmissible(w: World, user: User, amount: u64) {
    && OpenTo(w.pool, amount)
    && AccrualOpen(w)
    && var p := Accrued(w);
    && (p.trancheEnabled ==> NetLoss(p) <= p.juniorBalance)
    && 0 <= Senior(p) && (SeniorLp(p) == 0 <==> Senior(p) == 0)
    && Bookable(w, p, user, amount, Mint(SeniorLp(p), Senior(p), amount), false)
  }

  ghost predicate DepositJuniorAdmissible(w: World, user: User, amount: u64) {
    && OpenTo(w.pool, amount) && w.pool.trancheEnabled
    && AccrualOpen(w)
    && var p := Accrued(w);
    && p.flushed <= p.recovered + w.adminReturned
    && (p.juniorLp == 0 <==> Effective(p) == 0)
    && Bookable(w, p, user, amount, Mint(p.juniorLp, Effective(p), amount), true)
  }

  lemma OverCapIff(p: Pool, amount: u64)
    requires FitsU64(Value(p))
    ensures amount > 0 && !p.marketResolved && !OverCap(p, amount) <==> OpenTo(p, amount)
  {
  }

  /** A record is refused exactly when the other tranche uses it. */
  lemma EnrolledIff(r: Record, slot: u64, lp: u64, junior: bool)
    requires RecordWellFormed(r)
    ensures Enrolled(r, slot, lp, junior).Some? <==>
              (r.initialized ==> r.junior == junior) && r.lp + lp <= U64_MAX
    ensures Enrolled(r, slot, lp, junior).Some? ==>
              Enrolled(r, slot, lp, junior).value == Record(true, r.lp + lp, junior, slot)
  {
  }

  /** Neither the LP mint, nor the junior share counter, nor the record's own counter, nor the
      refresh of the mark can be what rejects a deposit. */
  lemma BookedIff(w: World, p: Pool, user: User, amount: u64, lp: u64, junior: bool)
    requires Inv(w) && Accrue(w.pool, w.vault) == Some(p)
    ensures Book(w, p, user, amount, lp, junior).Some? <==> Bookable(w, p, user, amount, lp, junior)
  {
    hide Accrue;
    hide LpSum;
    hide Enrolled;
    AccrueFacts(w.pool, w.vault);
    RecordWithinCounters(w, user);
    EnrolledIff(RecordOf(w, user), w.slot, lp, junior);
  }

  lemma PricedIff(p: Pool, amount: u64)
    requires SharesConsistent(p) && FitsU64(Value(p))
    ensures var lp := Mint(SeniorLp(p), if Senior(p) < 0 then 0 else Senior(p), amount);
            && (PriceDeposit(p, amount).Some? <==>
                  0 <= Senior(p) && (SeniorLp(p) == 0 <==> Senior(p) == 0) && lp <= U64_MAX)
            && (PriceDeposit(p, amount).Some? ==> PriceDeposit(p, amount).value == lp)
  {
    hide Mint;
  }

  lemma UnpricedNotBookable(w: World, p: Pool, user: User, amount: u64, lp: nat, junior: bool)
    ensures lp > U64_MAX ==> !Bookable(w, p, user, amount, lp, junior)
  {
  }

  /** The exact acceptance condition of a Deposit. */
  lemma DepositAcceptedIff(w: World, user: User, amount: u64)
    requires Inv(w)
    ensures ExecDeposit(w, user, amount).Some? <==> DepositAdmissible(w, user, amount)
  {
    hide Accrue;
    hide AccrualOpen;
    hide Accrued;
    hide Book;
    hide Bookable;
    hide PriceDeposit;
    hide Mint;
    hide OverCap;
    hide OpenTo;
    OverCapIff(w.pool, amount);
    AccrueAcceptedIff(w);
    if AccrualOpen(w) {
      var p := Accrued(w);
      AccrueFacts(w.pool, w.vault);
      AccrueMoves(w.pool, w.vault);
      InvSharesConsistent(w);
      PricedIff(p, amount);
      if PriceDeposit(p, amount).Some? {
        BookedIff(w, p, user, amount, PriceDeposit(p, amount).value, false);
      } else if 0 <= Senior(p) {
        UnpricedNotBookable(w, p, user, amount, Mint(SeniorLp(p), Senior(p), amount), false);
      }
    }
  }

  lemma GateOpenIff(w: World, p: Pool)
    requires Inv(w)
    requires p.flushed == w.pool.flushed && p.returned == w.pool.returned
    requires p.recovered == w.pool.recovered && p.realizedLoss == w.pool.realizedLoss
    ensures PhysicalNetLoss(p) == 0 <==> p.flushed <= p.recovered + w.adminReturned
  {
  }

  /** The exact acceptance condition of a DepositJunior. */
  lemma DepositJuniorAcceptedIff(w: World, user: User, amount: u64)
    requires Inv(w)
    ensures ExecDepositJunior(w, user, amount).Some? <==> DepositJuniorAdmissible(w, user, amount)
  {
    hide Accrue;
    hide AccrualOpen;
    hide Accrued;
    hide Book;
    hide Bookable;
    hide CalcLpForDeposit;
    hide Mint;
    hide OverCap;
    hide OpenTo;
    OverCapIff(w.pool, amount);
    AccrueAcceptedIff(w);
    if AccrualOpen(w) {
      var p := Accrued(w);
      AccrueFacts(w.pool, w.vault);
      GateOpenIff(w, p);
      var lp := CalcLpForDeposit(p.juniorLp, Effective(p), amount);
      if lp.Some? {
        BookedIff(w, p, user, amount, lp.value, true);
      } else {
        UnpricedNotBookable(w, p, user, amount, Mint(p.juniorLp, Effective(p), amount), true);
      }
    }
  }

  // ---------------------------------------------------------------- insurance

  /** A flush of at most the pool value is always in the vault; it moves the flushed counter, the
      mark and the vault, each by exactly its amount. */
  lemma FlushAcceptedIff(w: World, amount: u64)
    requires Inv(w)
    ensures ExecFlush(w, amount).Some? <==>
              && 0 < amount <= Value(w.pool) && w.pool.mode == 0 && !w.pool.marketResolved
              && w.pool.flushed + amount <= U64_MAX
    ensures ExecFlush(w, amount).Some? ==>
              var w' := ExecFlush(w, amount).value;
              && w' == w.(pool := w.pool.(flushed := w'.pool.flushed, hwmMark := w'.pool.hwmMark), vault := w'.vault)
              && w'.pool.flushed - w.pool.flushed == w.vault - w'.vault == Value(w.pool) - Value(w'.pool) == amount
              && w'.pool.hwmMark == Monus(w.pool.hwmMark, amount)
  {
    hide LpSum;
  }

  /** Any part of the net loss can be returned, by the admin, in any mode and state of the market;
      only the vault's own width limits it. */
  lemma ReturnAcceptedIff(w: World, amount: u64)
    requires Inv(w)
    ensures ExecReturn(w, amount).Some? <==>
              0 < amount && w.pool.returned + amount <= w.pool.flushed && w.vault + amount <= U64_MAX
    ensures ExecReturn(w, amount).Some? ==>
              var w' := ExecReturn(w, amount).value;
              && w' == w.(pool := w.pool.(returned := w'.pool.returned),
                          vault := w'.vault, adminReturned := w'.adminReturned)
              && w'.pool.returned - w.pool.returned == w'.adminReturned - w.adminReturned
                 == w'.vault - w.vault == Value(w'.pool) - Value(w.pool) == amount
  {
    hide LpSum;
  }

  /** Any part of what the wrapper still owes can be recovered. */
  lemma RecoverAcceptedIff(w: World, amount: u64)
    requires Inv(w)
    ensures ExecRecover(w, amount).Some? <==>
              && 0 < amount && w.pool.mode == 0
              && w.pool.recovered + w.pool.realizedLoss + amount <= w.pool.flushed
              && w.pool.returned + amount <= U64_MAX && w.vault + amount <= U64_MAX
    ensures ExecRecover(w, amount).Some? ==>
              var w' := ExecRecover(w, amount).value;
              && w' == w.(pool := w.pool.(returned := w'.pool.returned, recovered := w'.pool.recovered),
                          vault := w'.vault)
              && w'.pool.recovered - w.pool.recovered == w'.pool.returned - w.pool.returned
                 == w'.vault - w.vault == Value(w'.pool) - Value(w.pool) == amount
  {
    hide LpSum;
  }

  // ------------------------------------------------------- outside the program

  /** Anyone can send tokens to the vault and burn LP they hold, and time only goes forward. */
  lemma OutsideStepsIff(w: World, amount: u64, slot: u64, epoch: u64)
    requires Inv(w)
    ensures Exec(w, TransferToVault(amount)).Some? <==> w.vault + amount <= U64_MAX
    ensures Exec(w, BurnLp(amount)).Some? <==> amount <= w.circulating
    ensures Exec(w, AdvanceClock(slot, epoch)).Some? <==> w.slot <= slot && w.epoch <= epoch
    ensures Exec(w, AdvanceClock(slot, epoch)).Some? ==>
              Exec(w, AdvanceClock(slot, epoch)).value == w.(slot := slot, epoch := epoch)
  {
    hide LpSum;
  }
}
