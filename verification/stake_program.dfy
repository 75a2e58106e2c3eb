/** The handlers of src/processor.rs as they are written: guards, field-by-field updates of the
    pool account and the user's record, token movements in between. A handler that returns
    false may leave its updates half done; `Execute` is the runtime that discards them. */
module StakeProgram {
  import opened Numbers
  import opened ShareMath
  import opened MulDiv
  import opened Ledger
  import opened Instructions
  import Effects

  class Accounts {
    var pool: Pool   // data of the pool account
    // deposit records, token accounts, clock
    var records: map<User, Record>
    var vault: u64
    var circulating: u64
    var slot: u64
    var epoch: u64
    // tallies of the surroundings, read by no handler
    var burned: nat
    var adminReturned: nat
    var sentIn: nat

    function State(): World
      reads this
    {
      World(pool, records, vault, circulating, burned, adminReturned, sentIn, slot, epoch)
    }

    // ----------------------------------------------------------- token calls

    /** A transfer into the vault: exactly `amount`, or refused. */
    method TransferIn(amount: u64) returns (ok: bool)
      modifies `vault
      ensures ok <==> FitsU64(old(vault) + amount)
      ensures vault == if ok then old(vault) + amount else old(vault)
    {
      ok := FitsU64(vault + amount);
      if ok {
        vault := vault + amount;
      }
    }

    method TransferOut(amount: u64) returns (ok: bool)
      modifies `vault
      ensures ok <==> amount <= old(vault)
      ensures vault == if ok then old(vault) - amount else old(vault)
    {
      ok := amount <= vault;
      if ok {
        vault := vault - amount;
      }
    }

    method MintTo(amount: u64) returns (ok: bool)
      modifies `circulating
      ensures ok <==> FitsU64(old(circulating) + amount)
      ensures circulating == if ok then old(circulating) + amount else old(circulating)
    {
      ok := FitsU64(circulating + amount);
      if ok {
        circulating := circulating + amount;
      }
    }

    method Burn(amount: u64) returns (ok: bool)
      modifies `circulating
      ensures ok <==> amount <= old(circulating)
      ensures circulating == if ok then old(circulating) - amount else old(circulating)
    {
      ok := amount <= circulating;
      if ok {
        circulating := circulating - amount;
      }
    }

    // ------------------------------------------------------ fees and the mark

    /** Snapshot both tranches before the fee counter moves, then split the surplus. */
    method AccrueFeesInner(currentBalance: u64) returns (ok: bool)
      modifies `pool
      ensures ok <==> Accrue(old(pool), currentBalance).Some?
      ensures ok ==> pool == Accrue(old(pool), currentBalance).value
    {
      var poolValue := TotalPoolValue(pool);
      if poolValue.None? {
        return false;
      }
      if currentBalance > poolValue.value && pool.lpSupply > 0 {
        var feeDelta: u64 := currentBalance - poolValue.value;
        var toJunior := pool.trancheEnabled && pool.juniorLp > 0;
        var snapshotJunior: u64, snapshotSenior: u64 := 0, 0;
        if toJunior {
          var senior := SeniorBalance(pool);
          if senior.None? {
            return false;
          }
          snapshotJunior, snapshotSenior := pool.juniorBalance, senior.value;
        }
        var newFees := CheckedAdd(pool.fees, feeDelta);
        if newFees.None? {
          return false;
        }
        pool := pool.(fees := newFees.value);
        if toJunior {
          var juniorFee, _ := DistributeFees(snapshotJunior, snapshotSenior, pool.juniorMult, feeDelta);
          var newBalance := CheckedAdd(pool.juniorBalance, juniorFee);
          if newBalance.None? {
            return false;
          }
          pool := pool.(juniorBalance := newBalance.value);
          var value := TotalPoolValue(pool);
          if value.None? || pool.juniorBalance > value.value {
            return false;
          }
        }
      }
      ok := true;
    }

    method PreAccrueFeeModes() returns (ok: bool)
      modifies `pool
      ensures ok <==> PreAccrue(old(pool), vault).Some?
      ensures ok ==> pool == PreAccrue(old(pool), vault).value
    {
      ok := true;
      if pool.mode <= 1 {
        ok := AccrueFeesInner(vault);
      }
    }

    method RefreshHwm(tvl: u64) returns (mark: u64)
      modifies `pool
      ensures pool == Refresh(old(pool), epoch, tvl)
      ensures mark == pool.hwmMark
    {
      if epoch != pool.hwmEpoch {
        pool := pool.(hwmMark := tvl);
        pool := pool.(hwmEpoch := epoch);
      } else if tvl > pool.hwmMark {
        pool := pool.(hwmMark := tvl);
      }
      mark := pool.hwmMark;
    }

    // -------------------------------------------------------------- deposits

    method DepositWithinCap(amount: u64) returns (ok: bool)
      ensures ok <==> !OverCap(pool, amount)
    {
      if pool.depositCap > 0 {
        var newValue := CheckedAdd(Principal(pool), amount);
        if newValue.None? || newValue.value > pool.depositCap {
          return false;
        }
      }
      ok := true;
    }

    static method ApplyMinimumLiquidityLock(supplyBefore: u64, lp: u64) returns (mintAmount: Option<u64>)
      ensures mintAmount == Minted(supplyBefore, lp)
    {
      if supplyBefore != 0 {
        return Some(lp);
      }
      mintAmount := CheckedSub(lp, MINIMUM_LIQUIDITY);
      if mintAmount.Some? && mintAmount.value == 0 {
        return None;
      }
    }

    method CreditPool(amount: u64, lpToMint: u64, junior: bool) returns (ok: bool)
      modifies `pool
      ensures ok <==> Credit(old(pool), epoch, amount, lpToMint, junior).Some?
      ensures ok ==> pool == Credit(old(pool), epoch, amount, lpToMint, junior).value
    {
      var newDeposited := CheckedAdd(pool.deposited, amount);
      if newDeposited.None? {
        return false;
      }
      pool := pool.(deposited := newDeposited.value);
      var newSupply := CheckedAdd(pool.lpSupply, lpToMint);
      if newSupply.None? {
        return false;
      }
      pool := pool.(lpSupply := newSupply.value);
      if junior {
        var newJuniorLp := CheckedAdd(pool.juniorLp, lpToMint);
        if newJuniorLp.None? {
          return false;
        }
        pool := pool.(juniorLp := newJuniorLp.value);
        var newBalance := CheckedAdd(pool.juniorBalance, amount);
        if newBalance.None? {
          return false;
        }
        pool := pool.(juniorBalance := newBalance.value);
      }
      if pool.hwmEnabled {
        var tvl := TotalPoolValue(pool);
        if tvl.None? {
          return false;
        }
        var _ := RefreshHwm(tvl.value);
      }
      ok := true;
    }

    /** Re-initializes a reset record, refuses one that belongs to the other tranche, and
        restarts the cooldown of the whole position. */
    method EnrollRecord(user: User, lpToMint: u64, junior: bool) returns (ok: bool)
      modifies `records
      ensures ok <==> Enrolled(RecordOf(old(State()), user), slot, lpToMint, junior).Some?
      ensures ok ==> records == old(records)[user := Enrolled(RecordOf(old(State()), user), slot, lpToMint, junior).value]
    {
      var deposit := if user in records then records[user] else NO_RECORD;
      if junior {
        if !deposit.junior && deposit.initialized {
          return false;
        }
        deposit := deposit.(junior := true);
      } else if deposit.junior {
        return false;
      }
      deposit := deposit.(initialized := true, lastDepositSlot := slot);
      var newLp := CheckedAdd(deposit.lp, lpToMint);
      if newLp.None? {
        return false;
      }
      deposit := deposit.(lp := newLp.value);
      records := records[user := deposit];
      ok := true;
    }

    /** The tail shared by both deposit handlers once the shares are priced. */
    method BookDeposit(user: User, amount: u64, lpToMint: u64, junior: bool) returns (ok: bool)
      modifies this
      ensures ok <==> Book(old(State()), old(pool), user, amount, lpToMint, junior).Some?
      ensures ok ==> State() == Book(old(State()), old(pool), user, amount, lpToMint, junior).value
    {
      hide Credit;
      hide Enrolled;
      hide Minted;
      if lpToMint == 0 {
        return false;
      }
      var mintAmount := ApplyMinimumLiquidityLock(pool.lpSupply, lpToMint);
      if mintAmount.None? {
        return false;
      }
      var moved := TransferIn(amount);
      if !moved {
        return false;
      }
      var minted := MintTo(mintAmount.value);
      if !minted {
        return false;
      }
      var credited := CreditPool(amount, lpToMint, junior);
      if !credited {
        return false;
      }
      ok := EnrollRecord(user, lpToMint, junior);
    }

    method PriceSeniorOrGlobal(amount: u64) returns (lp: Option<u64>)
      ensures lp == PriceDeposit(pool, amount)
    {
      if pool.trancheEnabled {
        var senior := SeniorBalance(pool);
        if senior.None? {
          return None;
        }
        lp := CalcLpForDeposit(SeniorTotalLp(pool), senior.value, amount);
      } else {
        var value := TotalPoolValue(pool);
        if value.None? {
          return None;
        }
        lp := CalcLpForDeposit(pool.lpSupply, value.value, amount);
      }
    }

    method ProcessDeposit(user: User, amount: u64) returns (ok: bool)
      modifies this
      ensures ok <==> ExecDeposit(old(State()), user, amount).Some?
      ensures ok ==> State() == ExecDeposit(old(State()), user, amount).value
    {
      hide Accrue;
      hide PriceDeposit;
      hide Credit;
      hide Enrolled;
      hide Minted;
      if amount == 0 || pool.marketResolved {
        return false;
      }
      var within := DepositWithinCap(amount);
      if !within {
        return false;
      }
      var accrued := PreAccrueFeeModes();
      if !accrued {
        return false;
      }
      if pool.trancheEnabled {
        var netLoss := SaturatingSub(pool.flushed, pool.returned);
        if netLoss > pool.juniorBalance {
          return false;
        }
      }
      var lpToMint := PriceSeniorOrGlobal(amount);
      if lpToMint.None? {
        return false;
      }
      ok := BookDeposit(user, amount, lpToMint.value, false);
    }

    method ProcessDepositJunior(user: User, amount: u64) returns (ok: bool)
      modifies this
      ensures ok <==> ExecDepositJunior(old(State()), user, amount).Some?
      ensures ok ==> State() == ExecDepositJunior(old(State()), user, amount).value
    {
      hide Accrue;
      hide Mint;
      hide Credit;
      hide Enrolled;
      hide Minted;
      if amount == 0 || !pool.trancheEnabled || pool.marketResolved {
        return false;
      }
      var within := DepositWithinCap(amount);
      if !within {
        return false;
      }
      var accrued := PreAccrueFeeModes();
      if !accrued {
        return false;
      }
      if PhysicalNetLoss(pool) > 0 {
        return false;
      }
      var lpToMint := CalcLpForDeposit(pool.juniorLp, EffectiveJuniorBalance(pool), amount);
      if lpToMint.None? {
        return false;
      }
      ok := BookDeposit(user, amount, lpToMint.value, true);
    }

    // ------------------------------------------------------------ withdrawal

    method ValueBurn(junior: bool, lp: u64) returns (out: Option<u64>)
      ensures out == Payout(pool, junior, lp)
    {
      if pool.trancheEnabled && junior {
        out := CalcCollateralForWithdraw(pool.juniorLp, EffectiveJuniorBalance(pool), lp);
      } else if pool.trancheEnabled {
        var senior := SeniorBalance(pool);
        if senior.None? {
          return None;
        }
        out := CalcCollateralForWithdraw(SeniorTotalLp(pool), senior.value, lp);
      } else {
        var value := TotalPoolValue(pool);
        if value.None? {
          return None;
        }
        out := CalcCollateralForWithdraw(pool.lpSupply, value.value, lp);
      }
    }

    method EnforceHwm(out: u64, wiped: bool) returns (ok: bool)
      modifies `pool
      ensures ok <==> HwmGate(old(pool), epoch, out, wiped).Some?
      ensures ok ==> pool == HwmGate(old(pool), epoch, out, wiped).value
    {
      if pool.hwmEnabled && !wiped {
        var tvl := TotalPoolValue(pool);
        if tvl.None? {
          return false;
        }
        var mark := RefreshHwm(tvl.value);
        var postTvl := CheckedSub(tvl.value, out);
        if postTvl.None? || !HwmWithdrawalAllowed(postTvl.value, mark, pool.hwmFloorBps) {
          return false;
        }
      }
      ok := true;
    }

    /** The forfeit is computed before the junior balance is zeroed, and booked on both sides. */
    method ForfeitAndCloseJunior() returns (ok: bool)
      modifies `pool
      ensures var p := old(pool);
              && (ok <==> FitsU64(p.returned + Forfeited(p)) && FitsU64(p.realizedLoss + Forfeited(p)))
              && (ok ==> pool == p.(juniorBalance := 0, returned := p.returned + Forfeited(p),
                                      realizedLoss := p.realizedLoss + Forfeited(p)))
    {
      var netLoss := SaturatingSub(pool.flushed, pool.returned);
      if netLoss > 0 {
        var forfeited: u64 := Min(SaturatingSub(pool.juniorBalance, EffectiveJuniorBalance(pool)), netLoss);
        if forfeited > 0 {
          var newReturned := CheckedAdd(pool.returned, forfeited);
          if newReturned.None? {
            return false;
          }
          pool := pool.(returned := newReturned.value);
          var newRealized := CheckedAdd(pool.realizedLoss, forfeited);
          if newRealized.None? {
            return false;
          }
          pool := pool.(realizedLoss := newRealized.value);
        }
      }
      pool := pool.(juniorBalance := 0);
      ok := true;
    }

    method DebitPool(junior: bool, lp: u64, out: u64) returns (ok: bool)
      modifies `pool
      ensures ok <==> TakeOut(old(pool), junior, lp, out).Some?
      ensures ok ==> pool == TakeOut(old(pool), junior, lp, out).value
    {
      var newWithdrawn := CheckedAdd(pool.withdrawn, out);
      if newWithdrawn.None? {
        return false;
      }
      pool := pool.(withdrawn := newWithdrawn.value);
      var newSupply := CheckedSub(pool.lpSupply, lp);
      if newSupply.None? {
        return false;
      }
      pool := pool.(lpSupply := newSupply.value);
      if pool.trancheEnabled && junior {
        var newJuniorLp := CheckedSub(pool.juniorLp, lp);
        if newJuniorLp.None? {
          return false;
        }
        pool := pool.(juniorLp := newJuniorLp.value);
        if pool.juniorLp == 0 {
          var closed := ForfeitAndCloseJunior();
          if !closed {
            return false;
          }
        } else {
          var newBalance := CheckedSub(pool.juniorBalance, out);
          if newBalance.None? {
            return false;
          }
          pool := pool.(juniorBalance := newBalance.value);
        }
      }
      ok := true;
    }

    method ProcessWithdraw(user: User, lp: u64) returns (ok: bool)
      modifies this
      ensures ok <==> ExecWithdraw(old(State()), user, lp).Some?
      ensures ok ==> State() == ExecWithdraw(old(State()), user, lp).value
    {
      hide Accrue;
      hide Payout;
      hide HwmGate;
      hide TakeOut;
      if lp == 0 || user !in records {
        return false;
      }
      var deposit := records[user];
      if !deposit.initialized || slot < SaturatingAdd(deposit.lastDepositSlot, pool.cooldown) || lp > deposit.lp {
        return false;
      }
      var accrued := PreAccrueFeeModes();
      if !accrued {
        return false;
      }
      var out := ValueBurn(deposit.junior, lp);
      if out.None? {
        return false;
      }
      var wiped := pool.trancheEnabled && deposit.junior && EffectiveJuniorBalance(pool) == 0 && out.value == 0;
      if out.value == 0 && !wiped {
        return false;
      }
      var allowed := EnforceHwm(out.value, wiped);
      if !allowed {
        return false;
      }
      var burnt := Burn(lp);
      if !burnt {
        return false;
      }
      if out.value > 0 {
        var paid := TransferOut(out.value);
        if !paid {
          return false;
        }
      }
      var debited := DebitPool(deposit.junior, lp, out.value);
      if !debited {
        return false;
      }
      deposit := deposit.(lp := deposit.lp - lp);
      if deposit.lp == 0 {
        deposit := deposit.(initialized := false, junior := false);
      }
      records := records[user := deposit];
      ok := true;
    }

    // ------------------------------------------------------- insurance moves

    method ProcessFlushToInsurance(amount: u64) returns (ok: bool)
      modifies `pool, `vault
      ensures ok <==> ExecFlush(old(State()), amount).Some?
      ensures ok ==> State() == ExecFlush(old(State()), amount).value
    {
      if amount == 0 || pool.mode != 0 || pool.marketResolved {
        return false;
      }
      var available := TotalPoolValue(pool);
      if available.None? || amount > available.value {
        return false;
      }
      var moved := TransferOut(amount);
      if !moved {
        return false;
      }
      var newFlushed := CheckedAdd(pool.flushed, amount);
      if newFlushed.None? {
        return false;
      }
      pool := pool.(flushed := newFlushed.value);
      pool := pool.(hwmMark := SaturatingSub(pool.hwmMark, amount));
      ok := true;
    }

    method ProcessReturnInsurance(amount: u64) returns (ok: bool)
      modifies `pool, `vault, `adminReturned
      ensures ok <==> ExecReturn(old(State()), amount).Some?
      ensures ok ==> State() == ExecReturn(old(State()), amount).value
    {
      var outstanding := SaturatingSub(pool.flushed, pool.returned);
      if amount == 0 || amount > outstanding {
        return false;
      }
      var moved := TransferIn(amount);
      if !moved {
        return false;
      }
      var newReturned := CheckedAdd(pool.returned, amount);
      if newReturned.None? {
        return false;
      }
      pool := pool.(returned := newReturned.value);
      adminReturned := adminReturned + amount;
      ok := true;
    }

    method ProcessRecoverFlushedInsurance(amount: u64) returns (ok: bool)
      modifies `pool, `vault
      ensures ok <==> ExecRecover(old(State()), amount).Some?
      ensures ok ==> State() == ExecRecover(old(State()), amount).value
    {
      var outstanding := WrapperRecoverable(pool);
      if pool.mode != 0 || amount == 0 || outstanding == 0 || amount > outstanding {
        return false;
      }
      var moved := TransferIn(amount);
      if !moved {
        return false;
      }
      var newReturned := CheckedAdd(pool.returned, amount);
      if newReturned.None? {
        return false;
      }
      pool := pool.(returned := newReturned.value);
      var newRecovered := CheckedAdd(pool.recovered, amount);
      if newRecovered.None? {
        return false;
      }
      pool := pool.(recovered := newRecovered.value);
      ok := true;
    }

    method ProcessAccrueFees() returns (ok: bool)
      modifies `pool
      ensures ok <==> ExecAccrueFees(old(State())).Some?
      ensures ok ==> State() == ExecAccrueFees(old(State())).value
    {
      if pool.mode > 1 {
        return false;
      }
      ok := AccrueFeesInner(vault);
    }

    // ---------------------------------------------------------- configuration

    static predicate TimelockWindowElapsed(proposedAt: u64, now: u64) {
      var earliest := CheckedAdd(proposedAt, TIMELOCK_SLOTS);
      earliest.Some? && now >= earliest.value
    }

    /** Accepted once, and only when the wrapper owes nothing. */
    method ProcessSetMarketResolved() returns (ok: bool)
      modifies `pool
      ensures ok <==> ExecConfig(old(pool), slot, SetMarketResolved).Some?
      ensures ok ==> pool == ExecConfig(old(pool), slot, SetMarketResolved).value
      ensures ok <==> !old(pool).marketResolved && WrapperRecoverable(old(pool)) == 0
      ensures ok ==> pool == old(pool).(marketResolved := true) && ExecConfig(pool, slot, SetMarketResolved).None?
    {
      if pool.marketResolved || WrapperRecoverable(pool) != 0 {
        return false;
      }
      pool := pool.(marketResolved := true);
      ok := true;
    }

    /** The floor is written only when enabling, within its bounds; disabling is always accepted
        and keeps it, and the mark itself is never touched. */
    method ProcessAdminSetHwmConfig(enabled: bool, bps: u16) returns (ok: bool)
      modifies `pool
      ensures ok <==> ExecConfig(old(pool), slot, SetHwmConfig(enabled, bps)).Some?
      ensures ok ==> pool == ExecConfig(old(pool), slot, SetHwmConfig(enabled, bps)).value
      ensures ok <==> (enabled ==> 1 <= bps <= MAX_HWM_FLOOR_BPS)
      ensures pool == old(pool).(hwmEnabled := pool.hwmEnabled, hwmFloorBps := pool.hwmFloorBps)
      ensures ok ==> pool.hwmEnabled == enabled
      ensures ok && enabled ==> 1 <= pool.hwmFloorBps == bps <= MAX_HWM_FLOOR_BPS
      ensures !enabled ==> ok && pool.hwmFloorBps == old(pool).hwmFloorBps
      ensures pool.hwmMark == old(pool).hwmMark && pool.hwmEpoch == old(pool).hwmEpoch
    {
      if enabled && (bps == 0 || bps > MAX_HWM_FLOOR_BPS) {
        return false;
      }
      pool := pool.(hwmEnabled := enabled);
      if enabled {
        pool := pool.(hwmFloorBps := bps);
      }
      ok := true;
    }

    /** Tranches are never switched off, and the multiplier is locked while junior LP exists. */
    method ProcessAdminSetTrancheConfig(mult: u16) returns (ok: bool)
      modifies `pool
      ensures ok <==> ExecConfig(old(pool), slot, SetTrancheConfig(mult)).Some?
      ensures ok ==> pool == ExecConfig(old(pool), slot, SetTrancheConfig(mult)).value
      ensures ok <==> 10_000 <= mult <= 50_000 && (old(pool).juniorLp == 0 || mult == old(pool).juniorMult)
      ensures pool == old(pool).(trancheEnabled := pool.trancheEnabled, juniorMult := pool.juniorMult)
      ensures old(pool).trancheEnabled ==> pool.trancheEnabled
      ensures ok ==> pool.trancheEnabled && 10_000 <= pool.juniorMult == mult <= 50_000
      ensures old(pool).juniorLp > 0 ==> pool.juniorMult == old(pool).juniorMult
    {
      if mult < 10_000 || mult > 50_000 {
        return false;
      }
      if pool.juniorLp > 0 && pool.juniorMult != mult {
        return false;
      }
      pool := pool.(trancheEnabled := true);
      pool := pool.(juniorMult := mult);
      ok := true;
    }

    /** An immediate change never raises the cooldown and never touches a proposal. */
    method ProcessUpdateConfig(newCooldown: Option<u64>, newCap: Option<u64>) returns (ok: bool)
      modifies `pool
      ensures ok <==> ExecConfig(old(pool), slot, UpdateConfig(newCooldown, newCap)).Some?
      ensures ok ==> pool == ExecConfig(old(pool), slot, UpdateConfig(newCooldown, newCap)).value
      ensures ok <==> (newCooldown.Some? ==> 1 <= newCooldown.value <= Min(old(pool).cooldown, MAX_COOLDOWN_SLOTS))
      ensures ok ==> (if newCooldown.Some? then pool.cooldown == newCooldown.value
                      else pool.cooldown == old(pool).cooldown)
      ensures ok ==> (if newCap.Some? then pool.depositCap == newCap.value
                      else pool.depositCap == old(pool).depositCap)
      ensures pool == old(pool).(cooldown := pool.cooldown, depositCap := pool.depositCap)
      ensures pool.cooldown <= old(pool).cooldown
      ensures ValidCooldown(old(pool).cooldown) ==> ValidCooldown(pool.cooldown)
      ensures pool.pendingCooldown == old(pool).pendingCooldown && pool.proposedAt == old(pool).proposedAt
    {
      if newCooldown.Some? {
        if !ValidCooldown(newCooldown.value) || newCooldown.value > pool.cooldown {
          return false;
        }
        pool := pool.(cooldown := newCooldown.value);
      }
      if newCap.Some? {
        pool := pool.(depositCap := newCap.value);
      }
      ok := true;
    }

    /** Only an increase can be proposed, it takes no effect by itself, and its commit is accepted
        from the end of the window on and not before. Slot 0 reads as no proposal. */
    method ProcessProposeCooldownIncrease(slots: u64) returns (ok: bool)
      modifies `pool
      ensures ok <==> ExecConfig(old(pool), slot, ProposeCooldownIncrease(slots)).Some?
      ensures ok ==> pool == ExecConfig(old(pool), slot, ProposeCooldownIncrease(slots)).value
      ensures ok <==> old(pool).cooldown < slots <= MAX_COOLDOWN_SLOTS
      ensures pool == old(pool).(pendingCooldown := pool.pendingCooldown, proposedAt := pool.proposedAt)
      ensures pool.cooldown == old(pool).cooldown
      ensures ok ==> pool.cooldown < pool.pendingCooldown == slots <= MAX_COOLDOWN_SLOTS
      ensures ok ==> forall now: u64 :: ExecConfig(pool, now, CommitCooldownIncrease).Some?
                                        <==> slot > 0 && slot + TIMELOCK_SLOTS <= now
    {
      if !ValidCooldown(slots) || slots <= pool.cooldown {
        return false;
      }
      pool := pool.(pendingCooldown := slots);
      pool := pool.(proposedAt := slot);
      ok := true;
    }

    /** Applies the pending value after the whole window, once. */
    method ProcessCommitCooldownIncrease() returns (ok: bool)
      modifies `pool
      ensures ok <==> ExecConfig(old(pool), slot, CommitCooldownIncrease).Some?
      ensures ok ==> pool == ExecConfig(old(pool), slot, CommitCooldownIncrease).value
      ensures ok <==> && 0 < old(pool).proposedAt && old(pool).proposedAt + TIMELOCK_SLOTS <= slot
                      && 1 <= old(pool).pendingCooldown <= MAX_COOLDOWN_SLOTS
      ensures pool == old(pool).(cooldown := pool.cooldown,
                                 pendingCooldown := pool.pendingCooldown, proposedAt := pool.proposedAt)
      ensures ok ==> 0 < old(pool).proposedAt && old(pool).proposedAt + TIMELOCK_SLOTS <= slot
      ensures ok ==> pool.cooldown == old(pool).pendingCooldown && ValidCooldown(pool.cooldown)
      ensures ok ==> forall now: u64 :: ExecConfig(pool, now, CommitCooldownIncrease).None?
    {
      if pool.proposedAt == 0 || !TimelockWindowElapsed(pool.proposedAt, slot) {
        return false;
      }
      if !ValidCooldown(pool.pendingCooldown) {
        return false;
      }
      pool := pool.(cooldown := pool.pendingCooldown);
      pool := pool.(pendingCooldown := 0);
      pool := pool.(proposedAt := 0);
      ok := true;
    }

    /** After a cancel no commit is accepted at any time. */
    method ProcessCancelCooldownIncrease() returns (ok: bool)
      modifies `pool
      ensures ok <==> ExecConfig(old(pool), slot, CancelCooldownIncrease).Some?
      ensures ok ==> pool == ExecConfig(old(pool), slot, CancelCooldownIncrease).value
      ensures pool == old(pool).(pendingCooldown := pool.pendingCooldown, proposedAt := pool.proposedAt)
      ensures ok <==> old(pool).proposedAt != 0
      ensures pool.cooldown == old(pool).cooldown
      ensures ok ==> forall now: u64 :: ExecConfig(pool, now, CommitCooldownIncrease).None?
    {
      if pool.proposedAt == 0 {
        return false;
      }
      pool := pool.(pendingCooldown := 0);
      pool := pool.(proposedAt := 0);
      ok := true;
    }

    // -------------------------------------------------------------- runtime

    method Restore(w: World)
      modifies this
      ensures State() == w
    {
      pool := w.pool;
      records, vault, circulating, slot, epoch := w.records, w.vault, w.circulating, w.slot, w.epoch;
      burned, adminReturned, sentIn := w.burned, w.adminReturned, w.sentIn;
    }

    method DispatchConfig(i: Instruction) returns (ok: bool)
      requires Effects.IsConfig(i)
      modifies `pool
      ensures ok <==> ExecConfig(old(pool), slot, i).Some?
      ensures ok ==> pool == ExecConfig(old(pool), slot, i).value
    {
      hide ExecConfig;
      match i
      case SetMarketResolved => ok := ProcessSetMarketResolved();
      case SetHwmConfig(enabled, bps) => ok := ProcessAdminSetHwmConfig(enabled, bps);
      case SetTrancheConfig(mult) => ok := ProcessAdminSetTrancheConfig(mult);
      case UpdateConfig(newCooldown, newCap) => ok := ProcessUpdateConfig(newCooldown, newCap);
      case ProposeCooldownIncrease(slots) => ok := ProcessProposeCooldownIncrease(slots);
      case CommitCooldownIncrease => ok := ProcessCommitCooldownIncrease();
      case CancelCooldownIncrease => ok := ProcessCancelCooldownIncrease();
    }

    method Dispatch(i: Instruction) returns (ok: bool)
      modifies this
      ensures ok <==> Exec(old(State()), i).Some?
      ensures ok ==> State() == Exec(old(State()), i).value
    {
      hide ExecDeposit;
      hide ExecDepositJunior;
      hide ExecWithdraw;
      hide ExecFlush;
      hide ExecReturn;
      hide ExecRecover;
      hide ExecAccrueFees;
      hide ExecConfig;
      match i
      case Deposit(user, amount) => ok := ProcessDeposit(user, amount);
      case DepositJunior(user, amount) => ok := ProcessDepositJunior(user, amount);
      case Withdraw(user, lp) => ok := ProcessWithdraw(user, lp);
      case FlushToInsurance(amount) => ok := ProcessFlushToInsurance(amount);
      case ReturnInsurance(amount) => ok := ProcessReturnInsurance(amount);
      case RecoverFlushedInsurance(amount) => ok := ProcessRecoverFlushedInsurance(amount);
      case AccrueFees => ok := ProcessAccrueFees();
      case TransferToVault(amount) =>
        ok := TransferIn(amount);
        sentIn := sentIn + amount;
      case BurnLp(amount) =>
        ok := Burn(amount);
        burned := burned + amount;
      case AdvanceClock(newSlot, newEpoch) =>
        ok := slot <= newSlot && epoch <= newEpoch;
        slot, epoch := newSlot, newEpoch;
      case _ => ok := DispatchConfig(i);
    }

    /** One transaction: the handler's effect when it succeeds, nothing at all otherwise. */
    method Execute(s: Step) returns (ok: bool)
      modifies this
      ensures ok <==> Succeeds(old(State()), s)
      ensures State() == Apply(old(State()), s)
    {
      if !s.admitted {
        return false;
      }
      var before := State();
      ok := Dispatch(s.i);
      if !ok {
        Restore(before);
      }
    }
  }
}
