/** What every run keeps: the ledger closes, the records refine the share counters, the
    vault backs the books, and the dead-share lock holds. */
module Invariants {
  import opened Numbers
  import opened Ledger
  import opened Instructions
  import opened Effects

  // -------------------------------------------------------- sums over records

  function Shares(r: Record, juniorOnly: bool): nat {
    if juniorOnly && !r.junior then 0 else r.lp
  }

  ghost function LpSum(m: map<User, Record>, juniorOnly: bool): nat
    decreases |m|
  {
    if m == map[] then 0
    else
      var u :| u in m;
      Shares(m[u], juniorOnly) + LpSum(m - {u}, juniorOnly)
  }

  /** The sum does not depend on the order the records are visited in. */
  lemma {:induction false} LpSumPick(m: map<User, Record>, u: User, juniorOnly: bool)
    requires u in m
    ensures LpSum(m, juniorOnly) == Shares(m[u], juniorOnly) + LpSum(m - {u}, juniorOnly)
    decreases |m|
  {
    var v :| v in m && LpSum(m, juniorOnly) == Shares(m[v], juniorOnly) + LpSum(m - {v}, juniorOnly);
    if v != u {
      LpSumPick(m - {v}, u, juniorOnly);
      LpSumPick(m - {u}, v, juniorOnly);
      assert m - {v} - {u} == m - {u} - {v};
    }
  }

  lemma LpSumUpdate(w: World, user: User, r: Record, juniorOnly: bool)
    requires RecordOf(w, user) == NO_RECORD || user in w.records
    ensures LpSum(w.records[user := r], juniorOnly)
            == LpSum(w.records, juniorOnly) - Shares(RecordOf(w, user), juniorOnly) + Shares(r, juniorOnly)
    ensures Shares(RecordOf(w, user), juniorOnly) <= LpSum(w.records, juniorOnly)
  {
    LpSumPick(w.records[user := r], user, juniorOnly);
    assert w.records[user := r] - {user} == w.records - {user};
    if user in w.records {
      LpSumPick(w.records, user, juniorOnly);
    } else {
      assert w.records - {user} == w.records;
    }
  }

  lemma {:induction false} JuniorSumAtMostAll(m: map<User, Record>)
    ensures LpSum(m, true) <= LpSum(m, false)
    decreases |m|
  {
    if m != map[] {
      var u :| u in m;
      LpSumPick(m, u, true);
      LpSumPick(m, u, false);
      JuniorSumAtMostAll(m - {u});
    }
  }

  // ------------------------------------------------------------- the invariant

  /** Every returned token was recovered, returned by the admin, or settled by a forfeit;
      what was recovered or forfeited had been flushed. */
  ghost predicate LedgerCloses(w: World) {
    && w.pool.returned == w.pool.recovered + w.adminReturned + w.pool.realizedLoss
    && w.pool.recovered + w.pool.realizedLoss <= w.pool.flushed
  }

  ghost predicate RecordWellFormed(r: Record) {
    (r.initialized <==> r.lp > 0) && (r.junior ==> r.initialized)
  }

  ghost predicate RecordsRefineShares(w: World) {
    && (forall u :: u in w.records ==> RecordWellFormed(w.records[u]))
    && LpSum(w.records, false) == w.pool.lpSupply
    && LpSum(w.records, true) == w.pool.juniorLp
    && (w.pool.juniorLp == 0 ==> w.pool.juniorBalance == 0)
    && (!w.pool.trancheEnabled ==> w.pool.juniorLp == 0)
  }

  ghost predicate DeadSharesLocked(w: World) {
    if w.pool.lpSupply == 0 then w.circulating == 0 && w.burned == 0
    else w.pool.lpSupply == w.circulating + w.burned + MINIMUM_LIQUIDITY
  }

  ghost predicate ConfigInRange(p: Pool) {
    && p.mode <= 1
    && p.hwmFloorBps <= MAX_HWM_FLOOR_BPS
    && ValidCooldown(p.cooldown)
    && (p.proposedAt != 0 ==> p.cooldown < p.pendingCooldown <= MAX_COOLDOWN_SLOTS)
    && (p.hwmEnabled ==> 1 <= p.hwmFloorBps)
    && (p.trancheEnabled ==> 10_000 <= p.juniorMult <= 50_000)
  }

  /** The vault holds the pool value, and beyond it exactly the outside transfers that have
      not been booked as fees yet. */
  ghost predicate VaultBacksBooks(w: World) {
    && w.vault - Value(w.pool) == w.sentIn - w.pool.fees
    && 0 <= Value(w.pool) <= w.vault
  }

  ghost predicate Inv(w: World) {
    && LedgerCloses(w)
    && RecordsRefineShares(w)
    && DeadSharesLocked(w)
    && ConfigInRange(w.pool)
    && VaultBacksBooks(w)
  }

  // -------------------------------------------------------------- preservation

  lemma InitInv(w: World)
    requires Init(w)
    ensures Inv(w)
  {
  }

  lemma BookKeepsInv(w: World, p: Pool, user: User, amount: u64, lp: u64, junior: bool)
    requires Inv(w) && Accrue(w.pool, w.vault) == Some(p)
    requires junior ==> p.trancheEnabled
    requires Book(w, p, user, amount, lp, junior).Some?
    ensures Inv(Book(w, p, user, amount, lp, junior).value)
  {
    hide Accrue;
    hide Book;
    hide LpSum;
    AccrueFacts(w.pool, w.vault);
    BookFacts(w, p, user, amount, lp, junior);
    var r' := Record(true, RecordOf(w, user).lp + lp, junior, w.slot);
    LpSumUpdate(w, user, r', false);
    LpSumUpdate(w, user, r', true);
  }

  lemma DepositKeepsInv(w: World, user: User, amount: u64)
    requires Inv(w) && ExecDeposit(w, user, amount).Some?
    ensures Inv(ExecDeposit(w, user, amount).value)
  {
    hide ExecDeposit;
    hide Book;
    var p, lp := DepositFacts(w, user, amount);
    BookKeepsInv(w, p, user, amount, lp, false);
  }

  lemma DepositJuniorKeepsInv(w: World, user: User, amount: u64)
    requires Inv(w) && ExecDepositJunior(w, user, amount).Some?
    ensures Inv(ExecDepositJunior(w, user, amount).value)
  {
    hide ExecDepositJunior;
    hide Book;
    hide Accrue;
    var p, lp := DepositJuniorFacts(w, user, amount);
    AccrueFacts(w.pool, w.vault);
    BookKeepsInv(w, p, user, amount, lp, true);
  }

  /** A junior record exists only in a pool with tranches, and its shares are in the counters. */
  lemma RecordWithinCounters(w: World, user: User)
    requires Inv(w)
    ensures var r := RecordOf(w, user);
            && r.lp <= w.pool.lpSupply
            && (r.junior ==> w.pool.trancheEnabled && r.lp <= w.pool.juniorLp)
            && (!r.junior ==> r.lp <= w.pool.lpSupply - w.pool.juniorLp)
            && w.pool.juniorLp <= w.pool.lpSupply
  {
    var r := RecordOf(w, user);
    LpSumUpdate(w, user, NO_RECORD, false);
    LpSumUpdate(w, user, NO_RECORD, true);
    JuniorSumAtMostAll(w.records);
    JuniorSumAtMostAll(w.records[user := NO_RECORD]);
  }

  lemma WithdrawKeepsInv(w: World, user: User, lp: u64)
    requires Inv(w) && ExecWithdraw(w, user, lp).Some?
    ensures Inv(ExecWithdraw(w, user, lp).value)
  {
    hide ExecWithdraw;
    hide TakeOut;
    hide Payout;
    hide Accrue;
    hide LpSum;
    var p, out := WithdrawFacts(w, user, lp);
    AccrueFacts(w.pool, w.vault);
    TakeOutFacts(Marked(p, ExecWithdraw(w, user, lp).value.pool), RecordOf(w, user).junior, lp, out);
    RecordWithinCounters(w, user);
    var r' := Reduced(RecordOf(w, user), lp);
    LpSumUpdate(w, user, r', false);
    LpSumUpdate(w, user, r', true);
  }

  lemma InsuranceKeepsInv(w: World, i: Instruction)
    requires Inv(w) && Exec(w, i).Some?
    requires i.FlushToInsurance? || i.ReturnInsurance? || i.RecoverFlushedInsurance?
    ensures Inv(Exec(w, i).value)
  {
    hide LpSum;
  }

  lemma ConfigKeepsInv(w: World, i: Instruction)
    requires Inv(w) && IsConfig(i) && ExecConfig(w.pool, w.slot, i).Some?
    ensures Inv(w.(pool := ExecConfig(w.pool, w.slot, i).value))
  {
    hide LpSum;
  }

  /** One step of any kind, accepted or rejected. */
  lemma StepKeepsInv(w: World, s: Step)
    requires Inv(w)
    ensures Inv(Apply(w, s))
  {
    hide Accrue;
    hide ExecDeposit;
    hide ExecDepositJunior;
    hide ExecWithdraw;
    hide ExecFlush;
    hide ExecReturn;
    hide ExecRecover;
    hide ExecConfig;
    hide LpSum;
    if Succeeds(w, s) {
      match s.i
      case Deposit(user, amount) => DepositKeepsInv(w, user, amount);
      case DepositJunior(user, amount) => DepositJuniorKeepsInv(w, user, amount);
      case Withdraw(user, lp) => WithdrawKeepsInv(w, user, lp);
      case FlushToInsurance(_) => InsuranceKeepsInv(w, s.i);
      case ReturnInsurance(_) => InsuranceKeepsInv(w, s.i);
      case RecoverFlushedInsurance(_) => InsuranceKeepsInv(w, s.i);
      case AccrueFees => AccrueFacts(w.pool, w.vault);
      case TransferToVault(_) =>
      case BurnLp(_) =>
      case AdvanceClock(_, _) =>
      case _ => ConfigKeepsInv(w, s.i);
    }
  }

  /** Every state of every run. */
  lemma {:induction false} RunKeepsInv(w: World, steps: seq<Step>)
    requires Inv(w)
    ensures Inv(Run(w, steps))
    decreases |steps|
  {
    if steps != [] {
      var before := steps[..|steps| - 1];
      RunKeepsInv(w, before);
      StepKeepsInv(Run(w, before), steps[|steps| - 1]);
    }
  }

  // ------------------------------------------------------ what the runs amount to

  /** In every reachable state, whatever was flushed or returned: the pool value is defined and
      in the vault, and what else the vault holds is exactly the outside transfers not yet
      booked as fees. */
  lemma PoolValueBacked(init: World, steps: seq<Step>)
    requires Init(init)
    ensures var w := Run(init, steps);
            && TotalPoolValue(w.pool) == Some(Value(w.pool))
            && Value(w.pool) <= w.vault
            && w.vault - Value(w.pool) == w.sentIn - w.pool.fees
  {
    InitInv(init);
    RunKeepsInv(init, steps);
  }

  /** Records and counters in every reachable state: the saturating senior supply is exact,
      and no checked subtraction of an accepted burn can fail. */
  lemma RecordsRefineRun(init: World, steps: seq<Step>, user: User)
    requires Init(init)
    ensures var w := Run(init, steps);
            var r := RecordOf(w, user);
            && LpSum(w.records, false) == w.pool.lpSupply
            && LpSum(w.records, true) == w.pool.juniorLp
            && SeniorTotalLp(w.pool) == w.pool.lpSupply - w.pool.juniorLp
            && (r.initialized <==> r.lp > 0)
            && r.lp <= (if r.junior then w.pool.juniorLp else w.pool.lpSupply - w.pool.juniorLp)
            && (w.pool.juniorLp == 0 ==> w.pool.juniorBalance == 0)
  {
    InitInv(init);
    RunKeepsInv(init, steps);
    RecordWithinCounters(Run(init, steps), user);
  }

  lemma WithdrawLeavesDeadShares(w: World, user: User, lp: u64)
    requires Inv(w) && ExecWithdraw(w, user, lp).Some? && w.pool.lpSupply > 0
    ensures ExecWithdraw(w, user, lp).value.pool.lpSupply >= MINIMUM_LIQUIDITY
  {
    hide ExecWithdraw;
    hide TakeOut;
    hide Accrue;
    var p, out := WithdrawFacts(w, user, lp);
    AccrueFacts(w.pool, w.vault);
    TakeOutFacts(Marked(p, ExecWithdraw(w, user, lp).value.pool), RecordOf(w, user).junior, lp, out);
  }

  lemma DepositsRaiseSupply(w: World, i: Instruction)
    requires Inv(w) && Exec(w, i).Some? && (i.Deposit? || i.DepositJunior?)
    ensures Exec(w, i).value.pool.lpSupply > w.pool.lpSupply
  {
    hide ExecDeposit;
    hide ExecDepositJunior;
    hide Accrue;
    hide Book;
    var p, lp := AnyDepositFacts(w, i);
    AccrueFacts(w.pool, w.vault);
    BookFacts(w, p, i.user, i.amount, lp, i.DepositJunior?);
  }

  lemma StepKeepsSupply(w: World, s: Step)
    requires Inv(w) && w.pool.lpSupply > 0
    ensures Apply(w, s).pool.lpSupply > 0
  {
    hide Accrue;
    hide ExecDeposit;
    hide ExecDepositJunior;
    hide ExecWithdraw;
    if Succeeds(w, s) {
      match s.i
      case Deposit(_, _) => DepositsRaiseSupply(w, s.i);
      case DepositJunior(_, _) => DepositsRaiseSupply(w, s.i);
      case Withdraw(user, lp) => WithdrawLeavesDeadShares(w, user, lp);
      case AccrueFees => AccrueFacts(w.pool, w.vault);
      case _ =>
    }
  }

  /** Once a deposit has been booked the lock holds for ever: the supply never returns to
      zero, so no later deposit is a genesis deposit, and MINIMUM_LIQUIDITY shares are held
      by nobody, to the unit. */
  lemma {:induction false} DeadSharesForever(w: World, steps: seq<Step>)
    requires Inv(w) && w.pool.lpSupply > 0
    ensures var e := Run(w, steps);
            && e.pool.lpSupply == e.circulating + e.burned + MINIMUM_LIQUIDITY
            && forall lp: u64 {:trigger Minted(e.pool.lpSupply, lp)} :: Minted(e.pool.lpSupply, lp) == Some(lp)
    decreases |steps|
  {
    if steps != [] {
      var before := steps[..|steps| - 1];
      DeadSharesForever(w, before);
      RunKeepsInv(w, before);
      StepKeepsSupply(Run(w, before), steps[|steps| - 1]);
      StepKeepsInv(Run(w, before), steps[|steps| - 1]);
    }
  }

  /** The first accepted deposit, by either entry point, books more than MINIMUM_LIQUIDITY
      shares and mints exactly that many fewer. */
  lemma GenesisLocksShares(w: World, s: Step)
    requires Inv(w) && w.pool.lpSupply == 0 && Succeeds(w, s)
    requires s.i.Deposit? || s.i.DepositJunior?
    ensures var e := Apply(w, s);
            && e.pool.lpSupply == s.i.amount == e.circulating + MINIMUM_LIQUIDITY
            && e.circulating > 0
  {
    hide Accrue;
    hide ExecDeposit;
    hide ExecDepositJunior;
    hide Book;
    JuniorSumAtMostAll(w.records);
    if s.i.Deposit? {
      var p, lp := DepositFacts(w, s.i.user, s.i.amount);
      AccrueFacts(w.pool, w.vault);
      BookFacts(w, p, s.i.user, s.i.amount, lp, false);
    } else {
      var p, lp := DepositJuniorFacts(w, s.i.user, s.i.amount);
      AccrueFacts(w.pool, w.vault);
      BookFacts(w, p, s.i.user, s.i.amount, lp, true);
    }
  }
}
