/** Who gets recovered insurance and accrued fees: the last junior's exit, and deposits that
    are followed by recoveries, accruals and a redemption. */
module Recovery {
  import opened Numbers
  import opened ShareMath
  import opened Ledger
  import opened Instructions
  import opened Effects
  import opened Invariants
  import opened Tranches
  import opened Insurance

  // -------------------------------------------------------- last junior exit

  /** The burn of the last junior share: pool value falls by exactly the payout, the loss
      junior bore leaves the outstanding loss and is written down for good, and junior's
      books are empty. */
  lemma LastJuniorExit(w: World, user: User, lp: u64) returns (p: Pool, out: u64)
    requires Inv(w) && ExecWithdraw(w, user, lp).Some?
    requires RecordOf(w, user).junior && lp == w.pool.juniorLp
    ensures var q := ExecWithdraw(w, user, lp).value.pool;
            && Accrue(w.pool, w.vault) == Some(p)
            && out == Redeem(lp, Effective(p), lp) <= Effective(p)
            && Value(q) == Value(p) - out
            && NetLoss(q) == NetLoss(p) - Forfeited(p)
            && Forfeited(p) == Min(p.juniorBalance, NetLoss(p))
            && q.realizedLoss == p.realizedLoss + Forfeited(p)
            && q.juniorLp == 0 && q.juniorBalance == 0
            && Gross(q) == GrossSenior(p) + (Effective(p) - out)
            && ExecWithdraw(w, user, lp).value.vault == w.vault - out
  {
    hide Accrue;
    hide ExecWithdraw;
    hide Payout;
    hide TakeOut;
    hide Redeem;
    p, out := WithdrawFacts(w, user, lp);
    AccrueFacts(w.pool, w.vault);
    AccrueMoves(w.pool, w.vault);
    InvSharesConsistent(w);
    RecordWithinCounters(w, user);
    PayoutFacts(p, true, lp);
    TakeOutFacts(Marked(p, ExecWithdraw(w, user, lp).value.pool), true, lp, out);
  }

  /** What the wrapper can still pay back falls by the forfeited loss, and by nothing else. */
  lemma RecoverableWrittenDown(w: World, user: User, lp: u64, p: Pool)
    requires Inv(w) && ExecWithdraw(w, user, lp).Some?
    requires RecordOf(w, user).junior && lp == w.pool.juniorLp && Accrue(w.pool, w.vault) == Some(p)
    ensures var q := ExecWithdraw(w, user, lp).value.pool;
            && WrapperRecoverable(q) == WrapperRecoverable(w.pool) - Forfeited(p)
            && q.recovered == w.pool.recovered && q.flushed == w.pool.flushed
  {
    hide Accrue;
    hide ExecWithdraw;
    hide LpSum;
    var _, _ := LastJuniorExit(w, user, lp);
    AccrueFacts(w.pool, w.vault);
    WithdrawForfeits(w, Withdraw(user, lp));
    WithdrawKeepsInv(w, user, lp);
  }

  /** Fair recovery, exactly. After the last junior left, what the wrapper can still pay back is
      written down by the forfeited loss, and no continuation recovers more than that and what
      it flushes itself. At its end senior is its gross claim before the exit plus the leaving
      junior's rounding remainder, moved by the principal, payouts, fees and further write-downs
      of the continuation, less what a new junior holds, less the loss still unabsorbed, plus
      what the admin put in beyond what the wrapper still owes. */
  lemma FairRecovery(w: World, user: User, lp: u64, steps: seq<Step>) returns (p: Pool, out: u64)
    requires Inv(w) && ExecWithdraw(w, user, lp).Some?
    requires RecordOf(w, user).junior && lp == w.pool.juniorLp
    ensures var q, e := ExecWithdraw(w, user, lp).value.pool, Run(ExecWithdraw(w, user, lp).value, steps);
            && Accrue(w.pool, w.vault) == Some(p) && out <= Effective(p)
            && WrapperRecoverable(q) == WrapperRecoverable(w.pool) - Forfeited(p)
            && e.pool.recovered - w.pool.recovered
               <= WrapperRecoverable(w.pool) - Forfeited(p) + (e.pool.flushed - w.pool.flushed)
            && Senior(e.pool) == GrossSenior(p) + (Effective(p) - out)
                                 + (e.pool.deposited - q.deposited) - (e.pool.withdrawn - q.withdrawn)
                                 + (e.pool.fees - q.fees) - (e.pool.realizedLoss - q.realizedLoss)
                                 - e.pool.juniorBalance - Spill(e.pool)
                                 + Monus(e.adminReturned, WrapperRecoverable(e.pool))
  {
    hide Accrue;
    hide ExecWithdraw;
    hide Redeem;
    hide Run;
    p, out := LastJuniorExit(w, user, lp);
    RecoverableWrittenDown(w, user, lp, p);
    var w' := ExecWithdraw(w, user, lp).value;
    WithdrawKeepsInv(w, user, lp);
    RunKeepsInv(w', steps);
    RecoveriesBounded(w', steps);
    SeniorMarkedDownIff(Run(w', steps).pool);
    SurplusIsAdminExcess(Run(w', steps));
  }

  /** The bound a depositor reads off it: while not over-returned, senior never gets more than
      its gross claim before the exit, the rounding remainder, the senior principal added
      since less payouts, and fees. */
  lemma SeniorGetsNoForfeit(w: World, user: User, lp: u64, steps: seq<Step>) returns (p: Pool, out: u64)
    requires Inv(w) && ExecWithdraw(w, user, lp).Some?
    requires RecordOf(w, user).junior && lp == w.pool.juniorLp
    requires !OverReturned(Run(ExecWithdraw(w, user, lp).value, steps).pool)
    ensures var q, e := ExecWithdraw(w, user, lp).value.pool, Run(ExecWithdraw(w, user, lp).value, steps).pool;
            && Accrue(w.pool, w.vault) == Some(p) && out <= Effective(p)
            && Senior(e) <= GrossSenior(p) + (Effective(p) - out)
                            + (e.deposited - q.deposited - e.juniorBalance) - (e.withdrawn - q.withdrawn)
                            + (e.fees - q.fees)
  {
    hide Accrue;
    hide ExecWithdraw;
    hide Run;
    p, out := FairRecovery(w, user, lp, steps);
    var w' := ExecWithdraw(w, user, lp).value;
    WithdrawKeepsInv(w, user, lp);
    RunGrowsCounters(w', steps);
    RunKeepsInv(w', steps);
    SurplusIsAdminExcess(Run(w', steps));
  }

  // ------------------------------------------------------- the junior gate

  /** The gate's loss is exactly what recoveries and admin returns have not covered, so junior
      deposits are open exactly when these cover everything flushed. Forfeited loss is never
      recovered: an open gate means the admin has put in at least that much, and that the pool
      is over-returned by at least that much. */
  lemma JuniorGateOpenIff(w: World)
    requires Inv(w)
    ensures PhysicalNetLoss(w.pool) == Monus(w.pool.flushed, w.pool.recovered + w.adminReturned)
    ensures PhysicalNetLoss(w.pool) == 0 <==> w.pool.flushed + w.pool.realizedLoss <= w.pool.returned
    ensures PhysicalNetLoss(w.pool) == 0 ==> w.pool.realizedLoss <= Surplus(w.pool) <= w.adminReturned
  {
  }

  /** No withdrawal moves the gate, the last junior's under a loss included. */
  lemma WithdrawKeepsGate(w: World, user: User, lp: u64)
    requires Inv(w) && ExecWithdraw(w, user, lp).Some?
    ensures PhysicalNetLoss(ExecWithdraw(w, user, lp).value.pool) == PhysicalNetLoss(w.pool)
  {
    hide Accrue;
    hide ExecWithdraw;
    hide TakeOut;
    var p, out := WithdrawFacts(w, user, lp);
    AccrueFacts(w.pool, w.vault);
    TakeOutFacts(Marked(p, ExecWithdraw(w, user, lp).value.pool), RecordOf(w, user).junior, lp, out);
  }

  /** After any forfeit junior deposits are accepted only in an over-returned pool, with a
      surplus of at least the whole forfeited loss. */
  lemma JuniorDepositNeedsSurplus(w: World, user: User, amount: u64)
    requires Inv(w) && ExecDepositJunior(w, user, amount).Some?
    ensures w.pool.realizedLoss <= Surplus(w.pool)
    ensures w.pool.realizedLoss > 0 ==> OverReturned(w.pool)
  {
    hide Accrue;
    hide ExecDepositJunior;
    hide Book;
    var p, lp := DepositJuniorFacts(w, user, amount);
    AccrueFacts(w.pool, w.vault);
    JuniorGateOpenIff(w);
  }

  /** A last junior leaving under a loss does not re-open junior deposits: the gate is where it
      was, shut, and in every continuation it is open only when the surplus, all of it put in
      by the admin, has reached the forfeited loss. */
  lemma LastExitLeavesGateShut(w: World, user: User, lp: u64, steps: seq<Step>) returns (p: Pool)
    requires Inv(w) && ExecWithdraw(w, user, lp).Some?
    requires RecordOf(w, user).junior && lp == w.pool.juniorLp
    ensures Accrue(w.pool, w.vault) == Some(p)
    ensures var q := ExecWithdraw(w, user, lp).value.pool;
            && PhysicalNetLoss(q) == PhysicalNetLoss(w.pool)
            && (Forfeited(p) > 0 ==> PhysicalNetLoss(q) > 0)
    ensures var e := Run(ExecWithdraw(w, user, lp).value, steps);
            PhysicalNetLoss(e.pool) == 0 ==> Forfeited(p) <= Surplus(e.pool) <= e.adminReturned
  {
    hide Accrue;
    hide ExecWithdraw;
    hide Redeem;
    hide Run;
    var out;
    p, out := LastJuniorExit(w, user, lp);
    var w' := ExecWithdraw(w, user, lp).value;
    WithdrawKeepsInv(w, user, lp);
    RunGrowsCounters(w', steps);
    RunKeepsInv(w', steps);
    JuniorGateOpenIff(Run(w', steps));
    WithdrawKeepsGate(w, user, lp);
  }

  // ------------------------------------------------------------- quiet runs

  /** Steps a depositor can wait through: accruals, returned and recovered insurance, time. */
  predicate Quiet(steps: seq<Step>) {
    forall k :: 0 <= k < |steps| ==>
      steps[k].i.AccrueFees? || steps[k].i.ReturnInsurance? || steps[k].i.RecoverFlushedInsurance?
      || steps[k].i.AdvanceClock?
  }

  /** The books hold every token in the vault: nothing is left to accrue. */
  ghost predicate FullyBooked(w: World) {
    Value(w.pool) == w.vault
  }

  /** Accrual is idempotent: with holders it leaves the pool worth the vault,
      and from there it does nothing. */
  lemma AccrualIsIdempotent(w: World, p: Pool)
    requires Inv(w) && w.pool.lpSupply > 0 && Accrue(w.pool, w.vault) == Some(p)
    ensures Value(p) == w.vault
    ensures Accrue(p, w.vault) == Some(p)
  {
    AccrueFacts(w.pool, w.vault);
  }

  /** `q` is `p` with nothing moved but the insurance counters upwards. */
  ghost predicate OnlyReturns(p: Pool, q: Pool) {
    q == p.(returned := q.returned, recovered := q.recovered) && p.returned <= q.returned
  }

  /** While junior bears the whole loss, returns reach senior only with what they add beyond
      everything flushed. */
  lemma ReturnsReachSeniorIff(p: Pool, q: Pool)
    requires OnlyReturns(p, q) && NetLoss(p) <= p.juniorBalance
    ensures Senior(q) == Senior(p) + (Surplus(q) - Surplus(p)) && SeniorLp(q) == SeniorLp(p)
    ensures Senior(q) == Senior(p) <==> Surplus(q) == Surplus(p)
  {
  }

  lemma NothingReturned(p: Pool, q: Pool)
    requires OnlyReturns(p, q) && q.returned == p.returned
    ensures Senior(q) == Senior(p) && SeniorLp(q) == SeniorLp(p)
  {
  }

  /** With no loss outstanding there is nothing for a return to restore to junior. */
  lemma ReturnsMissJunior(p: Pool, q: Pool)
    requires OnlyReturns(p, q) && NetLoss(p) == 0
    ensures Effective(q) == Effective(p) && q.juniorLp == p.juniorLp
  {
  }

  lemma QuietStep(w: World, s: Step)
    requires FullyBooked(w)
    requires s.i.AccrueFees? || s.i.ReturnInsurance? || s.i.RecoverFlushedInsurance? || s.i.AdvanceClock?
    ensures FullyBooked(Apply(w, s)) && OnlyReturns(w.pool, Apply(w, s).pool)
    ensures Apply(w, s).records == w.records
  {
  }

  lemma {:induction false} QuietRun(w: World, steps: seq<Step>)
    requires FullyBooked(w) && Quiet(steps)
    ensures FullyBooked(Run(w, steps)) && OnlyReturns(w.pool, Run(w, steps).pool)
    ensures Run(w, steps).records == w.records
    decreases |steps|
  {
    hide Apply;
    if steps != [] {
      QuietRun(w, steps[..|steps| - 1]);
      QuietStep(Run(w, steps[..|steps| - 1]), steps[|steps| - 1]);
    }
  }

  /** A withdrawal leaves nothing to accrue. */
  lemma WithdrawSettles(w: World, user: User, lp: u64)
    requires Inv(w) && ExecWithdraw(w, user, lp).Some?
    ensures FullyBooked(ExecWithdraw(w, user, lp).value)
  {
    hide Accrue;
    hide ExecWithdraw;
    hide Redeem;
    var p, out := WithdrawMoves(w, user, lp);
    RecordWithinCounters(w, user);
    var _, _ := WithdrawFacts(w, user, lp);
    AccrueFacts(w.pool, w.vault);
  }

  /** After the last junior's exit, through any returns, recoveries, accruals and time: senior is
      its gross claim before the exit and the rounding remainder, plus all the admin has put
      in, less all the wrapper still owes. Once the wrapper has paid back everything it owes
      and the admin nothing, senior is whole to the unit, and the forfeited loss stays where it
      was flushed. */
  lemma RecoveryMakesSeniorWhole(w: World, user: User, lp: u64, steps: seq<Step>) returns (p: Pool, out: u64)
    requires Inv(w) && ExecWithdraw(w, user, lp).Some?
    requires RecordOf(w, user).junior && lp == w.pool.juniorLp
    requires Quiet(steps)
    ensures var q, e := ExecWithdraw(w, user, lp).value.pool, Run(ExecWithdraw(w, user, lp).value, steps);
            && Accrue(w.pool, w.vault) == Some(p) && out <= Effective(p)
            && Senior(e.pool) == GrossSenior(p) + (Effective(p) - out) + e.adminReturned - WrapperRecoverable(e.pool)
            && Senior(e.pool) - Senior(q) == e.pool.returned - q.returned == e.vault - (w.vault - out)
            && WrapperRecoverable(e.pool)
               == WrapperRecoverable(w.pool) - Forfeited(p) - (e.pool.recovered - w.pool.recovered)
  {
    hide Accrue;
    hide ExecWithdraw;
    hide Redeem;
    hide Run;
    hide Inv;
    p, out := LastJuniorExit(w, user, lp);
    WithdrawSettles(w, user, lp);
    var w' := ExecWithdraw(w, user, lp).value;
    WithdrawKeepsInv(w, user, lp);
    QuietRun(w', steps);
    RunKeepsInv(w', steps);
    SurplusIsAdminExcess(Run(w', steps));
    SurplusIsAdminExcess(w');
    RecoverableWrittenDown(w, user, lp, p);
    SeniorMarkedDownIff(Run(w', steps).pool);
  }

  // -------------------------------------------------------- deposit and exit

  /** Shares booked to the user by a deposit. */
  function Booked(w: World, w': World, user: User): u64 {
    SaturatingSub(RecordOf(w', user).lp, RecordOf(w, user).lp)
  }

  /** With nothing to accrue, a withdrawal pays the floor of the pro-rata share of the
      holder's tranche as it stands. */
  lemma ExitWhenFullyBooked(w: World, user: User, lp: u64)
    requires Inv(w) && FullyBooked(w) && ExecWithdraw(w, user, lp).Some?
    ensures var junior := RecordOf(w, user).junior;
            && 0 <= Worth(w.pool, junior)
            && w.vault - ExecWithdraw(w, user, lp).value.vault
               == Redeem(Holding(w.pool, junior), Worth(w.pool, junior), lp)
  {
    hide Accrue;
    hide ExecWithdraw;
    hide Redeem;
    var p, out := WithdrawMoves(w, user, lp);
    AccrueFacts(w.pool, w.vault);
  }

  /** The record and the vault after a Deposit into a live pool. */
  lemma DepositBooks(w: World, user: User, amount: u64)
    requires Inv(w) && w.pool.lpSupply > 0 && ExecDeposit(w, user, amount).Some?
    ensures var w1 := ExecDeposit(w, user, amount).value;
            && FullyBooked(w1) && !RecordOf(w1, user).junior
            && Booked(w, w1, user) == w1.pool.lpSupply - w.pool.lpSupply
            && w1.pool.juniorLp == w.pool.juniorLp
            && w1.pool.trancheEnabled == w.pool.trancheEnabled
            && (w1.pool.trancheEnabled ==> NetLoss(w1.pool) <= w1.pool.juniorBalance)
  {
    hide Accrue;
    hide ExecDeposit;
    hide Book;
    var p, lp := DepositFacts(w, user, amount);
    AccrueFacts(w.pool, w.vault);
    BookFacts(w, p, user, amount, lp, false);
  }

  /** A Deposit into a live pool, any number of accruals, returns, recoveries and slots, then
      the redemption of the minted shares, pays back at most the deposit: with tranches
      whenever the wait returns nothing beyond what was flushed, without tranches whenever it
      returns nothing. */
  lemma DepositCapturesNothing(w: World, user: User, amount: u64, steps: seq<Step>)
    requires Inv(w) && w.pool.lpSupply > 0 && ExecDeposit(w, user, amount).Some?
    requires Quiet(steps)
    requires var w1 := ExecDeposit(w, user, amount).value;
             var w2 := Run(w1, steps);
             && (if w1.pool.trancheEnabled then Surplus(w2.pool) == Surplus(w1.pool)
                 else w2.pool.returned == w1.pool.returned)
             && ExecWithdraw(w2, user, Booked(w, w1, user)).Some?
    ensures var w1 := ExecDeposit(w, user, amount).value;
            var w2 := Run(w1, steps);
            w2.vault - ExecWithdraw(w2, user, Booked(w, w1, user)).value.vault <= amount
  {
    hide Accrue;
    hide ExecDeposit;
    hide ExecWithdraw;
    hide Book;
    hide Mint;
    hide Redeem;
    hide Run;
    hide Value;
    hide Effective;
    hide Senior;
    var w1 := ExecDeposit(w, user, amount).value;
    var p, lp := DepositMoves(w, user, amount);
    DepositBooks(w, user, amount);
    DepositKeepsInv(w, user, amount);
    AccrueFacts(w.pool, w.vault);
    InvSharesConsistent(w);
    InvSharesConsistent(w1);
    assert lp == Booked(w, w1, user);
    QuietRun(w1, steps);
    RunKeepsInv(w1, steps);
    var w2 := Run(w1, steps);
    ExitWhenFullyBooked(w2, user, lp);
    if w1.pool.trancheEnabled {
      ReturnsReachSeniorIff(w1.pool, w2.pool);
    } else {
      NothingReturned(w1.pool, w2.pool);
    }
    RoundTripNoProfit(SeniorLp(p), Senior(p), amount);
  }

  lemma DepositJuniorBooks(w: World, user: User, amount: u64)
    requires Inv(w) && w.pool.lpSupply > 0 && ExecDepositJunior(w, user, amount).Some?
    ensures var w1 := ExecDepositJunior(w, user, amount).value;
            && FullyBooked(w1) && RecordOf(w1, user).junior
            && Booked(w, w1, user) == w1.pool.juniorLp - w.pool.juniorLp
            && NetLoss(w1.pool) == 0
  {
    hide Accrue;
    hide ExecDepositJunior;
    hide Book;
    var p, lp := DepositJuniorFacts(w, user, amount);
    AccrueFacts(w.pool, w.vault);
    BookFacts(w, p, user, amount, lp, true);
  }

  /** The same for a DepositJunior, with no condition on the wait at all: it is accepted only
      when no loss is outstanding, so no later return can reach it. */
  lemma DepositJuniorCapturesNothing(w: World, user: User, amount: u64, steps: seq<Step>)
    requires Inv(w) && w.pool.lpSupply > 0 && ExecDepositJunior(w, user, amount).Some?
    requires Quiet(steps)
    requires var w1 := ExecDepositJunior(w, user, amount).value;
             ExecWithdraw(Run(w1, steps), user, Booked(w, w1, user)).Some?
    ensures var w1 := ExecDepositJunior(w, user, amount).value;
            var w2 := Run(w1, steps);
            w2.vault - ExecWithdraw(w2, user, Booked(w, w1, user)).value.vault <= amount
  {
    hide Accrue;
    hide ExecDepositJunior;
    hide ExecWithdraw;
    hide Book;
    hide Mint;
    hide Redeem;
    hide Run;
    var w1 := ExecDepositJunior(w, user, amount).value;
    var p, lp := DepositJuniorMoves(w, user, amount);
    DepositJuniorBooks(w, user, amount);
    DepositJuniorKeepsInv(w, user, amount);
    AccrueFacts(w.pool, w.vault);
    assert lp == Booked(w, w1, user);
    QuietRun(w1, steps);
    RunKeepsInv(w1, steps);
    var w2 := Run(w1, steps);
    ExitWhenFullyBooked(w2, user, lp);
    ReturnsMissJunior(w1.pool, w2.pool);
    RoundTripNoProfit(p.juniorLp, Effective(p), amount);
  }
}
