/** Why solvency needs its condition: a run of accepted instructions that uses both return
    channels, lets senior take out the surplus, and then flushes. */
module OverReturn {
  import opened Numbers
  import opened ShareMath
  import opened Ledger
  import opened Instructions
  import opened Tranches
  import opened Solvency

  /** An insurance pool with a cooldown of one slot and tranches on, with the given books. */
  function Books(deposited: u64, withdrawn: u64, flushed: u64, returned: u64, realizedLoss: u64, recovered: u64,
                 lpSupply: u64, juniorLp: u64, juniorBalance: u64): Pool {
    Pool(deposited, withdrawn, flushed, returned, 0, realizedLoss, recovered, lpSupply, juniorLp, juniorBalance,
         0, 0, false, true, 10_000, false, 0, 0, 0, 1, 0, 0)
  }

  function NewPool(): World {
    World(Pool(0, 0, 0, 0, 0, 0, 0, 0, 0, 0, 0, 0, false, false, 0, false, 0, 0, 0, 1, 0, 0),
          map[], 0, 0, 0, 0, 0, 1, 0)
  }

  function Tranched(): World {
    World(Books(0, 0, 0, 0, 0, 0, 0, 0, 0), map[], 0, 0, 0, 0, 0, 1, 0)
  }

  const JUNIOR_IN := map[0 := Record(true, 2_000, true, 1)]
  const BOTH_IN := JUNIOR_IN[1 := Record(true, 100, false, 1)]
  const SENIOR_OUT := BOTH_IN[1 := Record(false, 0, false, 1)]

  function WithJunior(): World {
    World(Books(2_000, 0, 0, 0, 0, 0, 2_000, 2_000, 2_000), JUNIOR_IN, 2_000, 1_000, 0, 0, 0, 1, 0)
  }

  function WithSenior(): World {
    World(Books(2_100, 0, 0, 0, 0, 0, 2_100, 2_000, 2_000), BOTH_IN, 2_100, 1_100, 0, 0, 0, 1, 0)
  }

  function Flushed(): World {
    World(Books(2_100, 0, 10, 0, 0, 0, 2_100, 2_000, 2_000), BOTH_IN, 2_090, 1_100, 0, 0, 0, 1, 0)
  }

  function ReturnedOnce(): World {
    World(Books(2_100, 0, 10, 10, 0, 0, 2_100, 2_000, 2_000), BOTH_IN, 2_100, 1_100, 0, 10, 0, 1, 0)
  }

  /** Returned by the admin, then recovered from the wrapper as well; the cooldown passes. */
  function ReturnedTwice(slot: u64): World {
    World(Books(2_100, 0, 10, 20, 0, 10, 2_100, 2_000, 2_000), BOTH_IN, 2_110, 1_100, 0, 10, 0, slot, 0)
  }

  function SeniorGone(): World {
    World(Books(2_100, 109, 10, 20, 0, 10, 2_000, 2_000, 2_000), SENIOR_OUT, 2_001, 1_000, 0, 10, 0, 10, 0)
  }

  function FlushedAgain(): World {
    World(Books(2_100, 109, 20, 20, 0, 10, 2_000, 2_000, 2_000), SENIOR_OUT, 1_991, 1_000, 0, 10, 0, 10, 0)
  }

  function Drained(): World {
    World(Books(2_100, 109, 2_010, 20, 0, 10, 2_000, 2_000, 2_000), SENIOR_OUT, 1, 1_000, 0, 10, 0, 10, 0)
  }

  const TRANCHES_ON := Step(SetTrancheConfig(10_000), true)
  const JUNIOR_ENTERS := Step(DepositJunior(0, 2_000), true)
  const SENIOR_ENTERS := Step(Deposit(1, 100), true)
  const FLUSH := Step(FlushToInsurance(10), true)
  const ADMIN_RETURNS := Step(ReturnInsurance(10), true)
  const WRAPPER_RETURNS := Step(RecoverFlushedInsurance(10), true)
  const WAIT := Step(AdvanceClock(10, 0), true)
  const SENIOR_LEAVES := Step(Withdraw(1, 100), true)
  const DRAIN := Step(FlushToInsurance(1_990), true)

  /** Both tranches enter, a flush is returned by both channels, senior leaves. */
  const STEPS: seq<Step> :=
    [] + [TRANCHES_ON] + [JUNIOR_ENTERS] + [SENIOR_ENTERS] + [FLUSH] + [ADMIN_RETURNS] + [WRAPPER_RETURNS]
    + [WAIT] + [SENIOR_LEAVES]

  lemma RunSnoc(w: World, steps: seq<Step>, s: Step)
    ensures Run(w, steps + [s]) == Apply(Run(w, steps), s)
  {
    assert (steps + [s])[..|steps|] == steps;
  }

  lemma JuniorBooked(w: World)
    requires w == Tranched()
    ensures Book(w, w.pool, 0, 2_000, 2_000, true) == Some(WithJunior())
  {
    assert RecordOf(w, 0) == NO_RECORD;
  }

  lemma AllJunior(p: Pool)
    requires p.withdrawn == p.flushed == p.returned == p.fees == p.realizedLoss == 0
    requires p.juniorBalance == p.deposited && p.lpSupply == p.juniorLp
    ensures Value(p) == p.deposited && Senior(p) == 0 && SeniorLp(p) == 0
  {
  }

  /** Empty books, tranches on, nothing to accrue. */
  lemma TranchedIsReady(w: World)
    requires w == Tranched()
    ensures w.pool.trancheEnabled && !w.pool.marketResolved && w.pool.depositCap == 0
    ensures Value(w.pool) == w.vault && w.pool.flushed == 0
    ensures w.pool.juniorLp == 0 && w.pool.juniorBalance == 0
    ensures Senior(w.pool) == 0 && SeniorLp(w.pool) == 0
  {
    hide Senior;
    hide SeniorLp;
    hide Value;
    AllJunior(w.pool);
  }

  lemma WithJuniorIsReady(w: World)
    requires w == WithJunior()
    ensures w.pool.trancheEnabled && !w.pool.marketResolved && w.pool.depositCap == 0
    ensures Value(w.pool) == w.vault && w.pool.flushed == 0
    ensures Senior(w.pool) == 0 && SeniorLp(w.pool) == 0
  {
    hide Senior;
    hide SeniorLp;
    hide Value;
    AllJunior(w.pool);
  }

  lemma NothingToAccrue(p: Pool, balance: u64)
    requires Value(p) == balance
    ensures Accrue(p, balance) == Some(p)
  {
  }

  lemma FirstJuniorPriced(p: Pool, amount: u64)
    requires p.juniorLp == 0 && p.juniorBalance == 0
    ensures CalcLpForDeposit(p.juniorLp, Effective(p), amount) == Some(amount)
  {
    DivUnique(amount * (0 + 1), 0 + 1, amount);
  }

  /** A first junior deposit with nothing to accrue and no loss goes straight to the books. */
  lemma FirstJuniorDeposit(w: World, user: User, amount: u64)
    requires w.pool.trancheEnabled && !w.pool.marketResolved && w.pool.depositCap == 0 && amount > 0
    requires Value(w.pool) == w.vault && w.pool.flushed == 0
    requires w.pool.juniorLp == 0 && w.pool.juniorBalance == 0
    requires Book(w, w.pool, user, amount, amount, true).Some?
    ensures Apply(w, Step(DepositJunior(user, amount), true)) == Book(w, w.pool, user, amount, amount, true).value
  {
    hide Book;
    hide CalcLpForDeposit;
    hide Accrue;
    NothingToAccrue(w.pool, w.vault);
    FirstJuniorPriced(w.pool, amount);
  }

  lemma JuniorEnters(w: World)
    requires w == Tranched()
    ensures Apply(w, JUNIOR_ENTERS) == WithJunior()
  {
    hide Apply;
    hide Book;
    hide Tranched;
    hide WithJunior;
    hide Value;
    TranchedIsReady(w);
    JuniorBooked(w);
    FirstJuniorDeposit(w, 0, 2_000);
  }

  /** The first deposit into an empty senior tranche is priced one to one. */
  lemma FirstSeniorPriced(p: Pool, amount: u64)
    requires p.trancheEnabled && FitsU64(Value(p)) && Senior(p) == 0 && SeniorLp(p) == 0
    ensures PriceDeposit(p, amount) == Some(amount)
  {
    DivUnique(amount * (0 + 1), 0 + 1, amount);
  }

  /** The same for a first senior deposit. */
  lemma FirstSeniorDeposit(w: World, user: User, amount: u64)
    requires w.pool.trancheEnabled && !w.pool.marketResolved && w.pool.depositCap == 0 && amount > 0
    requires Value(w.pool) == w.vault && w.pool.flushed == 0
    requires Senior(w.pool) == 0 && SeniorLp(w.pool) == 0
    requires Book(w, w.pool, user, amount, amount, false).Some?
    ensures Apply(w, Step(Deposit(user, amount), true)) == Book(w, w.pool, user, amount, amount, false).value
  {
    hide Book;
    hide PriceDeposit;
    hide Accrue;
    NothingToAccrue(w.pool, w.vault);
    FirstSeniorPriced(w.pool, amount);
  }

  lemma SeniorBooked(w: World)
    requires w == WithJunior()
    ensures Book(w, w.pool, 1, 100, 100, false) == Some(WithSenior())
  {
    assert RecordOf(w, 1) == NO_RECORD;
  }

  lemma SeniorEnters(w: World)
    requires w == WithJunior()
    ensures Apply(w, SENIOR_ENTERS) == WithSenior()
  {
    hide Apply;
    hide Book;
    hide WithJunior;
    hide WithSenior;
    hide Value;
    hide Senior;
    WithJuniorIsReady(w);
    SeniorBooked(w);
    FirstSeniorDeposit(w, 1, 100);
  }

  lemma TranchesOn(w: World)
    requires w == NewPool()
    ensures Apply(w, TRANCHES_ON) == Tranched()
  {
  }

  lemma FlushOnce(w: World)
    requires w == WithSenior()
    ensures Apply(w, FLUSH) == Flushed()
  {
  }

  lemma AdminReturns(w: World)
    requires w == Flushed()
    ensures Apply(w, ADMIN_RETURNS) == ReturnedOnce()
  {
    assert NetLoss(w.pool) == 10;
  }

  lemma WrapperReturns(w: World)
    requires w == ReturnedOnce()
    ensures Apply(w, WRAPPER_RETURNS) == ReturnedTwice(1)
  {
  }

  lemma FlushAgain(w: World)
    requires w == SeniorGone()
    ensures Succeeds(w, FLUSH) && Apply(w, FLUSH) == FlushedAgain()
  {
  }

  lemma ClockMoves(w: World)
    requires w == ReturnedTwice(1)
    ensures Apply(w, WAIT) == ReturnedTwice(10)
  {
  }

  lemma SeniorPaid(p: Pool)
    requires p == ReturnedTwice(10).pool
    ensures Payout(p, false, 100) == Some(109)
    ensures TakeOut(p, false, 100, 109) == Some(SeniorGone().pool)
  {
    var pay := Quotient(100 * (110 + 1), 100 + 1);
    DivUnique(100 * (110 + 1), 100 + 1, 109);
  }

  lemma SeniorLeaves(w: World)
    requires w == ReturnedTwice(10)
    ensures Apply(w, SENIOR_LEAVES) == SeniorGone()
  {
    hide Accrue;
    hide Payout;
    hide TakeOut;
    SeniorPaid(w.pool);
    NothingToAccrue(w.pool, w.vault);
  }

  lemma RunEmpty(w: World)
    ensures Run(w, []) == w
  {
  }

  lemma EndsFlushedAgain()
    ensures Run(NewPool(), STEPS) == SeniorGone()
    ensures Succeeds(SeniorGone(), FLUSH)
    ensures Run(NewPool(), STEPS + [FLUSH]) == FlushedAgain()
  {
    hide Apply;
    hide Succeeds;
    hide Run;
    var w := NewPool();
    RunEmpty(w);
    var r0: seq<Step> := [];
    var r1 := r0 + [TRANCHES_ON];
    var r2 := r1 + [JUNIOR_ENTERS];
    var r3 := r2 + [SENIOR_ENTERS];
    var r4 := r3 + [FLUSH];
    var r5 := r4 + [ADMIN_RETURNS];
    var r6 := r5 + [WRAPPER_RETURNS];
    var r7 := r6 + [WAIT];
    RunSnoc(w, r0, TRANCHES_ON);
    TranchesOn(w);
    RunSnoc(w, r1, JUNIOR_ENTERS);
    JuniorEnters(Tranched());
    RunSnoc(w, r2, SENIOR_ENTERS);
    SeniorEnters(WithJunior());
    RunSnoc(w, r3, FLUSH);
    FlushOnce(WithSenior());
    RunSnoc(w, r4, ADMIN_RETURNS);
    AdminReturns(Flushed());
    RunSnoc(w, r5, WRAPPER_RETURNS);
    WrapperReturns(ReturnedOnce());
    RunSnoc(w, r6, WAIT);
    ClockMoves(ReturnedTwice(1));
    RunSnoc(w, r7, SENIOR_LEAVES);
    SeniorLeaves(ReturnedTwice(10));
    RunSnoc(w, STEPS, FLUSH);
    FlushAgain(SeniorGone());
  }

  /** Every instruction of the run is accepted; after it the pool is solvent and over-returned,
      and one more accepted flush leaves junior's claim above the pool value, so senior's
      balance is undefined. That flush is the uncovered one. */
  lemma BothChannelsCanBreakSolvency()
    ensures Init(NewPool())
    ensures var e := Run(NewPool(), STEPS);
            && Solvent(e.pool) && OverReturned(e.pool)
            && Succeeds(e, FLUSH) && !FlushCovered(e.pool, 10)
    ensures var e := Run(NewPool(), STEPS + [FLUSH]);
            && Effective(e.pool) == 2_000 && Value(e.pool) == 1_991
            && SeniorBalance(e.pool) == None
  {
    hide Run;
    EndsFlushedAgain();
  }

  lemma Drains(w: World)
    requires w == FlushedAgain()
    ensures Succeeds(w, DRAIN) && Apply(w, DRAIN) == Drained()
  {
  }

  lemma JuniorRefused(w: World)
    requires w == Drained()
    ensures Payout(w.pool, true, 1_000) == Some(5)
    ensures Accrue(w.pool, w.vault) == Some(w.pool)
    ensures ExecWithdraw(w, 0, 1_000) == None
  {
    hide Accrue;
    hide TakeOut;
    DivUnique(1_000 * (10 + 1), 2_000 + 1, 5);
    NothingToAccrue(w.pool, w.vault);
  }

  /** In an insolvent state the vault can be what rejects a withdrawal: one more flush, and
      junior's circulating shares, off cooldown, are worth more than the vault holds. */
  lemma VaultCanReject()
    ensures var e := Run(NewPool(), STEPS + [FLUSH] + [DRAIN]);
            && Accrue(e.pool, e.vault) == Some(e.pool) && Payout(e.pool, true, 1_000) == Some(5) && e.vault == 1
            && RecordOf(e, 0).junior && 1_000 <= RecordOf(e, 0).lp && 1_000 <= e.circulating
            && e.slot >= RecordOf(e, 0).lastDepositSlot + e.pool.cooldown
            && ExecWithdraw(e, 0, 1_000) == None
  {
    hide Apply;
    hide Succeeds;
    hide Run;
    hide Accrue;
    hide Payout;
    hide ExecWithdraw;
    EndsFlushedAgain();
    RunSnoc(NewPool(), STEPS + [FLUSH], DRAIN);
    Drains(FlushedAgain());
    JuniorRefused(Drained());
  }
}
