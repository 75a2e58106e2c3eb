/** A last junior leaving under a loss, with numbers: the exit is accepted, forfeits the loss it
    bore, and leaves junior deposits shut. */
module LastExit {
  import opened Numbers
  import opened ShareMath
  import opened Ledger
  import opened Instructions
  import OverReturn

  const SENIOR_IN := map[1 := Record(true, 2_000, false, 1)]
  const BOTH_IN := SENIOR_IN[0 := Record(true, 100, true, 1)]
  const JUNIOR_OUT := BOTH_IN[0 := Record(false, 0, false, 1)]

  function WithSenior(): World {
    World(OverReturn.Books(2_000, 0, 0, 0, 0, 0, 2_000, 0, 0), SENIOR_IN, 2_000, 1_000, 0, 0, 0, 1, 0)
  }

  function WithJunior(): World {
    World(OverReturn.Books(2_100, 0, 0, 0, 0, 0, 2_100, 100, 100), BOTH_IN, 2_100, 1_100, 0, 0, 0, 1, 0)
  }

  /** Half of the junior balance is flushed, and the cooldown passes. */
  function UnderLoss(slot: u64): World {
    World(OverReturn.Books(2_100, 0, 50, 0, 0, 0, 2_100, 100, 100), BOTH_IN, 2_050, 1_100, 0, 0, 0, slot, 0)
  }

  function JuniorGone(): World {
    World(OverReturn.Books(2_100, 50, 50, 50, 50, 0, 2_000, 0, 0), JUNIOR_OUT, 2_000, 1_000, 0, 0, 0, 10, 0)
  }

  const SENIOR_ENTERS := Step(Deposit(1, 2_000), true)
  const JUNIOR_ENTERS := Step(DepositJunior(0, 100), true)
  const FLUSH := Step(FlushToInsurance(50), true)
  const WAIT := Step(AdvanceClock(10, 0), true)
  const JUNIOR_LEAVES := Step(Withdraw(0, 100), true)

  /** Both tranches enter, a loss comes, the cooldown passes. */
  const STEPS: seq<Step> :=
    [] + [OverReturn.TRANCHES_ON] + [SENIOR_ENTERS] + [JUNIOR_ENTERS] + [FLUSH] + [WAIT]

  lemma SeniorBooked(w: World)
    requires w == OverReturn.Tranched()
    ensures Book(w, w.pool, 1, 2_000, 2_000, false) == Some(WithSenior())
  {
    assert RecordOf(w, 1) == NO_RECORD;
  }

  lemma SeniorEnters(w: World)
    requires w == OverReturn.Tranched()
    ensures Apply(w, SENIOR_ENTERS) == WithSenior()
  {
    hide Apply;
    hide Book;
    hide OverReturn.Tranched;
    hide WithSenior;
    hide Value;
    hide Senior;
    OverReturn.TranchedIsReady(w);
    SeniorBooked(w);
    OverReturn.FirstSeniorDeposit(w, 1, 2_000);
  }

  lemma JuniorBooked(w: World)
    requires w == WithSenior()
    ensures Book(w, w.pool, 0, 100, 100, true) == Some(WithJunior())
  {
    assert RecordOf(w, 0) == NO_RECORD;
  }

  lemma JuniorEnters(w: World)
    requires w == WithSenior()
    ensures Apply(w, JUNIOR_ENTERS) == WithJunior()
  {
    hide Apply;
    hide Book;
    JuniorBooked(w);
    OverReturn.FirstJuniorDeposit(w, 0, 100);
  }

  lemma LossComes(w: World)
    requires w == WithJunior()
    ensures Apply(Apply(w, FLUSH), WAIT) == UnderLoss(10)
  {
    assert ExecFlush(w, 50) == Some(UnderLoss(1));
  }

  lemma FiftyOfHundred()
    ensures CalcCollateralForWithdraw(100, 50, 100) == Some(50)
  {
    DivUnique(100 * (50 + 1), 100 + 1, 50);
  }

  lemma JuniorPaid(p: Pool)
    requires p == UnderLoss(10).pool
    ensures Payout(p, true, 100) == Some(50)
    ensures TakeOut(p, true, 100, 50) == Some(JuniorGone().pool)
  {
    assert Effective(p) == 50;
    FiftyOfHundred();
  }

  lemma JuniorLeaves(w: World)
    requires w == UnderLoss(10)
    ensures Succeeds(w, JUNIOR_LEAVES) && Apply(w, JUNIOR_LEAVES) == JuniorGone()
  {
    hide Accrue;
    hide Payout;
    hide TakeOut;
    JuniorPaid(w.pool);
    OverReturn.NothingToAccrue(w.pool, w.vault);
  }

  lemma GateShut(w: World, user: User, amount: u64)
    requires w == JuniorGone()
    ensures ExecDepositJunior(w, user, amount) == None
  {
    hide Accrue;
    assert Value(w.pool) == 2_000 == w.vault;
    OverReturn.NothingToAccrue(w.pool, w.vault);
    assert PhysicalNetLoss(w.pool) == 50;
  }

  /** No user and no amount can enter the junior tranche after this exit, although every
      junior is gone and the whole loss has been settled. */
  lemma ExitDoesNotReopen(user: User, amount: u64)
    ensures var before, after := Run(OverReturn.NewPool(), STEPS), Run(OverReturn.NewPool(), STEPS + [JUNIOR_LEAVES]);
            && Succeeds(before, JUNIOR_LEAVES)
            && before.pool.juniorLp == 100 && after.pool.juniorLp == 0
            && after.pool.realizedLoss == 50 && NetLoss(after.pool) == 0
            && ExecDepositJunior(after, user, amount) == None
  {
    hide Apply;
    hide Succeeds;
    hide Run;
    hide ExecDepositJunior;
    var w := OverReturn.NewPool();
    OverReturn.RunEmpty(w);
    var r0: seq<Step> := [];
    var r1 := r0 + [OverReturn.TRANCHES_ON];
    var r2 := r1 + [SENIOR_ENTERS];
    var r3 := r2 + [JUNIOR_ENTERS];
    var r4 := r3 + [FLUSH];
    OverReturn.RunSnoc(w, r0, OverReturn.TRANCHES_ON);
    OverReturn.TranchesOn(w);
    OverReturn.RunSnoc(w, r1, SENIOR_ENTERS);
    SeniorEnters(OverReturn.Tranched());
    OverReturn.RunSnoc(w, r2, JUNIOR_ENTERS);
    JuniorEnters(WithSenior());
    OverReturn.RunSnoc(w, r3, FLUSH);
    OverReturn.RunSnoc(w, r4, WAIT);
    LossComes(WithJunior());
    OverReturn.RunSnoc(w, STEPS, JUNIOR_LEAVES);
    JuniorLeaves(UnderLoss(10));
    GateShut(JuniorGone(), user, amount);
  }
}
