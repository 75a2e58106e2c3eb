/** A solvent pool under a loss whose exits are open, until one token is sent to its vault. */
module StalledExit {
  import opened Numbers
  import opened ShareMath
  import opened Ledger
  import opened Instructions
  import opened Invariants
  import opened Tranches
  import opened Accrual
  import OverReturn
  import LastExit

  const BOTH_IN := LastExit.SENIOR_IN[0 := Record(true, 2_000, true, 1)]

  function WithJunior(): World {
    World(OverReturn.Books(4_000, 0, 0, 0, 0, 0, 4_000, 2_000, 2_000), BOTH_IN, 4_000, 3_000, 0, 0, 0, 1, 0)
  }

  /** Junior is wiped by the loss, senior is left with half, and all of it is in the vault. */
  function UnderLoss(slot: u64): World {
    World(OverReturn.Books(4_000, 0, 3_000, 0, 0, 0, 4_000, 2_000, 2_000), BOTH_IN, 1_000, 3_000, 0, 0, 0, slot, 0)
  }

  function OneTokenMore(): World {
    World(OverReturn.Books(4_000, 0, 3_000, 0, 0, 0, 4_000, 2_000, 2_000), BOTH_IN, 1_001, 3_000, 0, 0, 1, 10, 0)
  }

  const JUNIOR_ENTERS := Step(DepositJunior(0, 2_000), true)
  const FLUSH := Step(FlushToInsurance(3_000), true)
  const WAIT := Step(AdvanceClock(10, 0), true)
  const TOKEN_ARRIVES := Step(TransferToVault(1), true)

  /** Both tranches enter, a loss comes, the cooldown passes. */
  const STEPS: seq<Step> :=
    [] + [OverReturn.TRANCHES_ON] + [LastExit.SENIOR_ENTERS] + [JUNIOR_ENTERS] + [FLUSH] + [WAIT]

  lemma JuniorBooked(w: World)
    requires w == LastExit.WithSenior()
    ensures Book(w, w.pool, 0, 2_000, 2_000, true) == Some(WithJunior())
  {
    assert RecordOf(w, 0) == NO_RECORD;
  }

  lemma JuniorEnters(w: World)
    requires w == LastExit.WithSenior()
    ensures Apply(w, JUNIOR_ENTERS) == WithJunior()
  {
    hide Apply;
    hide Book;
    JuniorBooked(w);
    OverReturn.FirstJuniorDeposit(w, 0, 2_000);
  }

  lemma LossComes(w: World)
    requires w == WithJunior()
    ensures Apply(Apply(w, FLUSH), WAIT) == UnderLoss(10)
  {
    assert ExecFlush(w, 3_000) == Some(UnderLoss(1));
  }

  lemma TokenArrives(w: World)
    requires w == UnderLoss(10)
    ensures Apply(w, TOKEN_ARRIVES) == OneTokenMore()
  {
  }

  /** A tenth of the senior holding is paid its share of what is left. */
  lemma SeniorPaid(w: World)
    requires w == UnderLoss(10)
    ensures ExecWithdraw(w, 1, 200).Some? && ExecWithdraw(w, 1, 200).value.vault == 900
  {
    hide Accrue;
    OverReturn.NothingToAccrue(w.pool, w.vault);
    DivUnique(200 * (1_000 + 1), 2_000 + 1, 100);
  }

  lemma Ends()
    ensures Run(OverReturn.NewPool(), STEPS) == UnderLoss(10)
    ensures Run(OverReturn.NewPool(), STEPS + [TOKEN_ARRIVES]) == OneTokenMore()
  {
    hide Apply;
    hide Run;
    var w := OverReturn.NewPool();
    OverReturn.RunEmpty(w);
    var r0: seq<Step> := [];
    var r1 := r0 + [OverReturn.TRANCHES_ON];
    var r2 := r1 + [LastExit.SENIOR_ENTERS];
    var r3 := r2 + [JUNIOR_ENTERS];
    var r4 := r3 + [FLUSH];
    OverReturn.RunSnoc(w, r0, OverReturn.TRANCHES_ON);
    OverReturn.TranchesOn(w);
    OverReturn.RunSnoc(w, r1, LastExit.SENIOR_ENTERS);
    LastExit.SeniorEnters(OverReturn.Tranched());
    OverReturn.RunSnoc(w, r2, JUNIOR_ENTERS);
    JuniorEnters(LastExit.WithSenior());
    OverReturn.RunSnoc(w, r3, FLUSH);
    OverReturn.RunSnoc(w, r4, WAIT);
    LossComes(WithJunior());
    OverReturn.RunSnoc(w, STEPS, TOKEN_ARRIVES);
    TokenArrives(UnderLoss(10));
  }

  /** Holders cannot always leave at the marked-down price. The pool is solvent and fully backed
      before and after the token; before it a senior withdrawal is paid, after it nobody is
      paid anything, until the vault again holds junior's gross balance. The token also leaves
      the vault above the pool value. */
  lemma OneTokenStopsWithdrawals(user: User, lp: u64, more: seq<Step>)
    ensures var before := Run(OverReturn.NewPool(), STEPS);
            && Solvent(before.pool) && before.vault == Value(before.pool) == 1_000
            && ExecWithdraw(before, 1, 200).Some? && ExecWithdraw(before, 1, 200).value.vault == 900
    ensures var after := Run(OverReturn.NewPool(), STEPS + [TOKEN_ARRIVES]);
            && Solvent(after.pool) && Value(after.pool) == 1_000 && after.vault == 1_001
            && Stalled(after) && ExecWithdraw(after, user, lp) == None
            && (ShortOf(after, more, 2_000) ==> ExecWithdraw(Run(after, more), user, lp) == None)
  {
    hide Run;
    hide ExecWithdraw;
    hide Inv;
    Ends();
    SeniorPaid(UnderLoss(10));
    var init, after := OverReturn.NewPool(), OneTokenMore();
    InitInv(init);
    RunKeepsInv(init, STEPS + [TOKEN_ARRIVES]);
    StallRejects(after, Withdraw(user, lp));
    if ShortOf(after, more, 2_000) {
      StallLasts(after, more);
      RunKeepsInv(after, more);
      StallRejects(Run(after, more), Withdraw(user, lp));
    }
  }
}
