/** Share prices over runs. A price is (worth + 1) / (shares + 1), kept per tranche; in a
    pool without tranches the senior price is the price of the whole pool. Nothing here asks
    for a solvent pool: where junior's claim exceeds the value, senior's worth is negative and
    its price still does not fall. */
module SharePrice {
  import opened Numbers
  import opened ShareMath
  import opened Ledger
  import opened Instructions
  import opened Effects
  import opened Invariants
  import opened Tranches
  import opened Insurance

  /** The price of a tranche does not fall from `p` to `q`. */
  ghost predicate NotCheaper(p: Pool, q: Pool, junior: bool) {
    PriceNotLower(Worth(p, junior), Holding(p, junior), Worth(q, junior), Holding(q, junior))
  }

  lemma NotCheaperTransitive(p: Pool, q: Pool, r: Pool, junior: bool)
    requires NotCheaper(p, q, junior) && NotCheaper(q, r, junior)
    ensures NotCheaper(p, r, junior)
  {
    PriceTransitive(Worth(p, junior), Holding(p, junior), Worth(q, junior), Holding(q, junior),
                    Worth(r, junior), Holding(r, junior));
  }

  /** No shares moved and the worth did not fall. */
  lemma NotCheaperAtSameHolding(p: Pool, q: Pool, junior: bool)
    requires Worth(p, junior) <= Worth(q, junior) && Holding(p, junior) == Holding(q, junior)
    ensures NotCheaper(p, q, junior)
  {
    PriceAtSameSupply(Worth(p, junior), Worth(q, junior), Holding(p, junior));
  }

  /** The step burns the last junior share. */
  ghost predicate EndsJunior(w: World, s: Step) {
    w.pool.juniorLp > 0 && Apply(w, s).pool.juniorLp == 0
  }

  lemma AccrualNotCheaper(w: World, p: Pool, junior: bool)
    requires Inv(w) && Accrue(w.pool, w.vault) == Some(p)
    ensures NotCheaper(w.pool, p, junior)
  {
    hide Accrue;
    hide NotCheaper;
    AccrueFacts(w.pool, w.vault);
    AccrueMoves(w.pool, w.vault);
    NotCheaperAtSameHolding(w.pool, p, junior);
  }

  lemma DepositNotCheaper(w: World, i: Instruction, junior: bool)
    requires Inv(w) && Exec(w, i).Some? && (i.Deposit? || i.DepositJunior?)
    ensures NotCheaper(w.pool, Exec(w, i).value.pool, junior)
  {
    hide Accrue;
    hide ExecDeposit;
    hide ExecDepositJunior;
    hide Mint;
    hide PriceNotLower;
    var q := Exec(w, i).value.pool;
    var p: Pool, lp;
    if i.Deposit? {
      p, lp := DepositMoves(w, i.user, i.amount);
    } else {
      p, lp := DepositJuniorMoves(w, i.user, i.amount);
    }
    AccrueMoves(w.pool, w.vault);
    if junior == i.DepositJunior? {
      MintKeepsPrice(Holding(p, junior), Worth(p, junior), i.amount);
    } else {
      NotCheaperAtSameHolding(p, q, junior);
    }
    AccrualNotCheaper(w, p, junior);
    NotCheaperTransitive(w.pool, p, q, junior);
  }

  lemma WithdrawNotCheaper(w: World, i: Instruction, junior: bool)
    requires Inv(w) && i.Withdraw? && Exec(w, i).Some?
    requires junior ==> !(w.pool.juniorLp > 0 && Exec(w, i).value.pool.juniorLp == 0)
    ensures NotCheaper(w.pool, Exec(w, i).value.pool, junior)
  {
    hide Accrue;
    hide ExecWithdraw;
    hide Redeem;
    hide PriceNotLower;
    var user, lp := i.user, i.lp;
    var q := Exec(w, i).value.pool;
    var p, out := WithdrawMoves(w, user, lp);
    AccrueFacts(w.pool, w.vault);
    AccrueMoves(w.pool, w.vault);
    if junior == RecordOf(w, user).junior {
      RedeemKeepsPrice(Holding(p, junior), Worth(p, junior), lp);
    } else {
      NotCheaperAtSameHolding(p, q, junior);
    }
    AccrualNotCheaper(w, p, junior);
    NotCheaperTransitive(w.pool, p, q, junior);
  }

  lemma AccrueFeesNotCheaper(w: World, i: Instruction, junior: bool)
    requires Inv(w) && i.AccrueFees? && Exec(w, i).Some?
    ensures NotCheaper(w.pool, Exec(w, i).value.pool, junior)
  {
    hide Accrue;
    hide NotCheaper;
    AccrualNotCheaper(w, Exec(w, i).value.pool, junior);
  }

  lemma SharesUnmoved(w: World, i: Instruction, junior: bool)
    requires Inv(w) && Exec(w, i).Some? && !i.FlushToInsurance?
    requires !i.Deposit? && !i.DepositJunior? && !i.Withdraw? && !i.AccrueFees?
    ensures NotCheaper(w.pool, Exec(w, i).value.pool, junior)
  {
    hide Inv;
    hide ExecConfig;
    hide NotCheaper;
    if IsConfig(i) {
      ConfigKeepsBooks(w.pool, w.slot, i);
    }
    NotCheaperAtSameHolding(w.pool, Exec(w, i).value.pool, junior);
  }

  /** Any step but an accepted flush: neither tranche gets cheaper, except that the last
      junior's exit ends the junior price. */
  lemma StepNotCheaper(w: World, s: Step, junior: bool)
    requires Inv(w)
    requires Succeeds(w, s) ==> !s.i.FlushToInsurance?
    requires junior ==> !EndsJunior(w, s)
    ensures NotCheaper(w.pool, Apply(w, s).pool, junior)
  {
    hide Exec;
    hide NotCheaper;
    if !Succeeds(w, s) {
      NotCheaperAtSameHolding(w.pool, w.pool, junior);
    } else {
      match s.i
      case Deposit(_, _) => DepositNotCheaper(w, s.i, junior);
      case DepositJunior(_, _) => DepositNotCheaper(w, s.i, junior);
      case Withdraw(user, lp) => WithdrawNotCheaper(w, s.i, junior);
      case AccrueFees => AccrueFeesNotCheaper(w, s.i, junior);
      case _ => SharesUnmoved(w, s.i, junior);
    }
  }

  /** A flush of `amount` takes something from the tranche: from senior when there is a surplus
      to eat or junior cannot bear it, from junior when it goes beyond the surplus. */
  predicate FlushReaches(p: Pool, amount: u64, junior: bool) {
    if junior then Effective(p) > 0 && amount > Surplus(p)
    else Surplus(p) > 0 || amount > Effective(p)
  }

  lemma FlushCheaperIff(w: World, amount: u64, junior: bool)
    requires ExecFlush(w, amount).Some?
    ensures NotCheaper(w.pool, ExecFlush(w, amount).value.pool, junior) <==> !FlushReaches(w.pool, amount, junior)
  {
    hide PriceNotLower;
    var p, q := w.pool, ExecFlush(w, amount).value.pool;
    LossAdded(p, q, amount);
    PriceAtSameSupply(Worth(p, junior), Worth(q, junior), Holding(p, junior));
  }

  /** At any step from any state of the invariant a tranche's price falls exactly when the step
      is an accepted flush that reaches it. */
  lemma PriceFallsIff(w: World, s: Step, junior: bool)
    requires Inv(w)
    requires junior ==> !EndsJunior(w, s)
    ensures NotCheaper(w.pool, Apply(w, s).pool, junior)
            <==> !(Succeeds(w, s) && s.i.FlushToInsurance? && FlushReaches(w.pool, s.i.amount, junior))
  {
    hide NotCheaper;
    hide FlushReaches;
    hide ExecFlush;
    if Succeeds(w, s) && s.i.FlushToInsurance? {
      FlushCheaperIff(w, s.i.amount, junior);
    } else {
      StepNotCheaper(w, s, junior);
    }
  }

  /** In a pool with no junior every accepted flush lowers the price, and nothing else does. */
  lemma PriceFallsOnlyByFlush(w: World, s: Step)
    requires Inv(w) && w.pool.juniorLp == 0
    ensures NotCheaper(w.pool, Apply(w, s).pool, false) <==> !(Succeeds(w, s) && s.i.FlushToInsurance?)
  {
    hide NotCheaper;
    PriceFallsIff(w, s, false);
  }

  // -------------------------------------------------------------------- runs

  ghost predicate NoFlush(steps: seq<Step>) {
    forall k :: 0 <= k < |steps| ==> !steps[k].i.FlushToInsurance?
  }

  /** No step of the run burns the last junior share. */
  ghost predicate JuniorStays(w: World, steps: seq<Step>)
    decreases |steps|
  {
    steps != [] ==>
      && JuniorStays(w, steps[..|steps| - 1])
      && !EndsJunior(Run(w, steps[..|steps| - 1]), steps[|steps| - 1])
  }

  /** Over any run without flushes, no tranche ever gets cheaper (the junior one as long as
      its cohort lasts). */
  lemma {:induction false} PriceNeverFalls(w: World, steps: seq<Step>, junior: bool)
    requires Inv(w) && NoFlush(steps)
    requires junior ==> JuniorStays(w, steps)
    ensures NotCheaper(w.pool, Run(w, steps).pool, junior)
    decreases |steps|
  {
    hide Apply;
    hide Inv;
    hide NotCheaper;
    if steps == [] {
      NotCheaperAtSameHolding(w.pool, w.pool, junior);
    } else {
      var before, s := steps[..|steps| - 1], steps[|steps| - 1];
      PriceNeverFalls(w, before, junior);
      RunKeepsInv(w, before);
      StepNotCheaper(Run(w, before), s, junior);
      NotCheaperTransitive(w.pool, Run(w, before).pool, Run(w, steps).pool, junior);
    }
  }

  /** A run without flushes that ends with the shares a tranche started with leaves that
      tranche worth at least what it was. */
  lemma SameSharesNoLess(w: World, steps: seq<Step>, junior: bool)
    requires Inv(w) && NoFlush(steps)
    requires junior ==> JuniorStays(w, steps)
    requires Holding(Run(w, steps).pool, junior) == Holding(w.pool, junior)
    ensures Worth(w.pool, junior) <= Worth(Run(w, steps).pool, junior)
  {
    hide Inv;
    PriceNeverFalls(w, steps, junior);
    PriceAtSameSupply(Worth(w.pool, junior), Worth(Run(w, steps).pool, junior), Holding(w.pool, junior));
  }

  lemma {:induction false} NoFlushKeepsFlushed(w: World, steps: seq<Step>)
    requires Inv(w) && NoFlush(steps)
    ensures Run(w, steps).pool.flushed == w.pool.flushed
    decreases |steps|
  {
    hide Apply;
    hide Inv;
    if steps != [] {
      var before := steps[..|steps| - 1];
      NoFlushKeepsFlushed(w, before);
      RunKeepsInv(w, before);
      InsuranceFlows(Run(w, before), steps[|steps| - 1]);
    }
  }

  /** A run without flushes, with no junior at either end and back at the same supply: all
      who took part together withdrew no more than they paid in plus the fees and what the
      wrapper and the admin paid back. Forfeits add nothing. */
  lemma NoCoalitionProfit(w: World, steps: seq<Step>)
    requires Inv(w) && NoFlush(steps)
    requires w.pool.juniorLp == 0 && Run(w, steps).pool.juniorLp == 0
    requires Run(w, steps).pool.lpSupply == w.pool.lpSupply
    ensures var p, e := w.pool, Run(w, steps);
            e.pool.withdrawn - p.withdrawn <=
            (e.pool.deposited - p.deposited) + (e.pool.fees - p.fees)
            + (e.pool.recovered - p.recovered) + (e.adminReturned - w.adminReturned)
  {
    RunKeepsInv(w, steps);
    RunGrowsCounters(w, steps);
    SameSharesNoLess(w, steps, false);
    NoFlushKeepsFlushed(w, steps);
  }
}
