/** The insurance ledger: what each step moves between pool, wrapper and admin, what any run
    of recoveries can reach, and what resolution freezes. */
module Insurance {
  import opened Numbers
  import opened Ledger
  import opened Instructions
  import opened Effects
  import opened Invariants

  function FlushedBy(w: World, s: Step): nat {
    if Succeeds(w, s) && s.i.FlushToInsurance? then s.i.amount else 0
  }

  function RecoveredBy(w: World, s: Step): nat {
    if Succeeds(w, s) && s.i.RecoverFlushedInsurance? then s.i.amount else 0
  }

  function ReturnedBy(w: World, s: Step): nat {
    if Succeeds(w, s) && s.i.ReturnInsurance? then s.i.amount else 0
  }

  /** The loss settled by the step: positive only when the last junior leaves under a loss. */
  function ForfeitedBy(w: World, s: Step): int {
    Apply(w, s).pool.realizedLoss - w.pool.realizedLoss
  }

  /** The insurance side of a withdrawal: at most a forfeit, booked as returned and as lost. */
  lemma WithdrawForfeits(w: World, i: Instruction)
    requires Inv(w) && i.Withdraw? && Exec(w, i).Some?
    ensures var w' := Exec(w, i).value;
            var f := w'.pool.realizedLoss - w.pool.realizedLoss;
            && w'.pool.flushed == w.pool.flushed && w'.pool.recovered == w.pool.recovered
            && w'.adminReturned == w.adminReturned
            && w'.pool.returned == w.pool.returned + f && 0 <= f <= NetLoss(w.pool)
            && (f > 0 ==> w'.pool.juniorLp == 0)
  {
    hide Accrue;
    hide ExecWithdraw;
    hide Payout;
    hide TakeOut;
    var p, out := WithdrawFacts(w, i.user, i.lp);
    AccrueFacts(w.pool, w.vault);
    TakeOutFacts(Marked(p, Exec(w, i).value.pool), RecordOf(w, i.user).junior, i.lp, out);
  }

  lemma InsuranceMoves(w: World, i: Instruction)
    requires Exec(w, i).Some?
    requires i.FlushToInsurance? || i.ReturnInsurance? || i.RecoverFlushedInsurance?
    ensures var w' := Exec(w, i).value;
            && w'.pool.flushed == w.pool.flushed + (if i.FlushToInsurance? then i.amount else 0)
            && w'.pool.recovered == w.pool.recovered + (if i.RecoverFlushedInsurance? then i.amount else 0)
            && w'.adminReturned == w.adminReturned + (if i.ReturnInsurance? then i.amount else 0)
            && w'.pool.returned == w.pool.returned + (if i.FlushToInsurance? then 0 else i.amount)
            && w'.pool.realizedLoss == w.pool.realizedLoss
            && (i.RecoverFlushedInsurance? ==> i.amount <= Recoverable(w.pool))
            && (i.ReturnInsurance? ==> i.amount <= NetLoss(w.pool))
  {
  }

  ghost predicate NoInsurance(w: World, w': World) {
    && w'.pool.flushed == w.pool.flushed && w'.pool.recovered == w.pool.recovered
    && w'.pool.returned == w.pool.returned && w'.pool.realizedLoss == w.pool.realizedLoss
    && w'.adminReturned == w.adminReturned
  }

  lemma DepositsMoveNoInsurance(w: World, i: Instruction)
    requires Inv(w) && Exec(w, i).Some? && (i.Deposit? || i.DepositJunior?)
    ensures NoInsurance(w, Exec(w, i).value)
  {
    hide Accrue;
    hide ExecDeposit;
    hide ExecDepositJunior;
    hide Book;
    var p, lp := AnyDepositFacts(w, i);
    AccrueFacts(w.pool, w.vault);
    BookFacts(w, p, i.user, i.amount, lp, i.DepositJunior?);
  }

  lemma OthersMoveNoInsurance(w: World, i: Instruction)
    requires Inv(w) && Exec(w, i).Some?
    requires !i.Withdraw? && !i.FlushToInsurance? && !i.ReturnInsurance? && !i.RecoverFlushedInsurance?
    ensures NoInsurance(w, Exec(w, i).value)
  {
    hide Accrue;
    hide ExecDeposit;
    hide ExecDepositJunior;
    hide ExecConfig;
    match i
    case Deposit(_, _) => DepositsMoveNoInsurance(w, i);
    case DepositJunior(_, _) => DepositsMoveNoInsurance(w, i);
    case AccrueFees => AccrueFacts(w.pool, w.vault);
    case TransferToVault(_) =>
    case BurnLp(_) =>
    case AdvanceClock(_, _) =>
    case _ => ConfigKeepsBooks(w.pool, w.slot, i);
  }

  /** Every step, accepted or not, moves the four insurance counters by exactly the flows it
      carries; a forfeit is a settlement of loss still outstanding. */
  lemma InsuranceFlows(w: World, s: Step)
    requires Inv(w)
    ensures var w' := Apply(w, s);
            && w'.pool.flushed == w.pool.flushed + FlushedBy(w, s)
            && w'.pool.recovered == w.pool.recovered + RecoveredBy(w, s)
            && w'.adminReturned == w.adminReturned + ReturnedBy(w, s)
            && w'.pool.returned == w.pool.returned + RecoveredBy(w, s) + ReturnedBy(w, s) + ForfeitedBy(w, s)
            && 0 <= ForfeitedBy(w, s) <= NetLoss(w.pool)
            && (ForfeitedBy(w, s) > 0 ==> s.i.Withdraw? && w'.pool.juniorLp == 0)
            && RecoveredBy(w, s) <= Recoverable(w.pool)
            && ReturnedBy(w, s) <= NetLoss(w.pool)
  {
    hide Exec;
    if Succeeds(w, s) {
      match s.i
      case Withdraw(_, _) => WithdrawForfeits(w, s.i);
      case FlushToInsurance(_) => InsuranceMoves(w, s.i);
      case ReturnInsurance(_) => InsuranceMoves(w, s.i);
      case RecoverFlushedInsurance(_) => InsuranceMoves(w, s.i);
      case _ => OthersMoveNoInsurance(w, s.i);
    }
  }

  // ------------------------------------------------------------ ledger closure

  /** In every reachable state the ledger closes, so the recoverable amount never saturates
      and the resolve gate is open exactly when all of it has come back or been forfeited. */
  lemma WrapperLedgerCloses(init: World, steps: seq<Step>)
    requires Init(init)
    ensures var w := Run(init, steps);
            && w.pool.returned == w.pool.recovered + w.adminReturned + w.pool.realizedLoss
            && WrapperRecoverable(w.pool) == w.pool.flushed - w.pool.realizedLoss - w.pool.recovered
            && (WrapperRecoverable(w.pool) == 0 <==> w.pool.recovered + w.pool.realizedLoss == w.pool.flushed)
  {
    InitInv(init);
    RunKeepsInv(init, steps);
  }

  /** Each step changes the recoverable amount by its own flows: a recovery takes exactly its
      amount off, a flush adds, a forfeit writes down. */
  lemma RecoverableStep(w: World, s: Step)
    requires Inv(w)
    ensures var w' := Apply(w, s);
            && WrapperRecoverable(w'.pool) ==
               WrapperRecoverable(w.pool) + FlushedBy(w, s) - RecoveredBy(w, s) - ForfeitedBy(w, s)
            && (Succeeds(w, s) && s.i.RecoverFlushedInsurance? ==>
                  WrapperRecoverable(w'.pool) < WrapperRecoverable(w.pool))
  {
    hide Apply;
    InsuranceFlows(w, s);
    StepKeepsInv(w, s);
  }

  /** The pool has been returned too much by exactly what the admin put in beyond what the wrapper
      still owes, and too little by exactly what the wrapper owes beyond what the admin put in. */
  lemma SurplusIsAdminExcess(w: World)
    requires Inv(w)
    ensures Surplus(w.pool) == Monus(w.adminReturned, WrapperRecoverable(w.pool))
    ensures NetLoss(w.pool) == Monus(WrapperRecoverable(w.pool), w.adminReturned)
    ensures WrapperRecoverable(w.pool) == Recoverable(w.pool)
  {
  }

  ghost predicate CountersGrow(p: Pool, q: Pool) {
    p.flushed <= q.flushed && p.recovered <= q.recovered && p.returned <= q.returned && p.realizedLoss <= q.realizedLoss
  }

  lemma {:induction false} RunGrowsCounters(w: World, steps: seq<Step>)
    requires Inv(w)
    ensures CountersGrow(w.pool, Run(w, steps).pool)
    decreases |steps|
  {
    hide Apply;
    hide Inv;
    if steps != [] {
      var before := steps[..|steps| - 1];
      RunGrowsCounters(w, before);
      RunKeepsInv(w, before);
      InsuranceFlows(Run(w, before), steps[|steps| - 1]);
    }
  }

  /** However a run interleaves recoveries with anything else, the wrapper pays out no more
      than was recoverable at the start plus what the run itself flushed. */
  lemma RecoveriesBounded(w: World, steps: seq<Step>)
    requires Inv(w)
    ensures var e := Run(w, steps);
            e.pool.recovered - w.pool.recovered <= WrapperRecoverable(w.pool) + (e.pool.flushed - w.pool.flushed)
  {
    RunGrowsCounters(w, steps);
    RunKeepsInv(w, steps);
  }

  // --------------------------------------------------------------- resolution

  /** Resolved with nothing left in the wrapper. */
  ghost predicate Settled(w: World) {
    w.pool.marketResolved && Recoverable(w.pool) == 0
  }

  ghost predicate Frozen(p: Pool, q: Pool) {
    && q.deposited == p.deposited && q.flushed == p.flushed && q.returned == p.returned
    && q.recovered == p.recovered && q.realizedLoss == p.realizedLoss
  }

  lemma ResolveSettles(w: World, s: Step)
    requires Inv(w) && Succeeds(w, s) && s.i.SetMarketResolved?
    ensures Settled(Apply(w, s)) && NetLoss(Apply(w, s).pool) == 0
  {
  }

  lemma WithdrawKeepsFlags(w: World, user: User, lp: u64)
    requires Inv(w) && ExecWithdraw(w, user, lp).Some?
    ensures var q := ExecWithdraw(w, user, lp).value.pool;
            q.deposited == w.pool.deposited && q.marketResolved == w.pool.marketResolved
            && q.trancheEnabled == w.pool.trancheEnabled
  {
    hide Accrue;
    hide ExecWithdraw;
    hide Payout;
    hide TakeOut;
    var p, out := WithdrawFacts(w, user, lp);
    AccrueFacts(w.pool, w.vault);
    TakeOutFacts(Marked(p, ExecWithdraw(w, user, lp).value.pool), RecordOf(w, user).junior, lp, out);
  }

  lemma ResolvedStays(p: Pool, slot: u64, i: Instruction)
    requires IsConfig(i) && ExecConfig(p, slot, i).Some? && p.marketResolved
    ensures ExecConfig(p, slot, i).value.marketResolved
  {
  }

  lemma StepKeepsSettled(w: World, s: Step)
    requires Inv(w) && Settled(w)
    ensures Settled(Apply(w, s)) && Frozen(w.pool, Apply(w, s).pool)
  {
    hide Accrue;
    hide ExecWithdraw;
    hide ExecConfig;
    if Succeeds(w, s) {
      match s.i
      case Deposit(_, _) =>
      case DepositJunior(_, _) =>
      case Withdraw(user, lp) =>
        WithdrawForfeits(w, s.i);
        WithdrawKeepsFlags(w, user, lp);
      case AccrueFees => AccrueFacts(w.pool, w.vault);
      case FlushToInsurance(_) =>
      case ReturnInsurance(_) =>
      case RecoverFlushedInsurance(_) =>
      case TransferToVault(_) =>
      case BurnLp(_) =>
      case AdvanceClock(_, _) =>
      case _ =>
        ConfigKeepsBooks(w.pool, w.slot, s.i);
        ResolvedStays(w.pool, w.slot, s.i);
    }
  }

  lemma {:induction false} RunKeepsSettled(w: World, steps: seq<Step>)
    requires Inv(w) && Settled(w)
    ensures Settled(Run(w, steps)) && Frozen(w.pool, Run(w, steps).pool)
    decreases |steps|
  {
    hide Apply;
    hide Inv;
    if steps != [] {
      var before := steps[..|steps| - 1];
      RunKeepsSettled(w, before);
      RunKeepsInv(w, before);
      StepKeepsSettled(Run(w, before), steps[|steps| - 1]);
    }
  }

  /** After an accepted SetMarketResolved, in every continuation: the deposited, flushed,
      returned, recovered and realized-loss counters are frozen, no loss is outstanding,
      junior is worth its whole balance, and only payouts and fees move the pool value. */
  lemma ResolutionFreezes(w: World, s: Step, steps: seq<Step>)
    requires Inv(w) && Succeeds(w, s) && s.i.SetMarketResolved?
    ensures var r, e := Apply(w, s).pool, Run(Apply(w, s), steps).pool;
            && e.marketResolved && Frozen(r, e)
            && NetLoss(e) == 0 && Effective(e) == e.juniorBalance
            && Value(e) == Value(r) - (e.withdrawn - r.withdrawn) + (e.fees - r.fees)
  {
    hide Apply;
    ResolveSettles(w, s);
    StepKeepsInv(w, s);
    RunKeepsSettled(Apply(w, s), steps);
    RunKeepsInv(Apply(w, s), steps);
  }
}
