/** The high-water mark over an epoch: how far withdrawals can draw a pool down. */
module HighWaterMark {
  import opened Numbers
  import opened ShareMath
  import opened Ledger
  import opened Instructions
  import opened Effects
  import opened Invariants
  import opened Insurance

  lemma FloorMonotone(low: nat, high: nat, bps: nat)
    requires low <= high
    ensures Floor(low, bps) <= Floor(high, bps)
  {
    var q := Quotient(low * bps, 10_000);
    MulMono(low, high, bps);
    QuotientIsLargest(high * bps, 10_000, q);
  }

  /** Lowering the mark by a loss lowers the floor by no more than the loss. */
  lemma FloorDropsByAtMost(mark: nat, loss: nat, bps: nat)
    requires bps <= 10_000
    ensures Floor(mark, bps) <= Floor(Monus(mark, loss), bps) + loss
  {
    var rest := Monus(mark, loss);
    var q := Quotient(rest * bps, 10_000);
    MulMono(bps, 10_000, mark - rest);
    Distribute(rest, mark - rest, bps);
    var f := Quotient(mark * bps, 10_000);
  }

  /** A floor of at most 9000 basis points leaves a tenth of the mark free; one of at least a
      basis point protects something of any mark of 10000 or more. */
  lemma FloorWithin(mark: nat, bps: nat)
    requires bps <= MAX_HWM_FLOOR_BPS
    ensures Floor(mark, bps) * 10 <= mark * 9
    ensures bps >= 1 && mark >= 10_000 ==> Floor(mark, bps) > 0
  {
    var q := Quotient(mark * bps, 10_000);
    MulMono(bps, MAX_HWM_FLOOR_BPS, mark);
    if bps >= 1 {
      MulMono(1, bps, mark);
    }
  }

  // ------------------------------------------------------------- the gate

  /** What a withdrawal may take from a pool worth `tvl`: down to the floor under the mark as the
      gate refreshes it first. */
  function Headroom(p: Pool, epoch: u64, tvl: u64): int {
    tvl - Floor(Refresh(p, epoch, tvl).hwmMark, p.hwmFloorBps)
  }

  /** A payout is within the headroom exactly when what it leaves is, to the unit, bps / 10000 of
      the refreshed mark. */
  lemma HeadroomIff(p: Pool, epoch: u64, tvl: u64, out: int)
    ensures out <= Headroom(p, epoch, tvl)
            <==> Refresh(p, epoch, tvl).hwmMark * p.hwmFloorBps < (tvl - out + 1) * 10_000
  {
    hide Floor;
    FloorReachedIff(Refresh(p, epoch, tvl).hwmMark, p.hwmFloorBps, tvl - out);
  }

  /** The mark is off, or what a payout leaves reaches bps / 10000 of the refreshed mark. */
  ghost predicate MarkAllows(p: Pool, epoch: u64, out: nat) {
    p.hwmEnabled && FitsU64(Value(p)) ==>
      Refresh(p, epoch, Value(p)).hwmMark * p.hwmFloorBps < (Value(p) - out + 1) * 10_000
  }

  /** A payout within the value passes the gate exactly when the mark allows it, and the gate
      moves nothing but the mark. */
  lemma HwmGateIff(p: Pool, epoch: u64, out: u64)
    requires FitsU64(Value(p)) && out <= Value(p) && p.hwmFloorBps <= MAX_HWM_FLOOR_BPS
    ensures HwmGate(p, epoch, out, true) == Some(p)
    ensures HwmGate(p, epoch, out, false).Some? <==> MarkAllows(p, epoch, out)
    ensures HwmGate(p, epoch, out, false).Some? ==>
              var q := HwmGate(p, epoch, out, false).value;
              q == Marked(p, q) == if p.hwmEnabled then Refresh(p, epoch, Value(p)) else p
  {
    hide HwmFloor;
  }

  /** With a mark lowered by at most a loss, the value left after the loss has no more headroom
      than the value before it, in this epoch or a new one. */
  lemma LossKeepsHeadroom(p: Pool, q: Pool, epoch: u64, tvl: u64, loss: nat)
    requires q.hwmEpoch == p.hwmEpoch && q.hwmFloorBps == p.hwmFloorBps <= MAX_HWM_FLOOR_BPS
    requires loss <= tvl && q.hwmMark == Monus(p.hwmMark, loss)
    ensures Headroom(q, epoch, tvl - loss) <= Headroom(p, epoch, tvl)
  {
    hide Floor;
    var before, after := Refresh(p, epoch, tvl).hwmMark, Refresh(q, epoch, tvl - loss).hwmMark;
    assert after >= Monus(before, loss);
    FloorDropsByAtMost(before, loss, p.hwmFloorBps);
    FloorMonotone(Monus(before, loss), after, p.hwmFloorBps);
  }

  // -------------------------------------------------------------- one step

  /** A flush raises the headroom neither at the value on the books nor at what is in the vault,
      which is the value a withdrawal sees once it has accrued, in whatever epoch it comes. */
  lemma FlushKeepsHeadroom(w: World, amount: u64, epoch: u64)
    requires Inv(w) && ExecFlush(w, amount).Some?
    ensures var w' := ExecFlush(w, amount).value;
            && Headroom(w'.pool, epoch, Value(w'.pool)) <= Headroom(w.pool, epoch, Value(w.pool))
            && Headroom(w'.pool, epoch, w'.vault) <= Headroom(w.pool, epoch, w.vault)
  {
    hide Headroom;
    var q := ExecFlush(w, amount).value.pool;
    LossKeepsHeadroom(w.pool, q, epoch, Value(w.pool), amount);
    LossKeepsHeadroom(w.pool, q, epoch, w.vault, amount);
  }

  /** So a flush lets no payout through the gate: what passes after it, with the vault accrued
      on both sides, would have passed before it. */
  lemma FlushOpensNoGate(w: World, amount: u64, epoch: u64, out: u64, p: Pool, q: Pool)
    requires Inv(w) && ExecFlush(w, amount).Some?
    requires Accrue(w.pool, w.vault) == Some(p)
    requires var w' := ExecFlush(w, amount).value; Accrue(w'.pool, w'.vault) == Some(q)
    requires HwmGate(q, epoch, out, false).Some?
    ensures HwmGate(p, epoch, out, false).Some?
  {
    hide Headroom;
    hide Accrue;
    hide HwmWithdrawalAllowed;
    var w' := ExecFlush(w, amount).value;
    AccrueFacts(w.pool, w.vault);
    AccrueFacts(w'.pool, w'.vault);
    if p.hwmEnabled {
      HwmGateIff(p, epoch, out);
      HwmGateIff(q, epoch, out);
      HeadroomIff(p, epoch, Value(p), out);
      HeadroomIff(q, epoch, Value(q), out);
      LossKeepsHeadroom(p, q, epoch, Value(p), amount);
    }
  }

  /** A flush takes the mark down with the value, by exactly its amount. So a pool whose mark is
      not above its value stays one, and at least a tenth of what is left can be withdrawn, in
      whatever epoch: a flush does not freeze withdrawals. */
  lemma FlushLowersMark(w: World, amount: u64, epoch: u64)
    requires Inv(w) && ExecFlush(w, amount).Some?
    ensures var w' := ExecFlush(w, amount).value;
            && w'.pool.hwmMark == Monus(w.pool.hwmMark, amount) && w'.pool.hwmEpoch == w.pool.hwmEpoch
            && Value(w'.pool) == Value(w.pool) - amount
            && (w.pool.hwmMark <= Value(w.pool) ==>
                  && w'.pool.hwmMark <= Value(w'.pool)
                  && Headroom(w'.pool, epoch, Value(w'.pool)) * 10 >= Value(w'.pool))
  {
    hide Floor;
    var q := ExecFlush(w, amount).value.pool;
    FloorWithin(Value(q), q.hwmFloorBps);
  }

  /** A paying withdrawal under the mark leaves bps / 10000 of it, rounded down, and the mark is at
      least the value the pool had when the payout was decided. */
  lemma PayingWithdrawalLeavesFloor(w: World, user: User, lp: u64)
    requires Inv(w) && ExecWithdraw(w, user, lp).Some? && w.pool.hwmEnabled
    requires ExecWithdraw(w, user, lp).value.vault < w.vault
    ensures var w' := ExecWithdraw(w, user, lp).value;
            && w'.pool.hwmMark * w'.pool.hwmFloorBps < (Value(w'.pool) + 1) * 10_000
            && w'.pool.hwmMark >= Value(w'.pool) + (w.vault - w'.vault)
            && w'.pool.hwmEpoch == w'.epoch && w'.pool.hwmFloorBps == w.pool.hwmFloorBps
  {
    hide Accrue;
    hide Payout;
    hide TakeOut;
    var p, out := WithdrawFacts(w, user, lp);
    AccrueFacts(w.pool, w.vault);
    TakeOutFacts(Marked(p, ExecWithdraw(w, user, lp).value.pool), RecordOf(w, user).junior, lp, out);
  }

  /** A deposit raises the mark to at least the new pool value. */
  lemma DepositRaisesMark(w: World, i: Instruction)
    requires Inv(w) && Exec(w, i).Some? && (i.Deposit? || i.DepositJunior?) && w.pool.hwmEnabled
    ensures var w' := Exec(w, i).value;
            w'.pool.hwmMark >= Value(w'.pool) && w'.pool.hwmEpoch == w'.epoch
  {
    hide Accrue;
    hide ExecDeposit;
    hide ExecDepositJunior;
    hide Book;
    var p, lp := AnyDepositFacts(w, i);
    AccrueFacts(w.pool, w.vault);
    BookFacts(w, p, i.user, i.amount, lp, i.DepositJunior?);
  }

  /** The mark belongs to the current epoch. */
  ghost predicate MarkCurrent(w: World) {
    w.pool.hwmEpoch == w.epoch
  }

  /** Within an epoch the mark falls only by what is flushed. */
  ghost predicate MarkHolds(w: World, w': World) {
    MarkCurrent(w') && w.pool.hwmMark <= w'.pool.hwmMark + (w'.pool.flushed - w.pool.flushed)
  }

  lemma DepositKeepsMark(w: World, i: Instruction)
    requires Inv(w) && MarkCurrent(w) && Exec(w, i).Some? && (i.Deposit? || i.DepositJunior?)
    ensures MarkHolds(w, Exec(w, i).value)
  {
    hide Accrue;
    hide ExecDeposit;
    hide ExecDepositJunior;
    hide Book;
    var p, lp := AnyDepositFacts(w, i);
    AccrueFacts(w.pool, w.vault);
    BookFacts(w, p, i.user, i.amount, lp, i.DepositJunior?);
  }

  lemma WithdrawKeepsMark(w: World, user: User, lp: u64)
    requires Inv(w) && MarkCurrent(w) && ExecWithdraw(w, user, lp).Some?
    ensures MarkHolds(w, ExecWithdraw(w, user, lp).value)
  {
    hide Accrue;
    hide ExecWithdraw;
    hide Payout;
    hide TakeOut;
    var p, out := WithdrawFacts(w, user, lp);
    AccrueFacts(w.pool, w.vault);
    TakeOutFacts(Marked(p, ExecWithdraw(w, user, lp).value.pool), RecordOf(w, user).junior, lp, out);
  }

  lemma StepKeepsMark(w: World, s: Step)
    requires Inv(w) && MarkCurrent(w) && Apply(w, s).epoch == w.epoch
    ensures MarkHolds(w, Apply(w, s))
  {
    hide Accrue;
    hide ExecDeposit;
    hide ExecDepositJunior;
    hide ExecWithdraw;
    hide ExecConfig;
    if Succeeds(w, s) {
      match s.i
      case Deposit(_, _) => DepositKeepsMark(w, s.i);
      case DepositJunior(_, _) => DepositKeepsMark(w, s.i);
      case Withdraw(user, lp) => WithdrawKeepsMark(w, user, lp);
      case AccrueFees => AccrueFacts(w.pool, w.vault);
      case FlushToInsurance(_) =>
      case ReturnInsurance(_) =>
      case RecoverFlushedInsurance(_) =>
      case TransferToVault(_) =>
      case BurnLp(_) =>
      case AdvanceClock(_, _) =>
      case _ => ConfigKeepsBooks(w.pool, w.slot, s.i);
    }
  }

  // ------------------------------------------------------------------- runs

  lemma StepAdvancesClock(w: World, s: Step)
    ensures w.slot <= Apply(w, s).slot && w.epoch <= Apply(w, s).epoch
  {
    hide PreAccrue;
    hide Accrue;
    hide PriceDeposit;
    hide CalcLpForDeposit;
    hide Credit;
    hide Enrolled;
    hide HwmGate;
    hide ExecConfig;
    hide Payout;
    hide TakeOut;
  }

  lemma {:induction false} RunAdvancesClock(w: World, steps: seq<Step>)
    ensures w.slot <= Run(w, steps).slot && w.epoch <= Run(w, steps).epoch
    decreases |steps|
  {
    hide Apply;
    if steps != [] {
      RunAdvancesClock(w, steps[..|steps| - 1]);
      StepAdvancesClock(Run(w, steps[..|steps| - 1]), steps[|steps| - 1]);
    }
  }

  lemma {:induction false} MarkOverEpoch(w: World, steps: seq<Step>)
    requires Inv(w) && MarkCurrent(w) && Run(w, steps).epoch == w.epoch
    ensures MarkHolds(w, Run(w, steps))
    decreases |steps|
  {
    hide Apply;
    hide Inv;
    if steps != [] {
      var before, s := steps[..|steps| - 1], steps[|steps| - 1];
      RunAdvancesClock(w, before);
      StepAdvancesClock(Run(w, before), s);
      MarkOverEpoch(w, before);
      RunKeepsInv(w, before);
      StepKeepsMark(Run(w, before), s);
    }
  }

  // ----------------------------------------------------------- upper bound

  /** The mark is within `peak` less everything flushed. */
  ghost predicate MarkWithin(w: World, peak: nat) {
    w.pool.hwmMark <= Monus(peak, w.pool.flushed)
  }

  /** Vault and flushed together are within `peak`. */
  ghost predicate HeldWithin(w: World, peak: nat) {
    w.vault + w.pool.flushed <= peak
  }

  lemma DepositKeepsMarkWithin(w: World, i: Instruction, peak: nat)
    requires Inv(w) && Exec(w, i).Some? && (i.Deposit? || i.DepositJunior?)
    requires MarkWithin(w, peak) && HeldWithin(Exec(w, i).value, peak)
    ensures MarkWithin(Exec(w, i).value, peak)
  {
    hide Accrue;
    hide ExecDeposit;
    hide ExecDepositJunior;
    hide Book;
    hide LpSum;
    var p, lp := AnyDepositFacts(w, i);
    AccrueFacts(w.pool, w.vault);
    BookFacts(w, p, i.user, i.amount, lp, i.DepositJunior?);
  }

  lemma WithdrawKeepsMarkWithin(w: World, user: User, lp: u64, peak: nat)
    requires Inv(w) && ExecWithdraw(w, user, lp).Some?
    requires MarkWithin(w, peak) && HeldWithin(w, peak)
    ensures MarkWithin(ExecWithdraw(w, user, lp).value, peak)
  {
    hide Accrue;
    hide ExecWithdraw;
    hide Payout;
    hide TakeOut;
    hide LpSum;
    var p, out := WithdrawFacts(w, user, lp);
    AccrueFacts(w.pool, w.vault);
    TakeOutFacts(Marked(p, ExecWithdraw(w, user, lp).value.pool), RecordOf(w, user).junior, lp, out);
  }

  lemma StepKeepsMarkWithin(w: World, s: Step, peak: nat)
    requires Inv(w) && MarkWithin(w, peak) && HeldWithin(w, peak) && HeldWithin(Apply(w, s), peak)
    ensures MarkWithin(Apply(w, s), peak)
  {
    hide Inv;
    hide Accrue;
    hide ExecDeposit;
    hide ExecDepositJunior;
    hide ExecWithdraw;
    hide ExecConfig;
    if Succeeds(w, s) {
      match s.i
      case Deposit(_, _) => DepositKeepsMarkWithin(w, s.i, peak);
      case DepositJunior(_, _) => DepositKeepsMarkWithin(w, s.i, peak);
      case Withdraw(user, lp) => WithdrawKeepsMarkWithin(w, user, lp, peak);
      case AccrueFees => AccrueFacts(w.pool, w.vault);
      case FlushToInsurance(_) =>
      case ReturnInsurance(_) =>
      case RecoverFlushedInsurance(_) =>
      case TransferToVault(_) =>
      case BurnLp(_) =>
      case AdvanceClock(_, _) =>
      case _ => ConfigKeepsBooks(w.pool, w.slot, s.i);
    }
  }

  /** In every state the run passes through, vault and flushed together are within `peak`. */
  ghost predicate HeldWithinThroughout(w: World, steps: seq<Step>, peak: nat)
    decreases |steps|
  {
    && HeldWithin(Run(w, steps), peak)
    && (steps != [] ==> HeldWithinThroughout(w, steps[..|steps| - 1], peak))
  }

  /** The mark is never stale above what the pool has had: over any run, through any epochs, it is
      at most the largest sum of vault and flushed less everything flushed by then. */
  lemma {:induction false} MarkWithinPeak(w: World, steps: seq<Step>, peak: nat)
    requires Inv(w) && MarkWithin(w, peak) && HeldWithinThroughout(w, steps, peak)
    ensures MarkWithin(Run(w, steps), peak)
    decreases |steps|
  {
    hide Apply;
    hide Inv;
    hide MarkWithin;
    hide HeldWithin;
    if steps != [] {
      var before := steps[..|steps| - 1];
      MarkWithinPeak(w, before, peak);
      RunKeepsInv(w, before);
      StepKeepsMarkWithin(Run(w, before), steps[|steps| - 1], peak);
    }
  }

  // ------------------------------------------------------------ drain limit

  /** The drain limit. Take any moment of an epoch at which the mark stood at `tvl` or more,
      anything whatever that happens later in the epoch, and then a paying withdrawal under
      an enabled mark: it leaves the pool worth at least the configured share of `tvl` less
      what was flushed in between. */
  lemma DrainLimitedOverEpoch(w: World, tvl: nat, steps: seq<Step>, user: User, lp: u64)
    requires Inv(w) && MarkCurrent(w) && tvl <= w.pool.hwmMark
    requires var e := Run(w, steps);
             && e.epoch == w.epoch && e.pool.hwmEnabled
             && ExecWithdraw(e, user, lp).Some?
             && ExecWithdraw(e, user, lp).value.vault < e.vault
    ensures var e := Run(w, steps);
            Monus(tvl + w.pool.flushed, e.pool.flushed) * e.pool.hwmFloorBps
            < (Value(ExecWithdraw(e, user, lp).value.pool) + 1) * 10_000
  {
    hide Run;
    hide ExecWithdraw;
    hide Floor;
    hide Accrue;
    RunKeepsInv(w, steps);
    RunGrowsCounters(w, steps);
    MarkOverEpoch(w, steps);
    var e := Run(w, steps);
    var e' := ExecWithdraw(e, user, lp).value;
    PayingWithdrawalLeavesFloor(e, user, lp);
    WithdrawKeepsMark(e, user, lp);
    WithdrawForfeits(e, Withdraw(user, lp));
    MulMono(Monus(tvl + w.pool.flushed, e.pool.flushed), e'.pool.hwmMark, e.pool.hwmFloorBps);
  }
}
